/** dbm_extrapolateMaxBounds and dbm_closeLU (src/dbm.c): the zone grows, stays closed, and only finitely many
    matrices can come out. */
module Extrapolation {
  import opened Bounds
  import opened Zones
  import opened Closure
  import opened Closing
  import opened Constraining
  import opened Relations

  /** The largest constant a clock is compared with, or -dbm_INFINITY for a clock that does not matter. */
  datatype Max = Inactive | UpTo(value: nat)

  ghost predicate Maxima(max: seq<Max>, n: nat) {
    |max| == n > 0 && max[0] == UpTo(0)
  }

  function Minus(c: nat): int {
    -(c as int)
  }

  /** bound > max[i] */
  predicate Beyond(bound: int, max: Max) {
    max.Inactive? || bound > max.value
  }

  /** The first row: a lower bound above the maximum becomes "above the maximum". */
  function LowerEntry(r: Raw, max: Max): Raw {
    match max
    case Inactive => LE_ZERO
    case UpTo(value) => if r.Bound? && r.value < Minus(value) then Bound(Minus(value), false) else r
  }

  /** Any other entry with an active second clock. */
  function OtherEntry(r: Raw, maxi: Max, maxj: nat): Raw {
    if r.Inf? then Inf
    else if Beyond(r.value, maxi) then Inf
    else if r.value < Minus(maxj) then Bound(Minus(maxj), false)
    else r
  }

  /** Entry (i, j) before closing. */
  function LooseEntry(m: Dbm, max: seq<Max>, i: nat, j: nat): Raw
    requires |max| == |m| && i < |m| && j < |m|
  {
    if i == j then m[i][j]
    else if i == 0 then LowerEntry(m[0][j], max[j])
    else match max[j]
      case Inactive => OtherEntry(m[i][0], max[i], 0)
      case UpTo(value) => OtherEntry(m[i][j], max[i], value)
  }

  /** The entry makes the code note a change. */
  predicate NotesChange(m: Dbm, max: seq<Max>, i: nat, j: nat)
    requires |max| == |m| && i < |m| && j < |m|
  {
    i != j && max[j].UpTo? && m[i][j].Bound? &&
    if i == 0 then m[i][j].value < Minus(max[j].value)
    else if Beyond(m[i][j].value, max[i]) then max[i].UpTo? else m[i][j].value < Minus(max[j].value)
  }

  ghost predicate Changes(m: Dbm, max: seq<Max>) {
    |max| == |m| && exists i: nat, j: nat :: i < |m| && j < |m| && NotesChange(m, max, i, j)
  }

  ghost predicate IsLoose(m: Dbm, max: seq<Max>, m': Dbm) {
    |max| == |m| == |m'| && forall i, j {:trigger m'[i][j]} :: 0 <= i < |m| && 0 <= j < |m| ==> m'[i][j] == LooseEntry(m, max, i, j)
  }

  ghost function Loose(m: Dbm, max: seq<Max>): (m': Dbm)
    requires |max| == |m|
    ensures IsLoose(m, max, m')
  {
    assert exists m': Dbm :: IsLoose(m, max, m') by {
      assert IsLoose(m, max, Build(|m|, (i, j) requires 0 <= i < |m| && 0 <= j < |m| => LooseEntry(m, max, i, j)));
    }
    var m': Dbm :| IsLoose(m, max, m'); m'
  }

  /** The clocks that dbm_closeLU closes over. */
  ghost function Active(max: seq<Max>): (T: set<int>)
    ensures forall k :: k in T <==> 0 <= k < |max| && max[k].UpTo?
  {
    set k | 0 <= k < |max| && max[k].UpTo?
  }

  /** What the extrapolation makes of a matrix. */
  ghost function Extrapolated(m: Dbm, max: seq<Max>): (m': Dbm)
    requires |max| == |m|
    ensures |m'| == |m|
  {
    if Changes(m, max) then CloseOver(Loose(m, max), Active(max), |m|) else Loose(m, max)
  }

  // ----- Nothing is lost, and closing is complete -----

  /** Every entry only gets looser. */
  lemma LooseIsAbove(m: Dbm, max: seq<Max>, i: nat, j: nat)
    requires Valid(m) && Maxima(max, |m|) && i < |m| && j < |m|
    ensures Le(m[i][j], LooseEntry(m, max, i, j))
  {
    assert Le(m[0][j], LE_ZERO);
    if i == 0 {
      LowerEntryIsAbove(m[0][j], max[j]);
    } else if i != j {
      match max[j]
      case Inactive =>
        Triangle(m, i, 0, j);
        OtherEntryIsAbove(m[i][0], max[i], 0);
        ThroughZero(m[i][j], m[i][0], m[0][j], OtherEntry(m[i][0], max[i], 0));
      case UpTo(value) =>
        OtherEntryIsAbove(m[i][j], max[i], value);
    }
  }

  lemma LowerEntryIsAbove(r: Raw, max: Max)
    requires Le(r, LE_ZERO)
    ensures Le(r, LowerEntry(r, max))
  {
  }

  lemma OtherEntryIsAbove(r: Raw, maxi: Max, maxj: nat)
    ensures Le(r, OtherEntry(r, maxi, maxj))
  {
  }

  lemma ThroughZero(ij: Raw, i0: Raw, zj: Raw, r: Raw)
    requires Le(ij, Add(i0, zj)) && Le(zj, LE_ZERO) && Le(i0, r)
    ensures Le(ij, r)
  {
  }

  lemma LooseContains(m: Dbm, max: seq<Max>)
    requires Valid(m) && Maxima(max, |m|)
    ensures Included(m, Loose(m, max)) && ZeroDiagonal(Loose(m, max))
  {
    var m' := Loose(m, max);
    forall v: Valuation | InZone(v, m) ensures InZone(v, m') {
      forall i, j {:trigger m'[i][j]} | 0 <= i < |m| && 0 <= j < |m| ensures Sat(v[i] - v[j], m'[i][j]) {
        LooseIsAbove(m, max, i, j);
        SatLe(v[i] - v[j], m[i][j], m'[i][j]);
      }
    }
    forall i {:trigger m'[i][i]} | 0 <= i < |m| ensures m'[i][i] == LE_ZERO {
      assert m[i][i] == LE_ZERO;
    }
  }

  /** A clock without a maximum is bounded by nothing, so no detour through it helps. */
  lemma InactiveGivesNothing(m: Dbm, max: seq<Max>)
    requires Valid(m) && Maxima(max, |m|)
    ensures ThroughOutside(Loose(m, max), Active(max))
  {
    forall p {:trigger Through(Loose(m, max), p)} | 0 <= p < |m| && p !in Active(max) ensures Through(Loose(m, max), p) {
      InactiveThrough(m, max, p, Loose(m, max));
    }
  }

  lemma InactiveThrough(m: Dbm, max: seq<Max>, p: nat, m': Dbm)
    requires Valid(m) && Maxima(max, |m|) && p < |m| && max[p].Inactive? && m' == Loose(m, max)
    ensures Through(m', p)
  {
    forall i, j {:trigger m'[i][j]} | 0 <= i < |m| && 0 <= j < |m| ensures Le(m'[i][j], Add(m'[i][p], m'[p][j])) {
      InactiveEntry(m, max, i, p, j);
    }
  }

  lemma InactiveEntry(m: Dbm, max: seq<Max>, i: nat, p: nat, j: nat)
    requires Valid(m) && Maxima(max, |m|) && i < |m| && p < |m| && j < |m| && max[p].Inactive?
    ensures Le(LooseEntry(m, max, i, j), Add(LooseEntry(m, max, i, p), LooseEntry(m, max, p, j)))
  {
    assert p > 0 && m[p][p] == LE_ZERO;
    assert j != p ==> LooseEntry(m, max, p, j) == Inf;
  }

  /** When no change was noted, only clocks without a maximum were touched, and the matrix is closed as it is. */
  lemma UnchangedIsClosed(m: Dbm, max: seq<Max>)
    requires Valid(m) && Maxima(max, |m|) && !Changes(m, max)
    ensures Canonical(Loose(m, max))
  {
    var m' := Loose(m, max);
    LooseContains(m, max);
    InactiveGivesNothing(m, max);
    forall p | 0 <= p < |m| ensures Through(m', p) {
      if p !in Active(max) {
        assert Through(m', p);
      } else {
        forall i, j {:trigger m'[i][j]} | 0 <= i < |m| && 0 <= j < |m| ensures Le(m'[i][j], Add(m'[i][p], m'[p][j])) {
          UnchangedTriangle(m, max, i, p, j);
        }
      }
    }
  }

  lemma UnchangedEntry(m: Dbm, max: seq<Max>, i: nat, j: nat)
    requires Valid(m) && Maxima(max, |m|) && !Changes(m, max) && i < |m| && j < |m| && max[i].UpTo? && max[j].UpTo?
    ensures LooseEntry(m, max, i, j) == m[i][j]
  {
    assert !NotesChange(m, max, i, j);
  }

  lemma UnchangedTriangle(m: Dbm, max: seq<Max>, i: nat, p: nat, j: nat)
    requires Valid(m) && Maxima(max, |m|) && !Changes(m, max) && i < |m| && p < |m| && j < |m| && max[p].UpTo?
    ensures Le(LooseEntry(m, max, i, j), Add(LooseEntry(m, max, i, p), LooseEntry(m, max, p, j)))
  {
    assert m[0][0] == LE_ZERO && m[i][i] == LE_ZERO && m[j][j] == LE_ZERO && m[p][p] == LE_ZERO;
    if max[i].UpTo? {
      UnchangedEntry(m, max, i, p);
      if max[j].UpTo? {
        UnchangedEntry(m, max, i, j);
        UnchangedEntry(m, max, p, j);
        Triangle(m, i, p, j);
      } else {
        UnchangedEntry(m, max, i, 0);
        UnchangedEntry(m, max, p, 0);
        Triangle(m, i, p, 0);
      }
    }
  }

  lemma ActiveClosing(m: Dbm, max: seq<Max>)
    requires Valid(m) && Maxima(max, |m|)
    ensures ZeroDiagonal(Loose(m, max)) && ThroughOutside(Loose(m, max), Active(max)) && !EmptyZone(Loose(m, max))
  {
    LooseContains(m, max);
    InactiveGivesNothing(m, max);
    var v := CanonicalHasPoint(m);
    assert InZone(v, Loose(m, max));
  }

  lemma LooseIsNonNegative(m: Dbm, max: seq<Max>)
    requires Valid(m) && Maxima(max, |m|)
    ensures forall j :: 0 <= j < |m| ==> Le(Loose(m, max)[0][j], LE_ZERO)
  {
    forall j | 0 <= j < |m| ensures Le(Loose(m, max)[0][j], LE_ZERO) {
      assert Le(m[0][j], LE_ZERO);
    }
  }

  /** The result is a valid matrix of a larger zone. */
  lemma ExtrapolatedIsValid(m: Dbm, max: seq<Max>)
    requires Valid(m) && Maxima(max, |m|)
    ensures Valid(Extrapolated(m, max)) && Included(m, Extrapolated(m, max))
  {
    var m' := Loose(m, max);
    LooseContains(m, max);
    LooseIsNonNegative(m, max);
    if Changes(m, max) {
      ActiveClosing(m, max);
      var v: Valuation :| InZone(v, m');
      NonEmptyNeverFails(m', Active(max), |m|, v);
      FinishedClosing(m', Active(max));
      forall j | 0 <= j < |m| ensures Le(Extrapolated(m, max)[0][j], LE_ZERO) {
        CloseOverTightens(m', Active(max), |m|, 0, j);
      }
    } else {
      UnchangedIsClosed(m, max);
    }
  }

  // ----- What comparisons with the maxima and small points do not notice -----

  /** The result is at or below the loosened entries. */
  lemma ExtrapolatedIsBelow(m: Dbm, max: seq<Max>, i: nat, j: nat)
    requires Valid(m) && Maxima(max, |m|) && i < |m| && j < |m|
    ensures Le(Extrapolated(m, max)[i][j], LooseEntry(m, max, i, j))
  {
    assert Loose(m, max)[i][j] == LooseEntry(m, max, i, j);
    if Changes(m, max) {
      CloseOverTightens(Loose(m, max), Active(max), |m|, i, j);
    }
  }

  /** A comparison of clock i with a constant up to its maximum: xi <= c, xi < c, xi >= c or xi > c. */
  ghost predicate Compares(max: seq<Max>, i: nat, upper: bool, r: Raw) {
    0 < i < |max| && max[i].UpTo? && r.Bound? && 0 <= (if upper then r.value else -r.value) <= max[i].value
  }

  /** Some point of the zone passes the comparison. */
  ghost predicate SomePasses(m: Dbm, i: nat, upper: bool, r: Raw) {
    i < |m| && exists v: Valuation :: InZone(v, m) && if upper then Sat(v[i] - v[0], r) else Sat(v[0] - v[i], r)
  }

  lemma PassesByEntry(m: Dbm, i: nat, upper: bool, r: Raw)
    requires Canonical(m) && 0 < i < |m| && r.Bound?
    ensures SomePasses(m, i, upper, r) <==> !Le(if upper then m[0][i] else m[i][0], Neg(r))
  {
    assert m[0][0] == LE_ZERO && m[i][i] == LE_ZERO;
    Triangle(m, 0, i, 0);
    Triangle(m, i, 0, i);
    if upper {
      SatisfiesIsExact(m, i, 0, r);
    } else {
      SatisfiesIsExact(m, 0, i, r);
    }
  }

  /** No comparison of a clock with a constant up to its maximum tells the result from the zone. */
  ghost predicate SameComparisons(m: Dbm, m': Dbm, max: seq<Max>) {
    forall i: nat, upper: bool, r: Raw {:trigger SomePasses(m', i, upper, r)} :: Compares(max, i, upper, r) ==>
      (SomePasses(m, i, upper, r) <==> SomePasses(m', i, upper, r))
  }

  lemma ComparisonKept(m: Dbm, max: seq<Max>, i: nat, upper: bool, r: Raw)
    requires Valid(m) && Maxima(max, |m|) && Compares(max, i, upper, r)
    ensures SomePasses(m, i, upper, r) <==> SomePasses(Extrapolated(m, max), i, upper, r)
  {
    var m' := Extrapolated(m, max);
    ExtrapolatedIsValid(m, max);
    if SomePasses(m, i, upper, r) {
      var v: Valuation :| InZone(v, m) && if upper then Sat(v[i] - v[0], r) else Sat(v[0] - v[i], r);
      assert InZone(v, m');
    } else {
      PassesByEntry(m, i, upper, r);
      PassesByEntry(m', i, upper, r);
      ExtrapolatedIsBelow(m, max, 0, i);
      ExtrapolatedIsBelow(m, max, i, 0);
      UpperIsNonNegative(m, i);
    }
  }

  /** The upper bound of a clock is not negative. */
  lemma UpperIsNonNegative(m: Dbm, i: nat)
    requires Valid(m) && i < |m|
    ensures Le(LE_ZERO, m[i][0])
  {
    assert m[i][i] == LE_ZERO && Le(m[0][i], LE_ZERO);
    Triangle(m, i, 0, i);
  }

  lemma KeepsComparisons(m: Dbm, max: seq<Max>)
    requires Valid(m) && Maxima(max, |m|)
    ensures SameComparisons(m, Extrapolated(m, max), max)
  {
    forall i: nat, upper: bool, r: Raw {:trigger SomePasses(Extrapolated(m, max), i, upper, r)} | Compares(max, i, upper, r)
      ensures SomePasses(m, i, upper, r) <==> SomePasses(Extrapolated(m, max), i, upper, r)
    {
      ComparisonKept(m, max, i, upper, r);
    }
  }

  /** No clock is negative, and none is above its maximum if it has one. */
  ghost predicate WithinMaxima(v: Valuation, max: seq<Max>) {
    |v| == |max| > 0 && v[0] == 0.0 &&
    forall i {:trigger v[i]} :: 0 <= i < |max| ==> v[i] >= 0.0 && (max[i].UpTo? ==> v[i] <= max[i].value as real)
  }

  /** Some point of the zone has the same values for the clocks with a maximum. */
  ghost predicate AgreesOnActive(v: Valuation, m: Dbm, max: seq<Max>) {
    |v| == |m| == |max| && exists u: Valuation :: InZone(u, m) && forall i {:trigger v[i]} :: 0 <= i < |max| && max[i].UpTo? ==> u[i] == v[i]
  }

  /** A point within the maxima meets a loosened bound between clocks with maxima exactly when it meets the bound. */
  lemma SmallMeetsBound(m: Dbm, max: seq<Max>, v: Valuation, i: nat, j: nat)
    requires Valid(m) && Maxima(max, |m|) && WithinMaxima(v, max) && i < |m| && j < |m| && max[i].UpTo? && max[j].UpTo?
    ensures Sat(v[i] - v[j], LooseEntry(m, max, i, j)) <==> Sat(v[i] - v[j], m[i][j])
  {
    assert Le(m[0][j], LE_ZERO) && m[i][i] == LE_ZERO;
    assert 0.0 <= v[i] <= max[i].value as real && 0.0 <= v[j] <= max[j].value as real;
    if m[i][j].Bound? && m[i][j].value > max[i].value {
      assert m[i][j].value as real > max[i].value as real;
    }
    if m[i][j].Bound? && m[i][j].value < Minus(max[j].value) {
      assert (m[i][j].value as real) < Minus(max[j].value) as real;
    }
  }

  /** A bound on a clock without a maximum follows from the upper bound of the other one. */
  lemma SmallMeetsRest(m: Dbm, max: seq<Max>, v: Valuation, i: nat, j: nat)
    requires Valid(m) && Maxima(max, |m|) && WithinMaxima(v, max) && i < |m| && j < |m| && (max[i].Inactive? || max[j].Inactive?)
    requires max[i].UpTo? ==> Sat(v[i] - v[0], m[i][0])
    ensures Sat(v[i] - v[j], LooseEntry(m, max, i, j))
  {
    assert m[i][i] == LE_ZERO && m[0][0] == LE_ZERO;
    assert v[i] >= 0.0 && v[j] >= 0.0;
    if i != j && i > 0 && max[i].UpTo? {
      SmallMeetsBound(m, max, v, i, 0);
      assert v[i] - v[j] <= v[i] - v[0];
      SatSmaller(v[i] - v[j], v[i] - v[0], OtherEntry(m[i][0], max[i], 0));
    }
  }

  lemma SatSmaller(d: real, e: real, r: Raw)
    requires Sat(e, r) && d <= e
    ensures Sat(d, r)
  {
  }

  /** Among the points within the maxima nothing is gained: the result has exactly those that agree with a point
      of the zone on all clocks with a maximum; if all have one, these are the points of the zone. */
  ghost predicate SamePointsWithin(m: Dbm, m': Dbm, max: seq<Max>) {
    forall v: Valuation {:trigger WithinMaxima(v, max)} :: WithinMaxima(v, max) ==>
      (InZone(v, m') <==> AgreesOnActive(v, m, max)) &&
      ((forall i {:trigger max[i]} :: 0 <= i < |max| ==> max[i].UpTo?) ==> (InZone(v, m') <==> InZone(v, m)))
  }

  /** The result has the points that meet the loosened bounds. */
  lemma ExtrapolatedMeets(m: Dbm, max: seq<Max>, v: Valuation)
    requires Valid(m) && Maxima(max, |m|)
    ensures InZone(v, Extrapolated(m, max)) <==> InZone(v, Loose(m, max))
  {
    if Changes(m, max) {
      CloseOverKeepsMeets(Loose(m, max), Active(max), |m|, v);
    }
  }

  lemma SmallPointIsGained(m: Dbm, max: seq<Max>, v: Valuation)
    requires Valid(m) && Maxima(max, |m|) && WithinMaxima(v, max) && AgreesOnActive(v, m, max)
    ensures InZone(v, Loose(m, max))
  {
    var u: Valuation :| InZone(u, m) && forall i {:trigger v[i]} :: 0 <= i < |max| && max[i].UpTo? ==> u[i] == v[i];
    var m' := Loose(m, max);
    forall i, j {:trigger m'[i][j]} | 0 <= i < |m| && 0 <= j < |m| ensures Sat(v[i] - v[j], m'[i][j]) {
      MeetsAt(u, m, i, j);
      MeetsAt(u, m, i, 0);
      assert max[0].UpTo? && u[0] == v[0];
      if max[i].UpTo? && max[j].UpTo? {
        assert u[i] == v[i] && u[j] == v[j];
        SmallMeetsBound(m, max, v, i, j);
      } else {
        assert max[i].UpTo? ==> u[i] == v[i];
        SmallMeetsRest(m, max, v, i, j);
      }
    }
  }

  lemma SmallPointAgrees(m: Dbm, max: seq<Max>, v: Valuation) returns (u: Valuation)
    requires Valid(m) && Maxima(max, |m|) && WithinMaxima(v, max) && InZone(v, Loose(m, max))
    ensures InZone(u, m) && forall i {:trigger v[i]} :: 0 <= i < |max| && max[i].UpTo? ==> u[i] == v[i]
  {
    var m', T := Loose(m, max), Active(max);
    assert MeetsOn(v, m, T) by {
      forall i, j {:trigger m[i][j]} | i in T && j in T && 0 <= i < |m| && 0 <= j < |m| ensures Sat(v[i] - v[j], m[i][j]) {
        MeetsAt(v, m', i, j);
        SmallMeetsBound(m, max, v, i, j);
      }
    }
    assert 0 in T;
    u := Complete(m, v, T, |m|);
    assert u[0] == v[0];
    forall i {:trigger v[i]} | 0 <= i < |max| && max[i].UpTo? ensures u[i] == v[i] {
      assert i in T;
    }
  }

  lemma KeepsSmallPoints(m: Dbm, max: seq<Max>)
    requires Valid(m) && Maxima(max, |m|)
    ensures SamePointsWithin(m, Extrapolated(m, max), max)
  {
    forall v: Valuation {:trigger WithinMaxima(v, max)} | WithinMaxima(v, max)
      ensures InZone(v, Extrapolated(m, max)) <==> AgreesOnActive(v, m, max)
      ensures (forall i {:trigger max[i]} :: 0 <= i < |max| ==> max[i].UpTo?) ==> (InZone(v, Extrapolated(m, max)) <==> InZone(v, m))
    {
      ExtrapolatedMeets(m, max, v);
      SmallPoint(m, max, v);
    }
  }

  lemma SmallPoint(m: Dbm, max: seq<Max>, v: Valuation)
    requires Valid(m) && Maxima(max, |m|) && WithinMaxima(v, max)
    ensures InZone(v, Loose(m, max)) <==> AgreesOnActive(v, m, max)
    ensures (forall i {:trigger max[i]} :: 0 <= i < |max| ==> max[i].UpTo?) ==> (AgreesOnActive(v, m, max) <==> InZone(v, m))
  {
    if AgreesOnActive(v, m, max) {
      SmallPointIsGained(m, max, v);
    }
    if InZone(v, Loose(m, max)) {
      var u := SmallPointAgrees(m, max, v);
    }
    if AgreesOnActive(v, m, max) && forall i {:trigger max[i]} :: 0 <= i < |max| ==> max[i].UpTo? {
      var u: Valuation :| InZone(u, m) && forall i {:trigger v[i]} :: 0 <= i < |max| && max[i].UpTo? ==> u[i] == v[i];
      assert u == v;
    }
  }

  // ----- Finitely many results -----

  function Sequences<T(!new)>(R: set<T>, n: nat): (S: set<seq<T>>)
  {
    if n == 0 then {[]} else set r, s | r in R && s in Sequences(R, n - 1) :: [r] + s
  }

  lemma {:induction false} SequencesHave<T(!new)>(R: set<T>, s: seq<T>)
    requires forall k {:trigger s[k]} :: 0 <= k < |s| ==> s[k] in R
    ensures s in Sequences(R, |s|)
  {
    if |s| > 0 {
      assert s[0] in R;
      SequencesHave(R, s[1..]);
      assert s == [s[0]] + s[1..];
    }
  }

  /** The bounds from -c to c, and infinity. */
  function BoundsUpTo(c: nat): (R: set<Raw>)
    ensures forall r: Raw {:trigger r in R} :: r in R <==> r.Inf? || Minus(c) <= r.value <= c
  {
    if c == 0 then {Inf, Bound(0, true), Bound(0, false)}
    else BoundsUpTo(c - 1) + {Bound(c, true), Bound(c, false), Bound(Minus(c), true), Bound(Minus(c), false)}
  }

  function Largest(max: seq<Max>): (c: nat)
    ensures forall k {:trigger max[k]} :: 0 <= k < |max| && max[k].UpTo? ==> max[k].value <= c
  {
    if max == [] then 0
    else
      var rest := Largest(max[..|max| - 1]);
      var last := max[|max| - 1];
      assert forall k {:trigger max[k]} :: 0 <= k < |max| - 1 ==> max[..|max| - 1][k] == max[k];
      if last.UpTo? && last.value > rest then last.value else rest
  }

  /** Before closing, every bound is infinite or between minus and plus the largest maximum. */
  lemma LooseEntryIsSmall(m: Dbm, max: seq<Max>, i: nat, j: nat)
    requires Valid(m) && Maxima(max, |m|) && i < |m| && j < |m|
    ensures LooseEntry(m, max, i, j) in BoundsUpTo(Largest(max))
  {
    assert m[i][i] == LE_ZERO && Le(m[0][j], LE_ZERO);
    assert max[i].UpTo? ==> max[i].value <= Largest(max);
    assert max[j].UpTo? ==> max[j].value <= Largest(max);
  }

  /** All square matrices with such bounds, as they are and closed. */
  ghost function Matrices(max: seq<Max>): (S: set<seq<seq<Raw>>>)
  {
    Sequences(Sequences(BoundsUpTo(Largest(max)), |max|), |max|)
  }

  ghost function Outcomes(max: seq<Max>): (S: set<seq<seq<Raw>>>)
    ensures forall s :: s in Matrices(max) ==> s in S
    ensures forall s :: s in Matrices(max) && IsSquareSeq(s) && |s| == |max| ==> CloseOver(s, Active(max), |s|) in S
  {
    Matrices(max) + (set s | s in Matrices(max) && IsSquareSeq(s) && |s| == |max| :: CloseOver(s, Active(max), |s|))
  }

  predicate IsSquareSeq(s: seq<seq<Raw>>) {
    |s| >= 1 && forall i :: 0 <= i < |s| ==> |s[i]| == |s|
  }

  /** For given maxima there is a finite set of matrices that holds the result for every zone. */
  lemma FinitelyManyOutcomes(m: Dbm, max: seq<Max>)
    requires Valid(m) && Maxima(max, |m|)
    ensures Extrapolated(m, max) in Outcomes(max)
  {
    var m', R := Loose(m, max), BoundsUpTo(Largest(max));
    forall i {:trigger m'[i]} | 0 <= i < |m'| ensures m'[i] in Sequences(R, |m|) {
      forall j {:trigger m'[i][j]} | 0 <= j < |m'[i]| ensures m'[i][j] in R {
        LooseEntryIsSmall(m, max, i, j);
      }
      SequencesHave(R, m'[i]);
    }
    SequencesHave(Sequences(R, |m|), m');
    assert m' in Matrices(max) && IsSquareSeq(m');
  }

  // ----- In place -----

  /** dbm_closeLU with max for both tables.  The caller's matrix has a point, so no step fails. */
  method CloseLU(a: array2<Raw>, max: seq<Max>)
    requires IsSquare(a) && |max| == a.Length0 && ZeroDiagonal(Mat(a))
    requires ThroughOutside(Mat(a), Active(max)) && !EmptyZone(Mat(a))
    modifies a
    ensures Mat(a) == CloseOver(old(Mat(a)), Active(max), a.Length0)
  {
    ghost var m, T := Mat(a), Active(max);
    ghost var v: Valuation :| InZone(v, m);
    NonEmptyNeverFails(m, T, a.Length0, v);
    var k := 0;
    while k < a.Length0
      invariant 0 <= k <= a.Length0 && Mat(a) == CloseOver(m, T, k) && ZeroDiagonal(Mat(a))
    {
      CloseOverStep(m, T, k);
      assert ZeroDiagonal(CloseOver(m, T, k + 1));
      if max[k].UpTo? {
        var ok := PivotInPlace(a, k);
      }
      k := k + 1;
    }
  }

  /** The entries before (i, j), in row order, are loosened. */
  ghost predicate LooseTo(m: Dbm, max: seq<Max>, k: Dbm, i: nat, j: nat) {
    |k| == |m| == |max| && forall x, y {:trigger k[x][y]} :: 0 <= x < |m| && 0 <= y < |m| ==>
      k[x][y] == if Before(x, y, i, j) then LooseEntry(m, max, x, y) else m[x][y]
  }

  ghost predicate ChangedTo(m: Dbm, max: seq<Max>, i: nat, j: nat) {
    |max| == |m| && exists x: nat, y: nat :: x < |m| && y < |m| && Before(x, y, i, j) && NotesChange(m, max, x, y)
  }

  lemma ChangedOneMore(m: Dbm, max: seq<Max>, i: nat, j: nat)
    requires |max| == |m| && i < |m| && j < |m|
    ensures ChangedTo(m, max, i, j + 1) <==> ChangedTo(m, max, i, j) || NotesChange(m, max, i, j)
  {
    if ChangedTo(m, max, i, j) {
      var x: nat, y: nat :| x < |m| && y < |m| && Before(x, y, i, j) && NotesChange(m, max, x, y);
      assert Before(x, y, i, j + 1);
    }
    if NotesChange(m, max, i, j) {
      assert Before(i, j, i, j + 1);
    }
  }

  lemma ChangedNextRow(m: Dbm, max: seq<Max>, i: nat)
    requires |max| == |m|
    ensures ChangedTo(m, max, i + 1, 0) <==> ChangedTo(m, max, i, |m|)
    ensures ChangedTo(m, max, |m|, 0) <==> Changes(m, max)
  {
    if ChangedTo(m, max, i + 1, 0) {
      var x: nat, y: nat :| x < |m| && y < |m| && Before(x, y, i + 1, 0) && NotesChange(m, max, x, y);
      assert Before(x, y, i, |m|);
    }
    if ChangedTo(m, max, i, |m|) {
      var x: nat, y: nat :| x < |m| && y < |m| && Before(x, y, i, |m|) && NotesChange(m, max, x, y);
      assert Before(x, y, i + 1, 0);
    }
    if Changes(m, max) {
      var x: nat, y: nat :| x < |m| && y < |m| && NotesChange(m, max, x, y);
      assert Before(x, y, |m|, 0);
    }
  }

  /** One entry of the first row. */
  method LoosenLower(a: array2<Raw>, max: seq<Max>, j: nat, changed: bool, ghost m: Dbm) returns (changed': bool)
    requires IsSquare(a) && Valid(m) && Maxima(max, a.Length0) && 0 < j < a.Length0
    requires LooseTo(m, max, Mat(a), 0, j) && changed == ChangedTo(m, max, 0, j)
    modifies a
    ensures LooseTo(m, max, Mat(a), 0, j + 1) && changed' == ChangedTo(m, max, 0, j + 1)
  {
    ChangedOneMore(m, max, 0, j);
    assert Le(m[0][j], LE_ZERO) && Mat(a)[0][j] == m[0][j];
    changed' := changed;
    if max[j].Inactive? || a[0, j].value < Minus(max[j].value) {
      a[0, j] := if max[j].UpTo? then Bound(Minus(max[j].value), false) else LE_ZERO;
      changed' := changed || max[j].UpTo?;
    }
  }

  /** One entry of another row; entry (i, 0) was dealt with first. */
  method LoosenOther(a: array2<Raw>, max: seq<Max>, i: nat, j: nat, changed: bool, ghost m: Dbm) returns (changed': bool)
    requires IsSquare(a) && Valid(m) && Maxima(max, a.Length0) && 0 < i < a.Length0 && j < a.Length0
    requires LooseTo(m, max, Mat(a), i, j) && changed == ChangedTo(m, max, i, j)
    modifies a
    ensures LooseTo(m, max, Mat(a), i, j + 1) && changed' == ChangedTo(m, max, i, j + 1)
  {
    ChangedOneMore(m, max, i, j);
    changed' := changed;
    assert Mat(a)[i][j] == m[i][j];
    if i != j {
      if max[j].Inactive? {
        assert Mat(a)[i][0] == LooseEntry(m, max, i, 0);
        a[i, j] := a[i, 0];
      } else if a[i, j].Bound? {
        if Beyond(a[i, j].value, max[i]) {
          a[i, j] := Inf;
          changed' := changed || max[i].UpTo?;
        } else if a[i, j].value < Minus(max[j].value) {
          a[i, j] := Bound(Minus(max[j].value), false);
          changed' := true;
        }
      }
    }
  }

  /** dbm_extrapolateMaxBounds */
  method ExtrapolateMaxBounds(a: array2<Raw>, max: seq<Max>)
    requires IsSquare(a) && Valid(Mat(a)) && Maxima(max, a.Length0)
    modifies a
    ensures Mat(a) == Extrapolated(old(Mat(a)), max) && Valid(Mat(a)) && Included(old(Mat(a)), Mat(a))
    ensures SameComparisons(old(Mat(a)), Mat(a), max) && SamePointsWithin(old(Mat(a)), Mat(a), max)
  {
    ghost var m := Mat(a);
    var n := a.Length0;
    var changed := false;
    StartLoosening(m, max);
    var j := 1;
    while j < n
      invariant 1 <= j <= n && LooseTo(m, max, Mat(a), 0, j) && changed == ChangedTo(m, max, 0, j)
    {
      changed := LoosenLower(a, max, j, changed, m);
      j := j + 1;
    }
    var i := 1;
    NextRowLoose(m, max, Mat(a), 0);
    while i < n
      invariant 1 <= i <= n && LooseTo(m, max, Mat(a), i, 0) && changed == ChangedTo(m, max, i, 0)
    {
      j := 0;
      while j < n
        invariant 0 <= j <= n && LooseTo(m, max, Mat(a), i, j) && changed == ChangedTo(m, max, i, j)
      {
        changed := LoosenOther(a, max, i, j, changed, m);
        j := j + 1;
      }
      NextRowLoose(m, max, Mat(a), i);
      i := i + 1;
    }
    AllLoose(m, max, Mat(a));
    ActiveClosing(m, max);
    ExtrapolatedIsValid(m, max);
    if changed {
      CloseLU(a, max);
    }
    KeepsComparisons(m, max);
    KeepsSmallPoints(m, max);
  }

  lemma StartLoosening(m: Dbm, max: seq<Max>)
    requires Valid(m) && Maxima(max, |m|)
    ensures LooseTo(m, max, m, 0, 1) && !ChangedTo(m, max, 0, 1)
  {
  }

  lemma NextRowLoose(m: Dbm, max: seq<Max>, k: Dbm, i: nat)
    requires LooseTo(m, max, k, i, |m|)
    ensures LooseTo(m, max, k, i + 1, 0) && (ChangedTo(m, max, i + 1, 0) <==> ChangedTo(m, max, i, |m|))
  {
    ChangedNextRow(m, max, i);
  }

  lemma AllLoose(m: Dbm, max: seq<Max>, k: Dbm)
    requires LooseTo(m, max, k, |m|, 0)
    ensures k == Loose(m, max) && (ChangedTo(m, max, |m|, 0) <==> Changes(m, max))
  {
    ChangedNextRow(m, max, 0);
    SameEntries(k, Loose(m, max));
  }
}
