/** What closing a matrix means, on matrices as values.  `Closing` proves the in-place
    routines of src/dbm.c against the functions of this module. */
module Closure {
  import opened Bounds
  import opened Zones

  /** The matrix with entry f(i, j) at (i, j). */
  function Build(n: nat, f: (nat, nat) --> Raw): (m: Dbm)
    requires n >= 1
    requires forall i: nat, j: nat :: i < n && j < n ==> f.requires(i, j)
    ensures |m| == n && forall i: nat, j: nat :: i < n && j < n ==> m[i][j] == f(i, j)
  {
    seq(n, i requires 0 <= i < n => seq(n, j requires 0 <= j < n => f(i, j)))
  }

  lemma SameEntries(m: Dbm, m': Dbm)
    requires |m| == |m'|
    requires forall i, j {:trigger m[i][j]} :: 0 <= i < |m| && 0 <= j < |m| ==> m[i][j] == m'[i][j]
    ensures m == m'
  {
    forall i | 0 <= i < |m| ensures m[i] == m'[i] {
      assert forall j :: 0 <= j < |m| ==> m[i][j] == m'[i][j];
    }
  }

  function Set(m: Dbm, i: nat, j: nat, c: Raw): (m': Dbm)
    requires i < |m| && j < |m|
    ensures |m'| == |m| && m'[i][j] == c
    ensures forall x, y {:trigger m'[x][y]} :: 0 <= x < |m| && 0 <= y < |m| && !(x == i && y == j) ==> m'[x][y] == m[x][y]
  {
    m[i := m[i][j := c]]
  }

  // ----- One Floyd step -----

  function PivotEntry(m: Dbm, k: nat, i: nat, j: nat): Raw
    requires k < |m| && i < |m| && j < |m|
  {
    if i == k then m[i][j] else Min(m[i][j], Add(m[i][k], m[k][j]))
  }

  ghost predicate IsPivot(m: Dbm, k: nat, m': Dbm)
    requires k < |m|
  {
    |m'| == |m| &&
    forall i, j {:trigger m'[i][j]} :: 0 <= i < |m| && 0 <= j < |m| ==> m'[i][j] == PivotEntry(m, k, i, j)
  }

  /** Improve every bound by a detour through clock k; row k itself is left alone. */
  ghost function Pivot(m: Dbm, k: nat): (m': Dbm)
    requires k < |m|
    ensures IsPivot(m, k, m')
  {
    assert exists m': Dbm :: IsPivot(m, k, m') by {
      assert IsPivot(m, k, Build(|m|, (i, j) requires 0 <= i < |m| && 0 <= j < |m| => PivotEntry(m, k, i, j)));
    }
    var m': Dbm :| IsPivot(m, k, m'); m'
  }

  lemma PivotKeepsMeets(m: Dbm, k: nat, v: Valuation)
    requires k < |m|
    ensures Meets(v, m) <==> Meets(v, Pivot(m, k))
  {
    var m' := Pivot(m, k);
    if Meets(v, m) {
      forall i, j {:trigger m'[i][j]} | 0 <= i < |m| && 0 <= j < |m| ensures Sat(v[i] - v[j], m'[i][j]) {
        SatAdd(v[i] - v[k], v[k] - v[j], m[i][k], m[k][j]);
      }
    }
    if Meets(v, m') {
      forall i, j {:trigger m[i][j]} | 0 <= i < |m| && 0 <= j < |m| ensures Sat(v[i] - v[j], m[i][j]) {
        SatLe(v[i] - v[j], m'[i][j], m[i][j]);
      }
    }
  }

  /** The arithmetic of one step: detours through p stay useless after a step on k. */
  lemma PivotTriangle(ij: Raw, ik: Raw, kj: Raw, ip: Raw, pj: Raw, kp: Raw, pk: Raw)
    requires Le(ij, Add(ip, pj)) && Le(kj, Add(kp, pj)) && Le(ik, Add(ip, pk)) && Le(LE_ZERO, Add(kp, pk))
    ensures Le(Min(ij, Add(ik, kj)), Add(Min(ip, Add(ik, kp)), Min(pj, Add(pk, kj))))
  {
  }

  /** After the step no bound is improved by k, and a clock that already gave no improvement
      still gives none.  Every closing routine below is this fact and nothing more. */
  lemma PivotThrough(m: Dbm, k: nat, p: nat)
    requires k < |m| && p < |m| && m[k][k] == LE_ZERO
    requires p == k || Through(m, p)
    ensures Through(Pivot(m, k), p)
  {
    var m' := Pivot(m, k);
    forall i, j {:trigger m'[i][j]} | 0 <= i < |m| && 0 <= j < |m|
      ensures Le(m'[i][j], Add(m'[i][p], m'[p][j]))
    {
      if p != k {
        PivotTriangle(m[i][j], m[i][k], m[k][j], m[i][p], m[p][j], m[k][p], m[p][k]);
      }
    }
  }

  /** The Floyd steps of the first k clocks that are in T, in increasing order. */
  ghost function CloseOver(m: Dbm, T: set<int>, k: nat): (m': Dbm)
    requires k <= |m|
    ensures |m'| == |m|
  {
    if k == 0 then m
    else
      var rest := CloseOver(m, T, k - 1);
      if k - 1 in T then Pivot(rest, k - 1) else rest
  }

  /** Full closing. */
  ghost function Closed(m: Dbm): (m': Dbm)
    ensures |m'| == |m|
  {
    CloseOver(m, Prefix(|m|), |m|)
  }

  lemma {:induction false} CloseOverKeepsMeets(m: Dbm, T: set<int>, k: nat, v: Valuation)
    requires k <= |m|
    ensures Meets(v, m) <==> Meets(v, CloseOver(m, T, k))
  {
    if k == 0 {
    } else {
      var before := CloseOver(m, T, k - 1);
      CloseOverKeepsMeets(m, T, k - 1, v);
      PivotKeepsMeets(before, k - 1, v);
      assert CloseOver(m, T, k) == if k - 1 in T then Pivot(before, k - 1) else before;
    }
  }

  /** Entries only get tighter. */
  lemma {:induction false} CloseOverTightens(m: Dbm, T: set<int>, k: nat, i: nat, j: nat)
    requires k <= |m| && i < |m| && j < |m|
    ensures Le(CloseOver(m, T, k)[i][j], m[i][j])
  {
    if k != 0 {
      CloseOverTightens(m, T, k - 1, i, j);
    }
  }

  /** A diagonal entry below zero shows that no valuation meets the bounds. */
  lemma NegativeDiagonalIsEmpty(m: Dbm, i: nat, v: Valuation)
    requires i < |m| && Lt(m[i][i], LE_ZERO)
    ensures !Meets(v, m)
  {
    if Meets(v, m) {
      MeetsAt(v, m, i, i);
    }
  }

  /** The clocks outside T give no improvement. */
  ghost predicate ThroughOutside(m: Dbm, T: set<int>) {
    forall p {:trigger Through(m, p)} :: 0 <= p < |m| && p !in T ==> Through(m, p)
  }

  /** Every matrix on the way had a zero diagonal. */
  ghost predicate ZeroSoFar(m: Dbm, T: set<int>, k: nat)
    requires k <= |m|
  {
    forall i: nat {:trigger CloseOver(m, T, i)} :: i <= k ==> ZeroDiagonal(CloseOver(m, T, i))
  }

  lemma CloseOverNothing(m: Dbm, T: set<int>, k: nat)
    requires k == 0
    ensures CloseOver(m, T, k) == m
  {
  }

  lemma CloseOverStep(m: Dbm, T: set<int>, k: nat)
    requires k < |m|
    ensures CloseOver(m, T, k + 1) == if k in T then Pivot(CloseOver(m, T, k), k) else CloseOver(m, T, k)
  {
  }

  /** The invariant of partial closing: when the clocks outside T give no improvement to begin
      with, closing over T alone leaves every clock giving none.  Either the diagonal dips
      below zero on the way or the result is canonical. */
  lemma {:induction false} CloseOverThrough(m: Dbm, T: set<int>, k: nat, p: nat)
    requires k <= |m| && p < |m| && ZeroSoFar(m, T, k)
    requires ThroughOutside(m, T)
    requires p !in T || p < k
    ensures Through(CloseOver(m, T, k), p)
  {
    if k == 0 {
      ThroughStart(m, T, k, p);
    } else {
      if p !in T || p < k - 1 {
        CloseOverThrough(m, T, k - 1, p);
      }
      var before := CloseOver(m, T, k - 1);
      ZeroAt(m, T, k, k - 1, before);
      ThroughStep(m, T, k - 1, p, before, CloseOver(m, T, k));
    }
  }

  lemma ThroughStart(m: Dbm, T: set<int>, k: nat, p: nat)
    requires k == 0 && p < |m| && Through(m, p)
    ensures Through(CloseOver(m, T, k), p)
  {
    CloseOverNothing(m, T, k);
  }

  lemma ZeroAt(m: Dbm, T: set<int>, k: nat, i: nat, d: Dbm)
    requires i <= k <= |m| && ZeroSoFar(m, T, k) && d == CloseOver(m, T, i)
    ensures ZeroDiagonal(d)
  {
  }

  lemma ThroughStep(m: Dbm, T: set<int>, k: nat, p: nat, before: Dbm, after: Dbm)
    requires k < |m| == |before| == |after| && p < |m| && before == CloseOver(m, T, k) && after == CloseOver(m, T, k + 1)
    requires ZeroDiagonal(before) && ((p == k && k in T) || Through(before, p))
    ensures Through(after, p)
  {
    CloseOverStep(m, T, k);
    if k in T {
      PivotThrough(before, k, p);
    }
  }

  lemma CloseOverCanonical(m: Dbm, T: set<int>)
    requires ZeroSoFar(m, T, |m|) && ThroughOutside(m, T)
    ensures Canonical(CloseOver(m, T, |m|))
  {
    forall p | 0 <= p < |m| ensures Through(CloseOver(m, T, |m|), p) {
      CloseOverThrough(m, T, |m|, p);
    }
  }

  // ----- Tightening one entry of a closed matrix -----

  function TightenedEntry(m: Dbm, b: nat, a: nat, c: Raw, i: nat, j: nat): Raw
    requires b < |m| && a < |m| && i < |m| && j < |m|
  {
    Min(m[i][j], Add(Add(m[i][b], c), m[a][j]))
  }

  ghost predicate IsTightened(m: Dbm, b: nat, a: nat, c: Raw, m': Dbm)
    requires b < |m| && a < |m|
  {
    |m'| == |m| &&
    forall i, j {:trigger m'[i][j]} :: 0 <= i < |m| && 0 <= j < |m| ==> m'[i][j] == TightenedEntry(m, b, a, c, i, j)
  }

  /** Closing after entry (b, a) of a canonical matrix is tightened to c: the only new
      detours are the ones that use the tightened entry, once. */
  ghost function Tightened(m: Dbm, b: nat, a: nat, c: Raw): (m': Dbm)
    requires b < |m| && a < |m|
    ensures IsTightened(m, b, a, c, m')
  {
    assert exists m': Dbm :: IsTightened(m, b, a, c, m') by {
      assert IsTightened(m, b, a, c,
        Build(|m|, (i, j) requires 0 <= i < |m| && 0 <= j < |m| => TightenedEntry(m, b, a, c, i, j)));
    }
    var m': Dbm :| IsTightened(m, b, a, c, m'); m'
  }

  /** dbm_tighten's precondition: c is a tightening, and not too much of one. */
  predicate CanTighten(m: Dbm, b: nat, a: nat, c: Raw)
    requires b < |m| && a < |m|
  {
    c.Bound? && b != a && Lt(c, m[b][a]) && Lt(Neg(c), m[a][b])
  }

  /** The arithmetic of tightening: detours through p stay useless. */
  lemma TightenedTriangle(c: Raw, ij: Raw, ib: Raw, aj: Raw, ip: Raw, pj: Raw, ap: Raw, pb: Raw, ab: Raw)
    requires Le(LE_ZERO, Add(c, ab))
    requires Le(ij, Add(ip, pj)) && Le(aj, Add(ap, pj)) && Le(ib, Add(ip, pb)) && Le(ab, Add(ap, pb))
    ensures Le(Min(ij, Add(Add(ib, c), aj)), Add(Min(ip, Add(Add(ib, c), ap)), Min(pj, Add(Add(pb, c), aj))))
  {
    if ip.Bound? && pj.Bound? && ib.Bound? && pb.Bound? && ap.Bound? && aj.Bound? && c.Bound? {
      assert Le(LE_ZERO, Add(c, Add(ap, pb)));
    }
  }

  lemma TightenedThrough(m: Dbm, b: nat, a: nat, c: Raw, p: nat)
    requires Canonical(m) && b < |m| && a < |m| && CanTighten(m, b, a, c) && p < |m|
    ensures Through(Tightened(m, b, a, c), p)
  {
    var m' := Tightened(m, b, a, c);
    forall i, j {:trigger m'[i][j]} | 0 <= i < |m| && 0 <= j < |m|
      ensures Le(m'[i][j], Add(m'[i][p], m'[p][j]))
    {
      Triangle(m, i, p, j);
      Triangle(m, a, p, j);
      Triangle(m, i, p, b);
      Triangle(m, a, p, b);
      TightenedTriangle(c, m[i][j], m[i][b], m[a][j], m[i][p], m[p][j], m[a][p], m[p][b], m[a][b]);
    }
  }

  lemma TightenedCanonical(m: Dbm, b: nat, a: nat, c: Raw)
    requires Canonical(m) && b < |m| && a < |m| && CanTighten(m, b, a, c)
    ensures Canonical(Tightened(m, b, a, c))
  {
    var m' := Tightened(m, b, a, c);
    forall i | 0 <= i < |m| ensures m'[i][i] == LE_ZERO {
      Triangle(m, a, i, b);
      assert m[i][i] == LE_ZERO && Le(LE_ZERO, Add(c, m[a][b]));
    }
    forall p | 0 <= p < |m| ensures Through(m', p) {
      TightenedThrough(m, b, a, c, p);
    }
  }

  /** Tightening entry (b, a) to c cuts the zone with the constraint xb - xa <= c. */
  lemma TightenedMeets(m: Dbm, b: nat, a: nat, c: Raw, v: Valuation)
    requires Canonical(m) && b < |m| && a < |m| && Lt(c, m[b][a])
    ensures Meets(v, Tightened(m, b, a, c)) <==> Meets(v, m) && Sat(v[b] - v[a], c)
  {
    var m' := Tightened(m, b, a, c);
    if Meets(v, m') {
      forall i, j {:trigger m[i][j]} | 0 <= i < |m| && 0 <= j < |m| ensures Sat(v[i] - v[j], m[i][j]) {
        SatLe(v[i] - v[j], m'[i][j], m[i][j]);
      }
      assert m[b][b] == LE_ZERO && m[a][a] == LE_ZERO;
      SatLe(v[b] - v[a], m'[b][a], c);
    }
    if Meets(v, m) && Sat(v[b] - v[a], c) {
      forall i, j {:trigger m'[i][j]} | 0 <= i < |m| && 0 <= j < |m| ensures Sat(v[i] - v[j], m'[i][j]) {
        SatAdd(v[i] - v[b], v[b] - v[a], m[i][b], c);
        SatAdd(v[i] - v[a], v[a] - v[j], Add(m[i][b], c), m[a][j]);
      }
    }
  }

  // ----- Tightness and uniqueness of canonical matrices -----

  /** Every bound of a canonical matrix is attained: a strictly tighter one is violated somewhere in the zone. */
  lemma Tight(m: Dbm, i: nat, j: nat, r: Raw) returns (v: Valuation)
    requires Canonical(m) && i < |m| && j < |m| && Lt(r, m[i][j])
    ensures InZone(v, m) && !Sat(v[i] - v[j], r)
  {
    if i == j {
      v := CanonicalHasPoint(m);
      assert m[i][i] == LE_ZERO;
      if r.value < 0 {
        assert r.value as real < 0.0;
      }
    } else if Le(m[j][i], Neg(r)) {
      v := CanonicalHasPoint(m);
      SatLe(v[j] - v[i], m[j][i], Neg(r));
      NegComplements(v[i] - v[j], r);
    } else {
      assert Neg(Neg(r)) == r;
      TightenedCanonical(m, j, i, Neg(r));
      v := CanonicalHasPoint(Tightened(m, j, i, Neg(r)));
      TightenedMeets(m, j, i, Neg(r), v);
      NegComplements(v[i] - v[j], r);
    }
  }

  /** One zone lies in another exactly when its canonical matrix is below, entry by entry. */
  lemma InclusionIsEntrywise(m: Dbm, m': Dbm)
    requires Canonical(m) && |m| == |m'|
    ensures (forall v: Valuation :: InZone(v, m) ==> InZone(v, m'))
       <==> (forall i, j {:trigger m[i][j]} :: 0 <= i < |m| && 0 <= j < |m| ==> Le(m[i][j], m'[i][j]))
  {
    if forall i, j {:trigger m[i][j]} :: 0 <= i < |m| && 0 <= j < |m| ==> Le(m[i][j], m'[i][j]) {
      forall v: Valuation | InZone(v, m) ensures InZone(v, m') {
        forall i, j {:trigger m'[i][j]} | 0 <= i < |m| && 0 <= j < |m| ensures Sat(v[i] - v[j], m'[i][j]) {
          SatLe(v[i] - v[j], m[i][j], m'[i][j]);
        }
      }
    } else {
      var i, j :| 0 <= i < |m| && 0 <= j < |m| && !Le(m[i][j], m'[i][j]);
      var v := Tight(m, i, j, m'[i][j]);
      assert InZone(v, m) && !InZone(v, m');
    }
  }

  /** A zone has one canonical matrix. */
  lemma CanonicalUnique(m: Dbm, m': Dbm)
    requires Canonical(m) && Canonical(m') && SameZone(m, m')
    ensures m == m'
  {
    InclusionIsEntrywise(m, m');
    InclusionIsEntrywise(m', m);
    forall i, j {:trigger m[i][j]} | 0 <= i < |m| && 0 <= j < |m| ensures m[i][j] == m'[i][j] {
      assert Le(m[i][j], m'[i][j]) && Le(m'[i][j], m[i][j]);
    }
    SameEntries(m, m');
  }

  /** Closing a canonical matrix changes nothing. */
  lemma {:induction false} ClosedFixesCanonical(m: Dbm, k: nat)
    requires Canonical(m) && k <= |m|
    ensures CloseOver(m, Prefix(|m|), k) == m
  {
    if k != 0 {
      ClosedFixesCanonical(m, k - 1);
      forall i, j {:trigger m[i][j]} | 0 <= i < |m| && 0 <= j < |m|
        ensures Pivot(m, k - 1)[i][j] == m[i][j]
      {
        Triangle(m, i, k - 1, j);
      }
      SameEntries(Pivot(m, k - 1), m);
    }
  }
}
