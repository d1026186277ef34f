/** Making bounds weak or strict (src/dbm.c): dbm_relaxDownClock and dbm_relaxUpClock weaken the bounds on one side of
    a clock but for those that other strict bounds imply, and leave the matrix closed without closing it; relaxing all
    bounds gives the topological closure; dbm_tightenDown and dbm_tightenUp make lower or upper bounds strict. */
module Relaxing {
  import opened Bounds
  import opened Zones
  import opened Closing
  import opened Constraining
  import opened Images
  import Closure

  /** dbm_weakRaw; infinity stays strict. */
  function Weak(r: Raw): Raw {
    match r
    case Inf => Inf
    case Bound(value, _) => Bound(value, true)
  }

  /** The strict bound (i, k) stays: it is implied by (i, j), which is strict, and (j, k), even if that is weakened. */
  ghost predicate HeldBy(m: Dbm, i: nat, k: nat, j: nat)
    requires i < |m| && k < |m| && j < |m|
  {
    j != k && m[i][j].Bound? && m[j][k].Bound? && Lt(Add(m[i][j], Weak(m[j][k])), Weak(m[i][k]))
  }

  ghost predicate Held(m: Dbm, i: nat, k: nat)
    requires i < |m| && k < |m|
  {
    exists j: nat :: j < |m| && HeldBy(m, i, k, j)
  }

  ghost predicate IsRelaxDown(m: Dbm, k: nat, m': Dbm)
    requires k < |m|
  {
    |m'| == |m| && forall i, j {:trigger m'[i][j]} :: 0 <= i < |m| && 0 <= j < |m| ==>
      m'[i][j] == if j == k && !Held(m, i, k) then Weak(m[i][k]) else m[i][j]
  }

  /** In a closed matrix a held bound is exactly the sum, and it is strict because (i, j) is. */
  lemma HeldIsSum(m: Dbm, i: nat, k: nat, j: nat)
    requires Canonical(m) && i < |m| && k < |m| && j < |m| && HeldBy(m, i, k, j)
    ensures m[i][k].Bound? && !m[i][j].weak && m[i][k].value == m[i][j].value + m[j][k].value && !m[i][k].weak
  {
    Triangle(m, i, j, k);
  }

  // ----- The result is closed -----

  /** What holds (p, k) also holds (i, k), when (i, k) is the sum of (i, p) and (p, k). */
  lemma HeldFurther(m: Dbm, i: nat, p: nat, k: nat)
    requires Canonical(m) && i < |m| && p < |m| && k < |m| && Held(m, p, k)
    requires m[i][p].Bound? && m[p][k].Bound? && m[i][k].Bound? && m[i][k].value == m[i][p].value + m[p][k].value
    ensures Held(m, i, k)
  {
    var j: nat :| j < |m| && HeldBy(m, p, k, j);
    HeldIsSum(m, p, k, j);
    Triangle(m, i, p, j);
    Triangle(m, i, j, k);
    assert HeldBy(m, i, k, j);
  }

  lemma RelaxedColumn(m: Dbm, k: nat, m': Dbm, i: nat, p: nat)
    requires Canonical(m) && k < |m| && IsRelaxDown(m, k, m') && i < |m| && p < |m| && p != k
    ensures Le(m'[i][k], Add(m'[i][p], m'[p][k]))
  {
    Triangle(m, i, p, k);
    assert m'[i][p] == m[i][p];
    if m[i][p].Bound? && m[p][k].Bound? && m[i][k].value == m[i][p].value + m[p][k].value && !Held(m, i, k) {
      if Held(m, p, k) {
        HeldFurther(m, i, p, k);
      }
      assert !HeldBy(m, i, k, p);
    }
  }

  lemma RelaxDownStaysCanonical(m: Dbm, k: nat, m': Dbm)
    requires Canonical(m) && k < |m| && IsRelaxDown(m, k, m')
    ensures Canonical(m')
  {
    assert m[k][k] == LE_ZERO;
    forall i | 0 <= i < |m| ensures m'[i][i] == LE_ZERO {
      assert m[i][i] == LE_ZERO;
    }
    forall p | 0 <= p < |m| ensures Through(m', p) {
      forall i, j {:trigger m'[i][j]} | 0 <= i < |m| && 0 <= j < |m| ensures Le(m'[i][j], Add(m'[i][p], m'[p][j])) {
        if j == k && p != k {
          RelaxedColumn(m, k, m', i, p);
        } else {
          Triangle(m, i, p, j);
          assert m'[p][p] == LE_ZERO;
          AddMonotone(m[i][p], m'[i][p], m[p][j], m'[p][j]);
        }
      }
    }
  }

  // ----- What it means -----

  /** Moving clock k up, however little, leads into the zone. */
  ghost predicate JustBelow(v: Valuation, m: Dbm, k: nat) {
    k < |v| && exists e: real :: e > 0.0 && MeetsUpTo(v, m, k, e)
  }

  /** Clock k moved up by t. */
  function Raised(v: Valuation, k: nat, t: real): (w: Valuation)
    requires k < |v|
    ensures |w| == |v| && w[k] == v[k] + t && forall i :: 0 <= i < |v| && i != k ==> w[i] == v[i]
  {
    v[k := v[k] + t]
  }

  ghost predicate MeetsUpTo(v: Valuation, m: Dbm, k: nat, e: real)
    requires k < |v|
  {
    forall t: real {:trigger Raised(v, k, t)} :: 0.0 < t <= e ==> Meets(Raised(v, k, t), m)
  }

  /** A bound that holds after every small step up holds weakly before it. */
  lemma LimitIsWeak(v: Valuation, m: Dbm, k: nat, e: real, i: nat)
    requires |v| == |m| && k < |m| && i < |m| && e > 0.0 && MeetsUpTo(v, m, k, e)
    ensures Sat(v[i] - v[k], Weak(m[i][k]))
  {
    if i != k && m[i][k].Bound? && v[i] - v[k] > m[i][k].value as real {
      var gap := v[i] - v[k] - m[i][k].value as real;
      var t := if gap < e then gap / 2.0 else e / 2.0;
      MeetsAt(Raised(v, k, t), m, i, k);
    }
    if i == k {
      MeetsAt(Raised(v, k, e), m, k, k);
    }
  }

  lemma JustBelowIsRelaxed(m: Dbm, k: nat, m': Dbm, v: Valuation)
    requires Canonical(m) && k < |m| && IsRelaxDown(m, k, m') && |v| == |m| && JustBelow(v, m, k)
    ensures Meets(v, m')
  {
    var e: real :| e > 0.0 && MeetsUpTo(v, m, k, e);
    var w := Raised(v, k, e);
    forall i, j {:trigger m'[i][j]} | 0 <= i < |m| && 0 <= j < |m| ensures Sat(v[i] - v[j], m'[i][j]) {
      if j != k {
        MeetsAt(w, m, i, j);
      } else {
        LimitIsWeak(v, m, k, e, i);
        if Held(m, i, k) {
          var p: nat :| p < |m| && HeldBy(m, i, k, p);
          HeldIsSum(m, i, k, p);
          LimitIsWeak(v, m, k, e, p);
          MeetsAt(w, m, i, p);
        }
      }
    }
  }

  /** How far clock k may move up before one of the first n bounds on it from above is reached. */
  lemma {:induction false} RoomAbove(m: Dbm, k: nat, v: Valuation, n: nat) returns (e: real)
    requires |v| == |m| && k < |m| && n <= |m|
    requires forall j :: 0 <= j < n && j != k && m[k][j].Bound? ==> v[k] - v[j] < m[k][j].value as real
    ensures e > 0.0 && forall j :: 0 <= j < n && j != k && m[k][j].Bound? ==> v[k] + e - v[j] < m[k][j].value as real
  {
    if n == 0 {
      e := 1.0;
    } else {
      e := RoomAbove(m, k, v, n - 1);
      if n - 1 != k && m[k][n - 1].Bound? {
        var room := (m[k][n - 1].value as real - (v[k] - v[n - 1])) / 2.0;
        e := if room < e then room else e;
      }
    }
  }

  /** On a bound (i, k) that was weakened, nothing from above is reached: (i, j) would be violated. */
  lemma NothingAbove(m: Dbm, k: nat, m': Dbm, v: Valuation, i: nat, j: nat)
    requires Canonical(m) && k < |m| && IsRelaxDown(m, k, m') && Meets(v, m') && i < |m| && j < |m| && j != k
    requires m[i][k].Bound? && !Sat(v[i] - v[k], m[i][k]) && m[k][j].Bound?
    ensures v[k] - v[j] < m[k][j].value as real
  {
    MeetsAt(v, m', i, k);
    MeetsAt(v, m', i, j);
    Triangle(m, i, k, j);
    SatLe(v[i] - v[j], m[i][j], Add(m[i][k], m[k][j]));
  }

  lemma RaisedMeets(m: Dbm, k: nat, m': Dbm, v: Valuation, e: real, t: real)
    requires Canonical(m) && k < |m| && IsRelaxDown(m, k, m') && Meets(v, m') && 0.0 < t <= e
    requires forall j :: 0 <= j < |m| && j != k && m[k][j].Bound? ==> v[k] + e - v[j] < m[k][j].value as real
    ensures Meets(Raised(v, k, t), m)
  {
    var w := Raised(v, k, t);
    assert m[k][k] == LE_ZERO;
    forall i, j {:trigger m[i][j]} | 0 <= i < |m| && 0 <= j < |m| ensures Sat(w[i] - w[j], m[i][j]) {
      MeetsAt(v, m', i, j);
    }
  }

  lemma RelaxedIsJustBelow(m: Dbm, k: nat, m': Dbm, v: Valuation, i0: nat)
    requires Canonical(m) && k < |m| && IsRelaxDown(m, k, m') && Meets(v, m') && i0 < |m|
    requires !Sat(v[i0] - v[k], m[i0][k])
    ensures JustBelow(v, m, k)
  {
    forall j | 0 <= j < |m| && j != k && m[k][j].Bound? ensures v[k] - v[j] < m[k][j].value as real {
      NothingAbove(m, k, m', v, i0, j);
    }
    var e := RoomAbove(m, k, v, |m|);
    forall t: real {:trigger Raised(v, k, t)} | 0.0 < t <= e ensures Meets(Raised(v, k, t), m) {
      RaisedMeets(m, k, m', v, e, t);
    }
    assert MeetsUpTo(v, m, k, e);
  }

  /** The relaxed matrix adds exactly the points from which clock k only has to move up a little. */
  lemma RelaxDownIsExact(m: Dbm, k: nat, m': Dbm, v: Valuation)
    requires Canonical(m) && k < |m| && IsRelaxDown(m, k, m') && |v| == |m|
    ensures Meets(v, m') <==> Meets(v, m) || JustBelow(v, m, k)
  {
    if JustBelow(v, m, k) {
      JustBelowIsRelaxed(m, k, m', v);
    }
    if Meets(v, m) {
      forall i, j {:trigger m'[i][j]} | 0 <= i < |m| && 0 <= j < |m| ensures Sat(v[i] - v[j], m'[i][j]) {
        MeetsAt(v, m, i, j);
      }
    }
    if Meets(v, m') && !Meets(v, m) {
      var i, j :| 0 <= i < |m| && 0 <= j < |m| && !Sat(v[i] - v[j], m[i][j]);
      MeetsAt(v, m', i, j);
      RelaxedIsJustBelow(m, k, m', v, i);
    }
  }

  // ----- dbm_relaxDownClock -----

  /** The entries (x, k) for x below i are dealt with. */
  ghost predicate RelaxedTo(m: Dbm, k: nat, c: Dbm, i: nat)
    requires k < |m|
  {
    |c| == |m| && forall x, y {:trigger c[x][y]} :: 0 <= x < |m| && 0 <= y < |m| ==>
      c[x][y] == if y == k && x < i && !Held(m, x, k) then Weak(m[x][k]) else m[x][y]
  }

  /** Weaken one entry, and tighten it back when another strict bound implies it. */
  method RelaxEntry(a: array2<Raw>, k: nat, i: nat, ghost m: Dbm)
    requires IsSquare(a) && Canonical(m) && k < |m| && i < |m| && RelaxedTo(m, k, Mat(a), i)
    modifies a
    ensures RelaxedTo(m, k, Mat(a), i + 1)
  {
    ghost var c := Mat(a);
    assert a[i, k] == c[i][k] == m[i][k] && m[k][k] == LE_ZERO;
    if a[i, k] != Inf && !a[i, k].weak {
      a[i, k] := Weak(a[i, k]);
      var j := 0;
      while j < a.Length0
        invariant 0 <= j <= a.Length0 && forall x: nat {:trigger HeldBy(m, i, k, x)} :: x < j ==> !HeldBy(m, i, k, x)
        invariant forall x, y {:trigger a[x, y]} :: 0 <= x < |m| && 0 <= y < |m| ==> a[x, y] == if x == i && y == k then Weak(m[i][k]) else c[x][y]
      {
        if a[i, j] != Inf && a[j, k] != Inf {
          WeakEntry(m, k, c, i, j);
          var cik := Add(a[i, j], Weak(a[j, k]));
          if Lt(cik, a[i, k]) {
            assert HeldBy(m, i, k, j);
            HeldIsSum(m, i, k, j);
            a[i, k] := cik;
            return;
          }
        }
        j := j + 1;
      }
    }
  }

  /** What the loop reads is not affected by the entries that were weakened before. */
  lemma WeakEntry(m: Dbm, k: nat, c: Dbm, i: nat, j: nat)
    requires k < |m| && i < |m| && j < |m| && RelaxedTo(m, k, c, i)
    ensures Weak(c[j][k]) == Weak(m[j][k]) && (j != k ==> c[i][j] == m[i][j])
  {
  }

  /** dbm_relaxDownClock */
  method RelaxDownClock(a: array2<Raw>, k: nat)
    requires IsSquare(a) && Valid(Mat(a)) && k < a.Length0
    modifies a
    ensures IsRelaxDown(old(Mat(a)), k, Mat(a)) && Valid(Mat(a))
    ensures forall v: Valuation | |v| == a.Length0 :: Meets(v, Mat(a)) <==> Meets(v, old(Mat(a))) || JustBelow(v, old(Mat(a)), k)
  {
    ghost var m := Mat(a);
    var i := 0;
    while i < a.Length0
      invariant 0 <= i <= a.Length0 && RelaxedTo(m, k, Mat(a), i)
    {
      RelaxEntry(a, k, i, m);
      i := i + 1;
    }
    RelaxedDown(m, k, Mat(a));
  }

  lemma RelaxedDown(m: Dbm, k: nat, m': Dbm)
    requires Valid(m) && k < |m| && IsRelaxDown(m, k, m')
    ensures Valid(m')
    ensures forall v: Valuation | |v| == |m| :: Meets(v, m') <==> Meets(v, m) || JustBelow(v, m, k)
  {
    RelaxDownStaysCanonical(m, k, m');
    forall j | 0 <= j < |m| ensures Le(m'[0][j], LE_ZERO) {
      assert Le(m[0][j], LE_ZERO);
    }
    forall v: Valuation | |v| == |m| ensures Meets(v, m') <==> Meets(v, m) || JustBelow(v, m, k) {
      RelaxDownIsExact(m, k, m', v);
    }
  }

  /** dbm_relaxUp is dbm_relaxDownClock of the reference clock: the points that were in the zone just before. */
  lemma RelaxUpAddsLimits(m: Dbm, m': Dbm, v: Valuation)
    requires Canonical(m) && IsRelaxDown(m, 0, m') && |v| == |m| && v[0] == 0.0
    ensures InZone(v, m') <==> InZone(v, m) || exists e: real :: e > 0.0 && WasInZone(v, m, e)
  {
    var k := 0;
    RelaxDownIsExact(m, k, m', v);
    forall t: real ensures Meets(Raised(v, k, t), m) <==> InZone(Delay(v, -t), m) {
      MovedReference(m, v, t);
    }
    forall e: real ensures MeetsUpTo(v, m, k, e) <==> WasInZone(v, m, e) {
      if WasInZone(v, m, e) {
        forall t: real {:trigger Raised(v, k, t)} | 0.0 < t <= e ensures Meets(Raised(v, k, t), m) {
          assert InZone(Delay(v, -t), m);
        }
      }
      if MeetsUpTo(v, m, k, e) {
        forall t: real {:trigger Delay(v, -t)} | 0.0 < t <= e ensures InZone(Delay(v, -t), m) {
          assert Meets(Raised(v, k, t), m);
        }
      }
    }
  }

  ghost predicate WasInZone(v: Valuation, m: Dbm, e: real) {
    forall t: real {:trigger Delay(v, -t)} :: 0.0 < t <= e ==> InZone(Delay(v, -t), m)
  }

  // ----- dbm_relaxUpClock -----

  /** Rows for columns. */
  ghost function Transposed(m: Dbm): (t: Dbm)
    ensures |t| == |m| && forall i, j {:trigger t[i][j]} :: 0 <= i < |m| && 0 <= j < |m| ==> t[i][j] == m[j][i]
  {
    Closure.Build(|m|, (i: nat, j: nat) requires i < |m| && j < |m| => m[j][i])
  }

  /** Clocks that run backwards. */
  function Mirrored(v: Valuation): (w: Valuation)
    ensures |w| == |v| && forall i {:trigger w[i]} :: 0 <= i < |v| ==> w[i] == -v[i]
  {
    seq(|v|, i requires 0 <= i < |v| => -v[i])
  }

  lemma MirrorMeets(m: Dbm, v: Valuation)
    requires |v| == |m|
    ensures Meets(v, m) <==> Meets(Mirrored(v), Transposed(m))
  {
    var t, w := Transposed(m), Mirrored(v);
    if Meets(v, m) {
      forall i, j {:trigger t[i][j]} | 0 <= i < |m| && 0 <= j < |m| ensures Sat(w[i] - w[j], t[i][j]) {
        MeetsAt(v, m, j, i);
      }
    }
    if Meets(w, t) {
      forall i, j {:trigger m[i][j]} | 0 <= i < |m| && 0 <= j < |m| ensures Sat(v[i] - v[j], m[i][j]) {
        MeetsAt(w, t, j, i);
        assert t[j][i] == m[i][j];
      }
    }
  }

  lemma TransposedCanonical(m: Dbm)
    requires Canonical(m)
    ensures Canonical(Transposed(m))
  {
    var t := Transposed(m);
    forall i | 0 <= i < |m| ensures t[i][i] == LE_ZERO {
      assert m[i][i] == LE_ZERO;
    }
    forall p | 0 <= p < |m| ensures Through(t, p) {
      TransposedThrough(m, t, p);
    }
  }

  lemma TransposedThrough(m: Dbm, t: Dbm, p: nat)
    requires Canonical(m) && t == Transposed(m) && p < |m|
    ensures Through(t, p)
  {
    forall i, j {:trigger t[i][j]} | 0 <= i < |m| && 0 <= j < |m| ensures Le(t[i][j], Add(t[i][p], t[p][j])) {
      TransposedTriangle(m, t, i, p, j);
    }
  }

  lemma TransposedTriangle(m: Dbm, t: Dbm, i: nat, p: nat, j: nat)
    requires Canonical(m) && t == Transposed(m) && i < |m| && p < |m| && j < |m|
    ensures Le(t[i][j], Add(t[i][p], t[p][j]))
  {
    Triangle(m, j, p, i);
  }

  lemma TransposedTwice(m: Dbm)
    ensures Transposed(Transposed(m)) == m
  {
    Closure.SameEntries(Transposed(Transposed(m)), m);
  }

  /** The strict bound (k, i) stays: it is implied by (j, i), which is strict, and (k, j). */
  ghost predicate HeldUpBy(m: Dbm, k: nat, i: nat, j: nat)
    requires i < |m| && k < |m| && j < |m|
  {
    j != k && m[j][i].Bound? && m[k][j].Bound? && Lt(Add(m[j][i], Weak(m[k][j])), Weak(m[k][i]))
  }

  ghost predicate HeldUp(m: Dbm, k: nat, i: nat)
    requires i < |m| && k < |m|
  {
    exists j: nat :: j < |m| && HeldUpBy(m, k, i, j)
  }

  ghost predicate IsRelaxUp(m: Dbm, k: nat, m': Dbm)
    requires k < |m|
  {
    |m'| == |m| && forall i, j {:trigger m'[i][j]} :: 0 <= i < |m| && 0 <= j < |m| ==>
      m'[i][j] == if i == k && !HeldUp(m, k, j) then Weak(m[k][j]) else m[i][j]
  }

  /** Relaxing a row is relaxing a column of the transposed matrix. */
  lemma HeldTransposed(m: Dbm, k: nat, i: nat)
    requires i < |m| && k < |m|
    ensures HeldUp(m, k, i) <==> Held(Transposed(m), i, k)
  {
    var t := Transposed(m);
    forall j: nat | j < |m| ensures HeldUpBy(m, k, i, j) <==> HeldBy(t, i, k, j) {
      assert t[i][j] == m[j][i] && t[j][k] == m[k][j] && t[i][k] == m[k][i];
    }
  }

  lemma RelaxUpTransposed(m: Dbm, k: nat, m': Dbm)
    requires k < |m| && IsRelaxUp(m, k, m')
    ensures IsRelaxDown(Transposed(m), k, Transposed(m'))
  {
    var t, t' := Transposed(m), Transposed(m');
    forall i, j {:trigger t'[i][j]} | 0 <= i < |m| && 0 <= j < |m|
      ensures t'[i][j] == if j == k && !Held(t, i, k) then Weak(t[i][k]) else t[i][j]
    {
      HeldTransposed(m, k, i);
      assert t'[i][j] == m'[j][i];
    }
  }

  /** Moving clock k down, however little, leads into the zone. */
  ghost predicate JustAbove(v: Valuation, m: Dbm, k: nat) {
    k < |v| && exists e: real :: e > 0.0 && MeetsDownTo(v, m, k, e)
  }

  ghost predicate MeetsDownTo(v: Valuation, m: Dbm, k: nat, e: real)
    requires k < |v|
  {
    forall t: real {:trigger Raised(v, k, -t)} :: 0.0 < t <= e ==> Meets(Raised(v, k, -t), m)
  }

  lemma MirrorBelow(v: Valuation, m: Dbm, k: nat, e: real)
    requires |v| == |m| && k < |m|
    ensures MeetsDownTo(v, m, k, e) <==> MeetsUpTo(Mirrored(v), Transposed(m), k, e)
  {
    forall t: real ensures Meets(Raised(v, k, -t), m) <==> Meets(Raised(Mirrored(v), k, t), Transposed(m)) {
      MirrorMeets(m, Raised(v, k, -t));
      assert Mirrored(Raised(v, k, -t)) == Raised(Mirrored(v), k, t);
    }
    if MeetsUpTo(Mirrored(v), Transposed(m), k, e) {
      forall t: real {:trigger Raised(v, k, -t)} | 0.0 < t <= e ensures Meets(Raised(v, k, -t), m) {
        assert Meets(Raised(Mirrored(v), k, t), Transposed(m));
      }
    }
    if MeetsDownTo(v, m, k, e) {
      forall t: real {:trigger Raised(Mirrored(v), k, t)} | 0.0 < t <= e ensures Meets(Raised(Mirrored(v), k, t), Transposed(m)) {
        assert Meets(Raised(v, k, -t), m);
      }
    }
  }

  /** The relaxed matrix adds exactly the points from which clock k only has to move down a little. */
  lemma RelaxUpIsExact(m: Dbm, k: nat, m': Dbm, v: Valuation)
    requires Canonical(m) && k < |m| && IsRelaxUp(m, k, m') && |v| == |m|
    ensures Meets(v, m') <==> Meets(v, m) || JustAbove(v, m, k)
  {
    TransposedCanonical(m);
    RelaxUpTransposed(m, k, m');
    RelaxDownIsExact(Transposed(m), k, Transposed(m'), Mirrored(v));
    MirrorMeets(m, v);
    MirrorMeets(m', v);
    forall e: real ensures MeetsDownTo(v, m, k, e) <==> MeetsUpTo(Mirrored(v), Transposed(m), k, e) {
      MirrorBelow(v, m, k, e);
    }
  }

  lemma RelaxedUp(m: Dbm, k: nat, m': Dbm)
    requires Valid(m) && k < |m| && IsRelaxUp(m, k, m')
    ensures Valid(m')
    ensures forall v: Valuation | |v| == |m| :: Meets(v, m') <==> Meets(v, m) || JustAbove(v, m, k)
  {
    TransposedCanonical(m);
    RelaxUpTransposed(m, k, m');
    RelaxDownStaysCanonical(Transposed(m), k, Transposed(m'));
    TransposedCanonical(Transposed(m'));
    TransposedTwice(m');
    forall j | 0 <= j < |m| ensures Le(m'[0][j], LE_ZERO) {
      assert Le(m[0][j], LE_ZERO);
    }
    forall v: Valuation | |v| == |m| ensures Meets(v, m') <==> Meets(v, m) || JustAbove(v, m, k) {
      RelaxUpIsExact(m, k, m', v);
    }
  }

  /** The entries (k, y) for y below i are dealt with. */
  ghost predicate RelaxedUpTo(m: Dbm, k: nat, c: Dbm, i: nat)
    requires k < |m|
  {
    |c| == |m| && forall x, y {:trigger c[x][y]} :: 0 <= x < |m| && 0 <= y < |m| ==>
      c[x][y] == if x == k && y < i && !HeldUp(m, k, y) then Weak(m[k][y]) else m[x][y]
  }

  lemma HeldUpIsSum(m: Dbm, k: nat, i: nat, j: nat)
    requires Canonical(m) && i < |m| && k < |m| && j < |m| && HeldUpBy(m, k, i, j)
    ensures m[k][i].Bound? && !m[j][i].weak && m[k][i].value == m[j][i].value + m[k][j].value && !m[k][i].weak
  {
    Triangle(m, k, j, i);
  }

  lemma WeakEntryUp(m: Dbm, k: nat, c: Dbm, i: nat, j: nat)
    requires k < |m| && i < |m| && j < |m| && RelaxedUpTo(m, k, c, i)
    ensures Weak(c[k][j]) == Weak(m[k][j]) && (j != k ==> c[j][i] == m[j][i])
  {
  }

  method RelaxUpEntry(a: array2<Raw>, k: nat, i: nat, ghost m: Dbm)
    requires IsSquare(a) && Canonical(m) && k < |m| && i < |m| && RelaxedUpTo(m, k, Mat(a), i)
    modifies a
    ensures RelaxedUpTo(m, k, Mat(a), i + 1)
  {
    ghost var c := Mat(a);
    assert a[k, i] == c[k][i] == m[k][i] && m[k][k] == LE_ZERO;
    if a[k, i] != Inf && !a[k, i].weak {
      a[k, i] := Weak(a[k, i]);
      var j := 0;
      while j < a.Length0
        invariant 0 <= j <= a.Length0 && forall x: nat {:trigger HeldUpBy(m, k, i, x)} :: x < j ==> !HeldUpBy(m, k, i, x)
        invariant forall x, y {:trigger a[x, y]} :: 0 <= x < |m| && 0 <= y < |m| ==> a[x, y] == if x == k && y == i then Weak(m[k][i]) else c[x][y]
      {
        if a[j, i] != Inf && a[k, j] != Inf {
          WeakEntryUp(m, k, c, i, j);
          var cki := Add(a[j, i], Weak(a[k, j]));
          if Lt(cki, a[k, i]) {
            assert HeldUpBy(m, k, i, j);
            HeldUpIsSum(m, k, i, j);
            a[k, i] := cki;
            return;
          }
        }
        j := j + 1;
      }
    }
  }

  /** dbm_relaxUpClock */
  method RelaxUpClock(a: array2<Raw>, k: nat)
    requires IsSquare(a) && Valid(Mat(a)) && k < a.Length0
    modifies a
    ensures IsRelaxUp(old(Mat(a)), k, Mat(a)) && Valid(Mat(a))
    ensures forall v: Valuation | |v| == a.Length0 :: Meets(v, Mat(a)) <==> Meets(v, old(Mat(a))) || JustAbove(v, old(Mat(a)), k)
  {
    ghost var m := Mat(a);
    var i := 0;
    while i < a.Length0
      invariant 0 <= i <= a.Length0 && RelaxedUpTo(m, k, Mat(a), i)
    {
      RelaxUpEntry(a, k, i, m);
      i := i + 1;
    }
    RelaxedUp(m, k, Mat(a));
  }

  // ----- dbm_relaxAll -----

  ghost predicate IsRelaxAll(m: Dbm, m': Dbm) {
    |m'| == |m| && forall i, j {:trigger m'[i][j]} :: 0 <= i < |m| && 0 <= j < |m| ==> m'[i][j] == Weak(m[i][j])
  }

  /** The point on the way from v to p, at 0 < x <= 1. */
  function Toward(v: Valuation, p: Valuation, x: real): (w: Valuation)
    requires |v| == |p|
    ensures |w| == |v| && forall i {:trigger w[i]} :: 0 <= i < |v| ==> w[i] == v[i] + x * (p[i] - v[i])
  {
    seq(|v|, i requires 0 <= i < |v| => v[i] + x * (p[i] - v[i]))
  }

  /** On the way to p every point but the first meets the bound, exactly when the first meets it weakly. */
  lemma WayMeetsBound(dv: real, dp: real, r: Raw, x: real)
    requires Sat(dp, r) && Sat(dv, Weak(r)) && 0.0 < x <= 1.0
    ensures Sat(dv + x * (dp - dv), r)
  {
    if r.Bound? {
      var c := r.value as real;
      var first := NotPositive(1.0 - x, dv - c);
      var second := NotPositive(x, dp - c);
      SplitWay(dv, dp, c, x, first, second);
    }
  }

  lemma SplitWay(dv: real, dp: real, c: real, x: real, first: real, second: real)
    requires first == (1.0 - x) * (dv - c) && second == x * (dp - c)
    ensures dv + x * (dp - dv) == c + first + second
  {
  }

  lemma NotPositive(a: real, b: real) returns (p: real)
    requires (a >= 0.0 && b <= 0.0) || (a <= 0.0 && b >= 0.0)
    ensures p == a * b <= 0.0 && (a != 0.0 && b != 0.0 ==> p < 0.0)
  {
    p := a * b;
  }

  /** A way of length d can be started so slowly that it does not cover the gap. */
  lemma PartOfWay(gap: real, d: real) returns (x: real)
    requires 0.0 < gap <= d
    ensures 0.0 < x <= 1.0 && x * d < gap
  {
    var twice := 2.0 * d;
    x := gap / twice;
    assert x * twice == gap;
    Fraction(gap, twice, x);
  }

  lemma Fraction(gap: real, d: real, x: real)
    requires 0.0 < gap <= d && x * d == gap
    ensures 0.0 < x <= 1.0
  {
    if x > 1.0 {
      var more := NotPositive(1.0 - x, d);
    } else if x <= 0.0 {
      var less := NotPositive(x, d);
    }
  }

  /** When the first point misses the weak bound, so does a point soon after it. */
  lemma WayMissesBound(dv: real, dp: real, r: Raw) returns (x: real)
    requires Sat(dp, r) && !Sat(dv, Weak(r))
    ensures 0.0 < x <= 1.0 && !Sat(dv + x * (dp - dv), r)
  {
    x := PartOfWay(dv - r.value as real, dv - dp);
    TurnRound(x, dv, dp);
  }

  lemma TurnRound(x: real, a: real, b: real)
    ensures x * (b - a) == -(x * (a - b))
  {
  }

  /** Relaxing all bounds gives the closure of the zone: the points from which the whole way to some point of the
      zone, but for its start, is in the zone. */
  lemma RelaxAllIsClosure(m: Dbm, m': Dbm, v: Valuation, p: Valuation)
    requires IsRelaxAll(m, m') && Meets(p, m) && |v| == |m|
    ensures Meets(v, m') <==> forall x: real {:trigger Toward(v, p, x)} :: 0.0 < x <= 1.0 ==> Meets(Toward(v, p, x), m)
  {
    if Meets(v, m') {
      forall x: real {:trigger Toward(v, p, x)} | 0.0 < x <= 1.0 ensures Meets(Toward(v, p, x), m) {
        WayIsInside(m, m', v, p, x);
      }
    } else {
      var i, j :| 0 <= i < |m| && 0 <= j < |m| && !Sat(v[i] - v[j], m'[i][j]);
      MeetsAt(p, m, i, j);
      var x := WayMissesBound(v[i] - v[j], p[i] - p[j], m[i][j]);
      WayDifference(v, p, x, i, j);
      assert !Meets(Toward(v, p, x), m) by {
        var w := Toward(v, p, x);
        assert !Sat(w[i] - w[j], m[i][j]);
      }
    }
  }

  lemma WayDifference(v: Valuation, p: Valuation, x: real, i: nat, j: nat)
    requires |v| == |p| && i < |v| && j < |v|
    ensures Toward(v, p, x)[i] - Toward(v, p, x)[j] == v[i] - v[j] + x * (p[i] - p[j] - (v[i] - v[j]))
  {
    Distribute(x, p[i] - v[i], p[j] - v[j]);
  }

  lemma Distribute(x: real, a: real, b: real)
    ensures x * a - x * b == x * (a - b)
  {
  }

  lemma WayIsInside(m: Dbm, m': Dbm, v: Valuation, p: Valuation, x: real)
    requires IsRelaxAll(m, m') && Meets(p, m) && Meets(v, m') && 0.0 < x <= 1.0
    ensures Meets(Toward(v, p, x), m)
  {
    var w := Toward(v, p, x);
    forall i, j {:trigger m[i][j]} | 0 <= i < |m| && 0 <= j < |m| ensures Sat(w[i] - w[j], m[i][j]) {
      MeetsAt(p, m, i, j);
      MeetsAt(v, m', i, j);
      WayDifference(v, p, x, i, j);
      WayMeetsBound(v[i] - v[j], p[i] - p[j], m[i][j], x);
    }
  }

  lemma StartsAtZero(v: Valuation, u: Valuation, x: real)
    requires |v| == |u| > 0 && v[0] == u[0] == 0.0
    ensures Toward(v, u, x)[0] == 0.0
  {
  }

  lemma RelaxAllContains(m: Dbm, m': Dbm, v: Valuation)
    requires IsRelaxAll(m, m') && Meets(v, m)
    ensures Meets(v, m')
  {
    forall i, j {:trigger m'[i][j]} | 0 <= i < |m| && 0 <= j < |m| ensures Sat(v[i] - v[j], m'[i][j]) {
      MeetsAt(v, m, i, j);
    }
  }

  lemma RelaxAllStaysValid(m: Dbm, m': Dbm)
    requires Valid(m) && IsRelaxAll(m, m')
    ensures Valid(m')
  {
    forall i | 0 <= i < |m| ensures m'[i][i] == LE_ZERO {
      assert m[i][i] == LE_ZERO;
    }
    forall p | 0 <= p < |m| ensures Through(m', p) {
      forall i, j {:trigger m'[i][j]} | 0 <= i < |m| && 0 <= j < |m| ensures Le(m'[i][j], Add(m'[i][p], m'[p][j])) {
        Triangle(m, i, p, j);
      }
    }
    forall j | 0 <= j < |m| ensures Le(m'[0][j], LE_ZERO) {
      assert Le(m[0][j], LE_ZERO);
    }
  }

  /** dbm_relaxAll; the entry on the diagonal that the loop leaves out is weak already. */
  method RelaxAll(a: array2<Raw>)
    requires IsSquare(a) && Valid(Mat(a))
    modifies a
    ensures IsRelaxAll(old(Mat(a)), Mat(a)) && Valid(Mat(a))
  {
    ghost var m := Mat(a);
    assert m[0][0] == LE_ZERO;
    var i, j := 0, 0;
    while i < a.Length0
      invariant 0 <= i <= a.Length0 && 0 <= j < a.Length0
      invariant forall x, y {:trigger a[x, y]} :: 0 <= x < |m| && 0 <= y < |m| ==> a[x, y] == if Before(x, y, i, j) then Weak(m[x][y]) else m[x][y]
      decreases a.Length0 - i, a.Length0 - j
    {
      if !(i == 0 && j == 0) && a[i, j] != Inf && !a[i, j].weak {
        a[i, j] := Weak(a[i, j]);
      }
      i, j := if j + 1 < a.Length0 then i else i + 1, if j + 1 < a.Length0 then j + 1 else 0;
    }
    RelaxAllStaysValid(m, Mat(a));
  }

  // ----- dbm_tightenDown and dbm_tightenUp -----

  /** dbm_strictRaw */
  function AsStrict(r: Raw): Raw {
    match r
    case Inf => Inf
    case Bound(value, _) => Bound(value, false)
  }

  /** The difference x stays short of the bound r, if there is one. */
  predicate ShortOf(x: real, r: Raw) {
    r.Bound? ==> x < r.value as real
  }

  /** Every clock is strictly above its lower bound, or strictly below its upper bound if it has one. */
  ghost predicate OffSide(v: Valuation, m: Dbm, down: bool)
    requires |v| == |m|
  {
    forall j {:trigger v[j]} :: 0 < j < |m| ==> if down then ShortOf(v[0] - v[j], m[0][j]) else ShortOf(v[j] - v[0], m[j][0])
  }

  /** The bound of clock j on one side, as a strict constraint. */
  function StrictAt(m: Dbm, down: bool, j: nat): Constraint
    requires j < |m|
  {
    if down then Constraint(0, j, AsStrict(m[0][j])) else Constraint(j, 0, AsStrict(m[j][0]))
  }

  /** The bounds of the clocks below k on one side, as strict constraints. */
  ghost predicate ListsBounds(cs: seq<Constraint>, m: Dbm, down: bool, k: nat) {
    |cs| + 1 == k <= |m| && forall l {:trigger cs[l]} :: 0 <= l < |cs| ==> cs[l] == StrictAt(m, down, l + 1)
  }

  lemma OffSideMeets(m: Dbm, down: bool, cs: seq<Constraint>, k: nat, v: Valuation)
    requires ListsBounds(cs, m, down, k) && |v| == |m| && OffSide(v, m, down)
    ensures AllWellFormed(cs, |m|) && MeetsAll(v, cs)
  {
    forall l {:trigger cs[l]} | 0 <= l < |cs| ensures WellFormed(cs[l], |m|) && Sat(v[cs[l].i] - v[cs[l].j], cs[l].value) {
      assert v[l + 1] == v[l + 1];
    }
  }

  lemma MeetsOffSide(m: Dbm, down: bool, cs: seq<Constraint>, v: Valuation)
    requires ListsBounds(cs, m, down, |m|) && AllWellFormed(cs, |m|) && |v| == |m| && MeetsAll(v, cs)
    ensures OffSide(v, m, down)
  {
    forall j {:trigger v[j]} | 0 < j < |m|
      ensures if down then ShortOf(v[0] - v[j], m[0][j]) else ShortOf(v[j] - v[0], m[j][0])
    {
      assert Sat(v[cs[j - 1].i] - v[cs[j - 1].j], cs[j - 1].value);
    }
  }

  /** The bounds on one side from clock j on are those of d. */
  ghost predicate RestKept(d: Dbm, m: Dbm, down: bool, j: nat) {
    |m| == |d| && forall y {:trigger m[0][y]} {:trigger m[y][0]} :: j <= y < |d| ==> if down then m[0][y] == d[0][y] else m[y][0] == d[y][0]
  }

  /** The tightenings so far, with what they cut. */
  ghost predicate Tightening(d: Dbm, m: Dbm, down: bool, j: nat, cs: seq<Constraint>, touched: set<int>, changed: nat, ci: nat, cj: nat) {
    Tightenings(d, m, touched, changed, ci, cj) && ListsBounds(cs, d, down, j) && RestKept(d, m, down, j) &&
    AllWellFormed(cs, |d|) && CutBy(d, cs, m)
  }

  /** One turn of the loop of dbm_tightenDown or dbm_tightenUp. */
  method TightenOne(a: array2<Raw>, down: bool, j: nat, touched: set<int>, changed: nat, ci: nat, cj: nat, ghost cs: seq<Constraint>, ghost d: Dbm)
    returns (ok: bool, touched': set<int>, changed': nat, ci': nat, cj': nat, ghost cs': seq<Constraint>)
    requires IsSquare(a) && a.Length0 == |d| && 0 < j < |d| && Tightening(d, Mat(a), down, j, cs, touched, changed, ci, cj)
    modifies a
    ensures ok ==> Tightening(d, Mat(a), down, j + 1, cs', touched', changed', ci', cj')
    ensures !ok ==> LooksEmpty(Mat(a)) && NoneOffSide(d, down)
  {
    ghost var m := Mat(a);
    var i, k, c := if down then 0 else j, if down then j else 0, AsStrict(if down then a[0, j] else a[j, 0]);
    assert m[0][j] == a[0, j] && m[j][0] == a[j, 0];
    assert Constraint(i, k, c) == StrictAt(d, down, j);
    cs' := cs + [Constraint(i, k, c)];
    CutByOneMore(d, cs, m, Constraint(i, k, c));
    ok, touched', changed', ci', cj' := ConstrainEntry(a, i, k, c, touched, changed, ci, cj, d);
    if !ok {
      NothingOff(d, m, down, j, cs', c);
    }
  }

  ghost predicate NoneOffSide(m: Dbm, down: bool) {
    forall v: Valuation {:trigger OffSide(v, m, down)} | |v| == |m| :: !(InZone(v, m) && OffSide(v, m, down))
  }

  lemma NothingOff(d: Dbm, m: Dbm, down: bool, j: nat, cs: seq<Constraint>, c: Raw)
    requires 0 < j < |d| && ListsBounds(cs, d, down, j + 1) && AllWellFormed(cs, |d|) && CutBy(d, cs[..j - 1], m)
    requires c == cs[j - 1].value && c.Bound? && Le(if down then m[j][0] else m[0][j], Neg(c))
    ensures NoneOffSide(d, down)
  {
    CutToNothing(d, cs, j - 1, m);
    forall v: Valuation | |v| == |d| ensures !(InZone(v, d) && OffSide(v, d, down)) {
      if OffSide(v, d, down) {
        OffSideMeets(d, down, cs, j + 1, v);
      }
    }
  }

  /** dbm_tightenDown and dbm_tightenUp: exactly the points off one side of the zone. */
  method TightenSide(a: array2<Raw>, down: bool) returns (ok: bool)
    requires IsSquare(a) && Valid(Mat(a))
    modifies a
    ensures ok ==> Valid(Mat(a)) && forall v: Valuation | |v| == a.Length0 ::
      InZone(v, Mat(a)) <==> InZone(v, old(Mat(a))) && OffSide(v, old(Mat(a)), down)
    ensures !ok ==> LooksEmpty(Mat(a)) && forall v: Valuation | |v| == a.Length0 ::
      !(InZone(v, old(Mat(a))) && OffSide(v, old(Mat(a)), down))
  {
    ghost var m := Mat(a);
    var touched: set<int>, changed, ci, cj := {}, 0, 0, 0;
    ghost var cs: seq<Constraint> := [];
    var j := 1;
    while j < a.Length0
      invariant 1 <= j <= a.Length0 && Tightening(m, Mat(a), down, j, cs, touched, changed, ci, cj)
    {
      ok, touched, changed, ci, cj, cs := TightenOne(a, down, j, touched, changed, ci, cj, cs, m);
      if !ok {
        return;
      }
      j := j + 1;
    }
    assert j == a.Length0;
    ok := CloseCut(a, cs, touched, changed, ci, cj, m);
    forall v: Valuation | |v| == |m| ensures MeetsAll(v, cs) <==> OffSide(v, m, down) {
      if OffSide(v, m, down) {
        OffSideMeets(m, down, cs, j, v);
      } else if MeetsAll(v, cs) {
        MeetsOffSide(m, down, cs, v);
      }
    }
    if ok {
      CutKeepsValid(m, Mat(a));
    }
  }
}
