/** The in-place closing routines of src/dbm.c, proved against `Closure`.

    A matrix is an `array2<Raw>`; DBM(I, J) is a[I, J].  dbm_close, dbm_closex and dbm_closeLU
    repeat the two inner loops of dbm_close1, so they share `PivotInPlace` here. */
module Closing {
  import opened Bounds
  import opened Zones
  import opened Closure

  predicate IsSquare(a: array2<Raw>) {
    a.Length0 == a.Length1 >= 1
  }

  /** The matrix held by the array. */
  function Mat(a: array2<Raw>): (m: Dbm)
    requires IsSquare(a)
    reads a
    ensures |m| == a.Length0
    ensures forall i, j {:trigger m[i][j]} {:trigger a[i, j]} :: 0 <= i < a.Length0 && 0 <= j < a.Length0 ==> m[i][j] == a[i, j]
  {
    seq(a.Length0, i requires 0 <= i < a.Length0 reads a =>
      seq(a.Length0, j requires 0 <= j < a.Length0 reads a => a[i, j]))
  }

  /** dbm_isDiagonalOK */
  ghost predicate DiagonalOK(m: Dbm) {
    forall i {:trigger m[i][i]} :: 0 <= i < |m| ==> Le(m[i][i], LE_ZERO)
  }

  /** The entry written by a routine that found the zone empty. */
  const EMPTY_MARK: Raw := Bound(-1, true)

  /** dbm_isEmpty */
  ghost predicate LooksEmpty(m: Dbm) {
    exists i {:trigger m[i][i]} :: 0 <= i < |m| && Lt(m[i][i], LE_ZERO)
  }

  /** The loops on i and j of dbm_close: one Floyd step, stopped as soon as a diagonal entry dips below zero. */
  method PivotInPlace(a: array2<Raw>, k: nat) returns (ok: bool)
    requires IsSquare(a) && k < a.Length0 && DiagonalOK(Mat(a))
    modifies a
    ensures ok ==> Mat(a) == Pivot(old(Mat(a)), k) && a[k, k] == old(a[k, k])
    ensures ok ==> forall i {:trigger a[i, i]} :: 0 <= i < a.Length0 && i != k ==> a[i, i] == LE_ZERO
    ensures ok && old(a[k, k]) == LE_ZERO ==> ZeroDiagonal(Mat(a))
    ensures !ok ==> !ZeroDiagonal(Pivot(old(Mat(a)), k)) && LooksEmpty(Mat(a))
  {
    ghost var m := Mat(a);
    var dim := a.Length0;
    var i := 0;
    while i < dim
      invariant 0 <= i <= dim
      invariant forall x, y {:trigger a[x, y]} :: 0 <= x < dim && 0 <= y < dim ==>
        a[x, y] == if x < i then PivotEntry(m, k, x, y) else m[x][y]
      invariant forall x {:trigger PivotEntry(m, k, x, x)} :: 0 <= x < i && x != k ==> PivotEntry(m, k, x, x) == LE_ZERO
    {
      if i != k {
        var ik := a[i, k];
        if ik != Inf {
          var j := 0;
          while j < dim
            invariant 0 <= j <= dim
            invariant forall x, y {:trigger a[x, y]} :: 0 <= x < dim && 0 <= y < dim ==>
              a[x, y] == if x < i || (x == i && y < j) then PivotEntry(m, k, x, y) else m[x][y]
          {
            var kj := a[k, j];
            if kj != Inf {
              var ikkj := Add(ik, kj);
              if Lt(ikkj, a[i, j]) {
                a[i, j] := ikkj;
              }
            }
            j := j + 1;
          }
        }
        assert Le(m[i][i], LE_ZERO);
        if Lt(a[i, i], LE_ZERO) {
          assert Lt(Pivot(m, k)[i][i], LE_ZERO) && Lt(Mat(a)[i][i], LE_ZERO);
          return false;
        }
        NotBelowZero(m, k, i);
      }
      i := i + 1;
    }
    SameEntries(Mat(a), Pivot(m, k));
    return true;
  }

  lemma NotBelowZero(m: Dbm, k: nat, i: nat)
    requires k < |m| && i < |m| && i != k && Le(m[i][i], LE_ZERO) && !Lt(PivotEntry(m, k, i, i), LE_ZERO)
    ensures PivotEntry(m, k, i, i) == LE_ZERO
  {
  }

  /** A step that made a diagonal entry negative started from bounds that no valuation meets. */
  lemma FailedStepIsEmpty(m: Dbm, T: set<int>, k: nat)
    requires k < |m| && DiagonalOK(CloseOver(m, T, k))
    requires !ZeroDiagonal(Pivot(CloseOver(m, T, k), k))
    ensures EmptyZone(m)
  {
    var before := CloseOver(m, T, k);
    var i :| 0 <= i < |m| && Pivot(before, k)[i][i] != LE_ZERO;
    forall v: Valuation ensures !InZone(v, m) {
      CloseOverKeepsMeets(m, T, k, v);
      PivotKeepsMeets(before, k, v);
      NegativeDiagonalIsEmpty(Pivot(before, k), i, v);
    }
  }

  lemma CloseOverSameZone(m: Dbm, T: set<int>)
    ensures SameZone(m, CloseOver(m, T, |m|))
  {
    forall v: Valuation ensures InZone(v, m) <==> InZone(v, CloseOver(m, T, |m|)) {
      CloseOverKeepsMeets(m, T, |m|, v);
    }
  }

  lemma OneMoreStep(m: Dbm, T: set<int>, k: nat)
    requires k < |m| && ZeroSoFar(m, T, k)
    requires k in T ==> ZeroDiagonal(Pivot(CloseOver(m, T, k), k))
    requires k !in T ==> ZeroDiagonal(CloseOver(m, T, k))
    ensures CloseOver(m, T, k + 1) == if k in T then Pivot(CloseOver(m, T, k), k) else CloseOver(m, T, k)
    ensures ZeroSoFar(m, T, k + 1)
  {
    CloseOverStep(m, T, k);
  }

  lemma FinishedClosing(m: Dbm, T: set<int>)
    requires ZeroSoFar(m, T, |m|)
    requires ThroughOutside(m, T)
    ensures Canonical(CloseOver(m, T, |m|)) && SameZone(m, CloseOver(m, T, |m|))
  {
    CloseOverCanonical(m, T);
    CloseOverSameZone(m, T);
  }

  lemma {:induction false} LaterIsTighter(m: Dbm, T: set<int>, k: nat, n: nat, i: nat, j: nat)
    requires k <= n <= |m| && i < |m| && j < |m|
    ensures Le(CloseOver(m, T, n)[i][j], CloseOver(m, T, k)[i][j])
    decreases n
  {
    if k < n {
      LaterIsTighter(m, T, k, n - 1, i, j);
      CloseOverStep(m, T, n - 1);
    }
  }

  /** When the diagonal is zero in the end it was zero all the time. */
  lemma ZeroAllTheTime(m: Dbm, T: set<int>)
    requires DiagonalOK(m) && ZeroDiagonal(CloseOver(m, T, |m|))
    ensures ZeroSoFar(m, T, |m|)
  {
    forall k | 0 <= k <= |m| ensures ZeroDiagonal(CloseOver(m, T, k)) {
      forall i {:trigger CloseOver(m, T, k)[i][i]} | 0 <= i < |m| ensures CloseOver(m, T, k)[i][i] == LE_ZERO {
        CloseOverTightens(m, T, k, i, i);
        LaterIsTighter(m, T, k, |m|, i, i);
        assert CloseOver(m, T, |m|)[i][i] == LE_ZERO && Le(m[i][i], LE_ZERO);
      }
    }
  }

  lemma CloseOverDiagonal(m: Dbm, T: set<int>, k: nat)
    requires DiagonalOK(m) && k <= |m|
    ensures DiagonalOK(CloseOver(m, T, k))
  {
    forall i {:trigger CloseOver(m, T, k)[i][i]} | 0 <= i < |m| ensures Le(CloseOver(m, T, k)[i][i], LE_ZERO) {
      CloseOverTightens(m, T, k, i, i);
      assert Le(m[i][i], LE_ZERO);
    }
  }

  /** dbm_close: full Floyd closing.  It reports exactly whether the zone is non-empty, and then
      leaves the canonical matrix of the same zone. */
  method Close(a: array2<Raw>) returns (ok: bool)
    requires IsSquare(a) && DiagonalOK(Mat(a)) && (a.Length0 == 1 ==> a[0, 0] == LE_ZERO)
    modifies a
    ensures ok ==> Mat(a) == Closed(old(Mat(a)))
    ensures ok ==> Canonical(Mat(a)) && SameZone(old(Mat(a)), Mat(a))
    ensures !ok ==> EmptyZone(old(Mat(a))) && a[0, 0] == EMPTY_MARK
  {
    ghost var m := Mat(a);
    ghost var T := Prefix(|m|);
    var k := 0;
    while k < a.Length0
      invariant 0 <= k <= a.Length0
      invariant Mat(a) == CloseOver(m, T, k) && DiagonalOK(Mat(a))
      invariant forall i {:trigger a[i, i]} :: 0 <= i < a.Length0 && (if k == 1 then i > 0 else k > 1) ==> a[i, i] == LE_ZERO
      invariant k <= 1 && a.Length0 == 1 ==> a[0, 0] == LE_ZERO
    {
      var step := PivotInPlace(a, k);
      if !step {
        FailedStepIsEmpty(m, T, k);
        a[0, 0] := EMPTY_MARK;
        return false;
      }
      CloseOverStep(m, T, k);
      CloseOverDiagonal(m, T, k + 1);
      k := k + 1;
    }
    ZeroAllTheTime(m, T);
    FinishedClosing(m, T);
    return true;
  }

  /** dbm_closex: closing over the touched clocks only.  It needs every untouched clock to give
      no improvement, which is what its callers have after tightening entries between touched
      clocks of a closed matrix.  The bit table of touched clocks is a set here. */
  method CloseTouched(a: array2<Raw>, touched: set<int>) returns (ok: bool)
    requires IsSquare(a) && ZeroDiagonal(Mat(a))
    requires ThroughOutside(Mat(a), touched)
    modifies a
    ensures ok ==> Canonical(Mat(a)) && SameZone(old(Mat(a)), Mat(a))
    ensures ok ==> Mat(a) == CloseOver(old(Mat(a)), touched, a.Length0)
    ensures !ok ==> EmptyZone(old(Mat(a))) && LooksEmpty(Mat(a))
  {
    ghost var m := Mat(a);
    var k := 0;
    while k < a.Length0
      invariant 0 <= k <= a.Length0
      invariant Mat(a) == CloseOver(m, touched, k)
      invariant ZeroDiagonal(Mat(a)) && ZeroSoFar(m, touched, k)
    {
      if k in touched {
        var step := PivotInPlace(a, k);
        if !step {
          FailedStepIsEmpty(m, touched, k);
          return false;
        }
      }
      OneMoreStep(m, touched, k);
      k := k + 1;
    }
    FinishedClosing(m, touched);
    return true;
  }

  /** When some valuation meets the bounds, no closing over any set of clocks fails. */
  lemma {:induction false} NonEmptyNeverFails(m: Dbm, T: set<int>, k: nat, v: Valuation)
    requires ZeroDiagonal(m) && Meets(v, m) && k <= |m|
    ensures ZeroSoFar(m, T, k)
  {
    if k != 0 {
      NonEmptyNeverFails(m, T, k - 1, v);
    }
    forall i | 0 <= i < |m| ensures CloseOver(m, T, k)[i][i] == LE_ZERO {
      CloseOverTightens(m, T, k, i, i);
      CloseOverKeepsMeets(m, T, k, v);
      if Lt(CloseOver(m, T, k)[i][i], LE_ZERO) {
        NegativeDiagonalIsEmpty(CloseOver(m, T, k), i, v);
      }
    }
  }

  lemma ClosedOfNonEmpty(m: Dbm, v: Valuation)
    requires ZeroDiagonal(m) && Meets(v, m)
    ensures Canonical(Closed(m)) && SameZone(m, Closed(m))
  {
    NonEmptyNeverFails(m, Prefix(|m|), |m|, v);
    FinishedClosing(m, Prefix(|m|));
  }

  /** A canonical matrix with the zone of m is the full closure of m, however it was obtained. */
  lemma CanonicalIsClosed(m: Dbm, m': Dbm)
    requires ZeroDiagonal(m) && Canonical(m') && SameZone(m, m')
    ensures m' == Closed(m)
  {
    var v := CanonicalHasPoint(m');
    ClosedOfNonEmpty(m, v);
    CanonicalUnique(m', Closed(m));
  }

  /** dbm_closeij gives the same matrix as full closing of the matrix with the tightened entry. */
  lemma EntryClosingIsFull(m: Dbm, b: nat, a: nat, c: Raw)
    requires Canonical(m) && b < |m| && a < |m| && CanTighten(m, b, a, c)
    ensures Tightened(m, b, a, c) == Closed(Set(m, b, a, c))
  {
    var m0, m' := Set(m, b, a, c), Tightened(m, b, a, c);
    TightenedCanonical(m, b, a, c);
    forall v: Valuation ensures InZone(v, m0) <==> InZone(v, m') {
      TightenedMeets(m, b, a, c, v);
      SetMeets(m, b, a, c, v);
    }
    CanonicalIsClosed(m0, m');
  }

  lemma SetMeets(m: Dbm, b: nat, a: nat, c: Raw, v: Valuation)
    requires b < |m| && a < |m| && Lt(c, m[b][a])
    ensures Meets(v, Set(m, b, a, c)) <==> Meets(v, m) && Sat(v[b] - v[a], c)
  {
    var m0 := Set(m, b, a, c);
    if Meets(v, m0) {
      MeetsAt(v, m0, b, a);
      forall i, j {:trigger m[i][j]} | 0 <= i < |m| && 0 <= j < |m| ensures Sat(v[i] - v[j], m[i][j]) {
        SatLe(v[i] - v[j], m0[i][j], m[i][j]);
      }
    }
  }

  /** Closing over the touched clocks gives the full closure, when the untouched ones gave no improvement. */
  lemma TouchedClosingIsFull(m: Dbm, T: set<int>, v: Valuation)
    requires ZeroDiagonal(m) && Meets(v, m)
    requires ThroughOutside(m, T)
    ensures CloseOver(m, T, |m|) == Closed(m)
  {
    NonEmptyNeverFails(m, T, |m|, v);
    FinishedClosing(m, T);
    var w := CanonicalHasPoint(CloseOver(m, T, |m|));
    CanonicalIsClosed(m, CloseOver(m, T, |m|));
  }

  /** dbm_close1 */
  method CloseOne(a: array2<Raw>, k: nat) returns (ok: bool)
    requires IsSquare(a) && k < a.Length0 && ZeroDiagonal(Mat(a))
    modifies a
    ensures ok ==> Mat(a) == Pivot(old(Mat(a)), k) && ZeroDiagonal(Mat(a))
    ensures !ok ==> EmptyZone(old(Mat(a))) && a[0, 0] == EMPTY_MARK
  {
    ghost var m := Mat(a);
    ok := PivotInPlace(a, k);
    if !ok {
      a[0, 0] := EMPTY_MARK;
      forall v: Valuation ensures !InZone(v, m) {
        var i :| 0 <= i < |m| && Pivot(m, k)[i][i] != LE_ZERO;
        PivotKeepsMeets(m, k, v);
        NegativeDiagonalIsEmpty(Pivot(m, k), i, v);
      }
    }
  }

  /** Row r after the detours of cost c to the start of row ra. */
  function Relaxed(r: seq<Raw>, c: Raw, ra: seq<Raw>): (r': seq<Raw>)
    requires |r| == |ra|
    ensures |r'| == |r| && forall y :: 0 <= y < |r| ==> r'[y] == Min(r[y], Add(c, ra[y]))
  {
    seq(|r|, y requires 0 <= y < |r| => Min(r[y], Add(c, ra[y])))
  }

  /** A row that does not reach a more cheaply through the tightened entry stays as it is. */
  lemma RowUnchanged(m: Dbm, b: nat, a: nat, c: Raw, i: nat)
    requires Canonical(m) && b < |m| && a < |m| && i < |m|
    requires !Lt(Add(m[i][b], c), m[i][a])
    ensures Tightened(m, b, a, c)[i] == m[i]
  {
    forall y | 0 <= y < |m| ensures TightenedEntry(m, b, a, c, i, y) == m[i][y] {
      Triangle(m, i, a, y);
      AddMonotone(m[i][a], Add(m[i][b], c), m[a][y], m[a][y]);
    }
  }

  /** Any other row is relaxed by what it now costs to reach a. */
  lemma RowRelaxed(m: Dbm, b: nat, a: nat, c: Raw, i: nat)
    requires Canonical(m) && b < |m| && a < |m| && i < |m|
    requires i == b ==> Lt(c, m[b][a])
    requires Lt(Add(m[i][b], c), m[i][a])
    ensures Relaxed(m[i][a := Add(m[i][b], c)], Add(m[i][b], c), m[a]) == Tightened(m, b, a, c)[i]
  {
    assert m[a][a] == LE_ZERO;
  }

  /** The loop on j shared by the two halves of dbm_closeij. */
  method RelaxRow(d: array2<Raw>, i: nat, a: nat, ia: Raw)
    requires IsSquare(d) && i < d.Length0 && a < d.Length0 && i != a
    modifies d
    ensures Mat(d) == old(Mat(d))[i := Relaxed(old(Mat(d))[i], ia, old(Mat(d))[a])]
  {
    ghost var m := Mat(d);
    var j := 0;
    while j < d.Length0
      invariant 0 <= j <= d.Length0
      invariant forall x, y {:trigger d[x, y]} :: 0 <= x < d.Length0 && 0 <= y < d.Length0 ==>
        d[x, y] == if x == i && y < j then Min(m[x][y], Add(ia, m[a][y])) else m[x][y]
    {
      if d[a, j] != Inf {
        var ij := Add(ia, d[a, j]);
        if Lt(ij, d[i, j]) {
          d[i, j] := ij;
        }
      }
      j := j + 1;
    }
    SameEntries(Mat(d), m[i := Relaxed(m[i], ia, m[a])]);
  }

  /** One turn of the second half of dbm_closeij, on row i. */
  method CloseRow(d: array2<Raw>, b: nat, a: nat, ba: Raw, i: nat, ghost m: Dbm)
    requires IsSquare(d) && |m| == d.Length0 && b < |m| && a < |m| && i < |m|
    requires Canonical(m) && CanTighten(m, b, a, ba)
    requires Mat(d)[a] == m[a] && Mat(d)[i] == if i == b then Tightened(m, b, a, ba)[i] else m[i]
    modifies d
    ensures Mat(d) == old(Mat(d))[i := Tightened(m, b, a, ba)[i]]
  {
    ghost var before := Mat(d);
    assert m[a][a] == LE_ZERO && m[b][b] == LE_ZERO;
    assert d[i, b] == before[i][b] && d[i, a] == before[i][a];
    if d[i, b] != Inf && Lt(Add(d[i, b], ba), d[i, a]) {
      var ia := Add(d[i, b], ba);
      d[i, a] := ia;
      SameEntries(Mat(d), Set(before, i, a, ia));
      RelaxRow(d, i, a, ia);
      RowRelaxed(m, b, a, ba, i);
    } else if i != b {
      RowUnchanged(m, b, a, ba, i);
    }
  }

  /** With only one clock besides the reference there is nothing left to close. */
  lemma TwoClocksAreClosed(m: Dbm, b: nat, a: nat, c: Raw)
    requires Canonical(m) && |m| <= 2 && b < |m| && a < |m| && CanTighten(m, b, a, c)
    ensures Set(m, b, a, c) == Tightened(m, b, a, c)
  {
    assert m[a][a] == LE_ZERO && m[b][b] == LE_ZERO;
    SameEntries(Set(m, b, a, c), Tightened(m, b, a, c));
  }

  /** The first half of dbm_closeij: row b. */
  method CloseRowB(d: array2<Raw>, b: nat, a: nat, ghost m: Dbm)
    requires IsSquare(d) && |m| == d.Length0 && b < |m| && a < |m|
    requires Canonical(m) && CanTighten(m, b, a, d[b, a])
    requires Mat(d) == Set(m, b, a, d[b, a])
    modifies d
    ensures Mat(d) == m[b := Tightened(m, b, a, old(d[b, a]))[b]] && d[b, a] == old(d[b, a])
  {
    ghost var ba := d[b, a];
    assert m[b][b] == LE_ZERO && m[a][a] == LE_ZERO;
    RowRelaxed(m, b, a, ba, b);
    RelaxRow(d, b, a, d[b, a]);
    assert Mat(d)[b][a] == ba;
  }

  /** dbm_closeij: a canonical matrix m had its entry (b, a) tightened; restore closed form in place. */
  method CloseEntry(d: array2<Raw>, b: nat, a: nat, ghost m: Dbm)
    requires IsSquare(d) && |m| == d.Length0 && b < |m| && a < |m|
    requires Canonical(m) && CanTighten(m, b, a, d[b, a])
    requires Mat(d) == Set(m, b, a, d[b, a])
    modifies d
    ensures Mat(d) == Tightened(m, b, a, old(d[b, a]))
  {
    var ba := d[b, a];
    if d.Length0 > 2 {
      CloseRowB(d, b, a, m);
      RowAUnchanged(m, b, a, ba);
      ghost var m' := Tightened(m, b, a, ba);
      var i := 0;
      while i < d.Length0
        invariant 0 <= i <= d.Length0
        invariant forall x :: 0 <= x < d.Length0 ==> Mat(d)[x] == if x < i || x == b then m'[x] else m[x]
      {
        CloseRow(d, b, a, ba, i, m);
        i := i + 1;
      }
      assert Mat(d) == m';
    } else {
      TwoClocksAreClosed(m, b, a, ba);
    }
  }

  lemma RowAUnchanged(m: Dbm, b: nat, a: nat, c: Raw)
    requires Canonical(m) && b < |m| && a < |m| && CanTighten(m, b, a, c)
    ensures Tightened(m, b, a, c)[a] == m[a]
  {
    assert m[a][a] == LE_ZERO;
    RowUnchanged(m, b, a, c, a);
  }
}
