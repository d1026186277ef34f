/** How good the pairwise test of dbm_haveIntersection (src/dbm.c) is.  Its interface (include/dbm/dbm.h)
    promises only that "false" is right and that "true" means the zones may intersect; a comment beside the code
    goes further and deduces from convexity that comparing bounds pair by pair is enough.  The comment is
    right up to dimension 3, that is, for two clocks besides the reference, and for no higher dimension. */
module Intersecting {
  import opened Bounds
  import opened Zones
  import opened Closure
  import Closing
  import opened Constraining

  ghost predicate Intersect(m: Dbm, m': Dbm) {
    exists v: Valuation :: InZone(v, m) && InZone(v, m')
  }

  // ----- Dimension 3 and less: two clocks -----

  /** Going round the clocks i, j, l costs nothing or more. */
  ghost predicate Round(k: Dbm, i: nat, j: nat, l: nat) {
    i < |k| && j < |k| && l < |k| && Le(LE_ZERO, Add(Add(k[i][j], k[j][l]), k[l][i]))
  }

  ghost predicate AllRound(k: Dbm) {
    ZeroDiagonal(k) && forall i: nat, j: nat, l: nat {:trigger Round(k, i, j, l)} :: i < |k| && j < |k| && l < |k| ==> Round(k, i, j, l)
  }

  lemma BackAndForth(k: Dbm, i: nat, j: nat)
    requires AllRound(k) && i < |k| && j < |k|
    ensures Le(LE_ZERO, Add(k[i][j], k[j][i]))
  {
    assert Round(k, i, j, j);
    assert k[j][j] == LE_ZERO;
  }

  /** With at most three clocks one step of closing keeps it so: one of three different clocks is the pivot, and
      its own bounds do not change. */
  lemma PivotKeepsRound(k: Dbm, p: nat)
    requires |k| <= 3 && p < |k| && AllRound(k)
    ensures AllRound(Pivot(k, p))
  {
    var k' := Pivot(k, p);
    forall i {:trigger k'[i][i]} | 0 <= i < |k| ensures k'[i][i] == LE_ZERO {
      BackAndForth(k, i, p);
      assert k[i][i] == LE_ZERO;
    }
    forall i: nat, j: nat, l: nat {:trigger Round(k', i, j, l)} | i < |k| && j < |k| && l < |k| ensures Round(k', i, j, l) {
      if i == j || j == l || l == i {
        PivotBackAndForth(k, p, i, if i == j then l else j);
        NoTurn(k', i, j, l);
      } else {
        PivotTurn(k, p, i, j, l);
      }
    }
  }

  /** Going round with a stop is going back and forth. */
  lemma NoTurn(k: Dbm, i: nat, j: nat, l: nat)
    requires ZeroDiagonal(k) && i < |k| && j < |k| && l < |k| && (i == j || j == l || l == i)
    requires var x := if i == j then l else j; Le(LE_ZERO, Add(k[i][x], k[x][i]))
    ensures Round(k, i, j, l)
  {
    assert k[i][i] == LE_ZERO && k[j][j] == LE_ZERO && k[l][l] == LE_ZERO;
  }

  lemma PivotValue(k: Dbm, p: nat, i: nat, j: nat)
    requires p < |k| && i < |k| && j < |k| && k[p][p] == LE_ZERO
    ensures Pivot(k, p)[i][j] == Min(k[i][j], Add(k[i][p], k[p][j]))
    ensures i == p || j == p ==> Pivot(k, p)[i][j] == k[i][j]
  {
  }

  lemma PivotBackAndForth(k: Dbm, p: nat, i: nat, j: nat)
    requires p < |k| && AllRound(k) && i < |k| && j < |k|
    ensures Le(LE_ZERO, Add(Pivot(k, p)[i][j], Pivot(k, p)[j][i]))
  {
    assert k[p][p] == LE_ZERO;
    PivotValue(k, p, i, j);
    PivotValue(k, p, j, i);
    BackAndForth(k, i, p);
    BackAndForth(k, j, p);
    BackAndForth(k, i, j);
    assert Round(k, i, j, p) && Round(k, j, i, p);
    TwoWays(k[i][j], k[j][i], k[i][p], k[p][j], k[j][p], k[p][i]);
  }

  lemma TwoWays(ij: Raw, ji: Raw, ip: Raw, pj: Raw, jp: Raw, pi: Raw)
    requires Le(LE_ZERO, Add(ij, ji)) && Le(LE_ZERO, Add(ip, pi)) && Le(LE_ZERO, Add(jp, pj))
    requires Le(LE_ZERO, Add(Add(ij, jp), pi)) && Le(LE_ZERO, Add(Add(ji, ip), pj))
    ensures Le(LE_ZERO, Add(Min(ij, Add(ip, pj)), Min(ji, Add(jp, pi))))
  {
  }

  lemma PivotTurn(k: Dbm, p: nat, i: nat, j: nat, l: nat)
    requires p < |k| && AllRound(k) && i < |k| && j < |k| && l < |k| && (p == i || p == j || p == l)
    ensures Round(Pivot(k, p), i, j, l)
  {
    var k' := Pivot(k, p);
    if p == i {
      TurnFromPivot(k, p, j, l);
    } else if p == j {
      TurnFromPivot(k, p, l, i);
      Rotate(k'[j][l], k'[l][i], k'[i][j]);
    } else {
      TurnFromPivot(k, p, i, j);
      Rotate(k'[l][i], k'[i][j], k'[j][l]);
    }
  }

  lemma Rotate(x: Raw, y: Raw, z: Raw)
    ensures Add(Add(x, y), z) == Add(Add(z, x), y) == Add(Add(y, z), x)
  {
  }

  /** The way p, a, b, p: only the bound between a and b may have been improved by a detour through p. */
  lemma TurnFromPivot(k: Dbm, p: nat, a: nat, b: nat)
    requires p < |k| && AllRound(k) && a < |k| && b < |k|
    ensures Round(Pivot(k, p), p, a, b)
  {
    assert k[p][p] == LE_ZERO;
    PivotValue(k, p, p, a);
    PivotValue(k, p, a, b);
    PivotValue(k, p, b, p);
    BackAndForth(k, p, a);
    BackAndForth(k, p, b);
    assert Round(k, p, a, b);
    TurnAtPivot(k[p][a], k[a][b], k[b][p], k[a][p], k[p][b]);
  }

  lemma TurnAtPivot(pa: Raw, ab: Raw, bp: Raw, ap: Raw, pb: Raw)
    requires Le(LE_ZERO, Add(Add(pa, ab), bp)) && Le(LE_ZERO, Add(pa, ap)) && Le(LE_ZERO, Add(pb, bp))
    ensures Le(LE_ZERO, Add(Add(pa, Min(ab, Add(ap, pb))), bp))
  {
  }

  lemma {:induction false} ClosingKeepsRound(k: Dbm, T: set<int>, n: nat)
    requires |k| <= 3 && AllRound(k) && n <= |k|
    ensures AllRound(CloseOver(k, T, n)) && ZeroSoFar(k, T, n)
  {
    if n == 0 {
      CloseOverNothing(k, T, n);
    } else {
      ClosingKeepsRound(k, T, n - 1);
      CloseOverStep(k, T, n - 1);
      if n - 1 in T {
        PivotKeepsRound(CloseOver(k, T, n - 1), n - 1);
      }
    }
  }

  // ----- Two matrices -----

  ghost predicate IsMinimum(m: Dbm, m': Dbm, k: Dbm) {
    |m| == |m'| == |k| && forall i, j {:trigger k[i][j]} :: 0 <= i < |k| && 0 <= j < |k| ==> k[i][j] == Min(m[i][j], m'[i][j])
  }

  lemma PairsAgree(m: Dbm, m': Dbm, i: nat, j: nat)
    requires Canonical(m) && Canonical(m') && |m| == |m'| && PairwiseCompatible(m, m') && i < |m| && j < |m|
    ensures Le(LE_ZERO, Add(m[i][j], m'[j][i])) && Le(LE_ZERO, Add(m'[i][j], m[j][i]))
    ensures Le(LE_ZERO, Add(m[i][j], m[j][i])) && Le(LE_ZERO, Add(m'[i][j], m'[j][i]))
  {
    Triangle(m, i, j, i);
    Triangle(m', i, j, i);
    assert m[i][i] == LE_ZERO && m'[i][i] == LE_ZERO;
    if j < i {
      assert PairCompatible(m, m', i, j);
    } else if i < j {
      assert PairCompatible(m, m', j, i);
    }
  }

  /** Of three bounds in a row, two that follow each other are of the same matrix, which has a bound for both. */
  lemma MinimumIsRound(m: Dbm, m': Dbm, k: Dbm, i: nat, j: nat, l: nat)
    requires Canonical(m) && Canonical(m') && IsMinimum(m, m', k) && PairwiseCompatible(m, m') && i < |m| && j < |m| && l < |m|
    ensures Round(k, i, j, l)
  {
    PairsAgree(m, m', i, j);
    PairsAgree(m, m', j, l);
    PairsAgree(m, m', l, i);
    Triangle(m, i, j, l);
    Triangle(m', i, j, l);
    Triangle(m, j, l, i);
    Triangle(m', j, l, i);
    Triangle(m, l, i, j);
    Triangle(m', l, i, j);
    Mixed(m[i][j], m[j][l], m[l][i], m'[i][j], m'[j][l], m'[l][i],
      m[i][l], m[j][i], m[l][j], m'[i][l], m'[j][i], m'[l][j]);
  }

  lemma Mixed(a: Raw, b: Raw, c: Raw, a': Raw, b': Raw, c': Raw, ab: Raw, bc: Raw, ca: Raw, ab': Raw, bc': Raw, ca': Raw)
    requires Le(ab, Add(a, b)) && Le(bc, Add(b, c)) && Le(ca, Add(c, a))
    requires Le(ab', Add(a', b')) && Le(bc', Add(b', c')) && Le(ca', Add(c', a'))
    requires Le(LE_ZERO, Add(c, ab)) && Le(LE_ZERO, Add(c', ab)) && Le(LE_ZERO, Add(c, ab')) && Le(LE_ZERO, Add(c', ab'))
    requires Le(LE_ZERO, Add(a, bc)) && Le(LE_ZERO, Add(a', bc)) && Le(LE_ZERO, Add(a, bc')) && Le(LE_ZERO, Add(a', bc'))
    requires Le(LE_ZERO, Add(b, ca)) && Le(LE_ZERO, Add(b', ca)) && Le(LE_ZERO, Add(b, ca')) && Le(LE_ZERO, Add(b', ca'))
    ensures Le(LE_ZERO, Add(Add(Min(a, a'), Min(b, b')), Min(c, c')))
  {
    SameNeighbours(Min(a, a'), Min(b, b'), Min(c, c'), a, b, c, a', b', c', ab, bc, ca, ab', bc', ca');
  }

  lemma SameNeighbours(x: Raw, y: Raw, z: Raw, a: Raw, b: Raw, c: Raw, a': Raw, b': Raw, c': Raw,
    ab: Raw, bc: Raw, ca: Raw, ab': Raw, bc': Raw, ca': Raw)
    requires (x == a || x == a') && (y == b || y == b') && (z == c || z == c')
    requires Le(ab, Add(a, b)) && Le(bc, Add(b, c)) && Le(ca, Add(c, a))
    requires Le(ab', Add(a', b')) && Le(bc', Add(b', c')) && Le(ca', Add(c', a'))
    requires Le(LE_ZERO, Add(z, ab)) && Le(LE_ZERO, Add(z, ab'))
    requires Le(LE_ZERO, Add(x, bc)) && Le(LE_ZERO, Add(x, bc'))
    requires Le(LE_ZERO, Add(y, ca)) && Le(LE_ZERO, Add(y, ca'))
    ensures Le(LE_ZERO, Add(Add(x, y), z))
  {
    if x == a && y == b {
      Longer(ab, a, b, z);
    } else if x == a' && y == b' {
      Longer(ab', a', b', z);
    } else if y == b && z == c {
      Longer(bc, b, c, x);
      Rotate(x, y, z);
    } else if y == b' && z == c' {
      Longer(bc', b', c', x);
      Rotate(x, y, z);
    } else if z == c && x == a {
      Longer(ca, c, a, y);
      Rotate(x, y, z);
    } else {
      Longer(ca', c', a', y);
      Rotate(x, y, z);
    }
  }

  lemma Longer(ab: Raw, a: Raw, b: Raw, z: Raw)
    requires Le(ab, Add(a, b)) && Le(LE_ZERO, Add(z, ab))
    ensures Le(LE_ZERO, Add(Add(a, b), z))
  {
  }

  /** Up to dimension 3 a positive answer of the pairwise test is right. */
  lemma PairwiseIsEnough(m: Dbm, m': Dbm)
    requires Canonical(m) && Canonical(m') && |m| == |m'| <= 3 && PairwiseCompatible(m, m')
    ensures Intersect(m, m')
  {
    var k := Build(|m|, (i, j) requires 0 <= i < |m| && 0 <= j < |m| => Min(m[i][j], m'[i][j]));
    assert IsMinimum(m, m', k);
    forall i {:trigger k[i][i]} | 0 <= i < |k| ensures k[i][i] == LE_ZERO {
      assert m[i][i] == LE_ZERO && m'[i][i] == LE_ZERO;
    }
    forall i: nat, j: nat, l: nat {:trigger Round(k, i, j, l)} | i < |k| && j < |k| && l < |k| ensures Round(k, i, j, l) {
      MinimumIsRound(m, m', k, i, j, l);
    }
    ClosingKeepsRound(k, Prefix(|k|), |k|);
    Closing.FinishedClosing(k, Prefix(|k|));
    var v := CanonicalHasPoint(Closed(k));
    MeetsMinimum(m, m', k, v);
  }

  lemma MeetsMinimum(m: Dbm, m': Dbm, k: Dbm, v: Valuation)
    requires IsMinimum(m, m', k) && InZone(v, Closed(k)) && SameZone(k, Closed(k))
    ensures InZone(v, m) && InZone(v, m')
  {
    assert InZone(v, k);
    forall i, j {:trigger m[i][j]} {:trigger m'[i][j]} | 0 <= i < |m| && 0 <= j < |m|
      ensures Sat(v[i] - v[j], m[i][j]) && Sat(v[i] - v[j], m'[i][j])
    {
      MeetsAt(v, k, i, j);
      SatLe(v[i] - v[j], k[i][j], m[i][j]);
      SatLe(v[i] - v[j], k[i][j], m'[i][j]);
    }
  }

  // ----- Dimension 4 and more -----

  /** x1 >= 2 and x2 <= x3 */
  function OneEntry(i: nat, j: nat): Raw {
    if i == j then LE_ZERO
    else if i == 0 then (if j == 1 then Bound(-2, true) else LE_ZERO)
    else if i == 2 && j == 3 then LE_ZERO
    else Inf
  }

  /** x1 <= x2 and x3 <= 1 */
  function OtherEntry(i: nat, j: nat): Raw {
    if i == j || i == 0 then LE_ZERO
    else if i == 1 && j == 2 then LE_ZERO
    else if i == 3 then Bound(1, true)
    else Inf
  }

  ghost predicate IsOne(m: Dbm) {
    |m| >= 4 && forall i, j {:trigger m[i][j]} :: 0 <= i < |m| && 0 <= j < |m| ==> m[i][j] == OneEntry(i, j)
  }

  ghost predicate IsOther(m: Dbm) {
    |m| >= 4 && forall i, j {:trigger m[i][j]} :: 0 <= i < |m| && 0 <= j < |m| ==> m[i][j] == OtherEntry(i, j)
  }

  lemma AddZero(r: Raw)
    ensures Le(r, Add(LE_ZERO, r)) && Le(r, Add(r, LE_ZERO))
  {
  }

  lemma OneTriangle(i: nat, p: nat, j: nat)
    ensures Le(OneEntry(i, j), Add(OneEntry(i, p), OneEntry(p, j)))
  {
    if i == p || p == j {
      AddZero(OneEntry(i, j));
    } else if p == 2 && j == 3 {
      assert OneEntry(i, p).Bound? ==> i == 0;
    } else if p != 0 {
      assert OneEntry(p, j) == Inf;
    } else {
      assert OneEntry(i, p) == Inf;
    }
  }

  lemma OtherTriangle(i: nat, p: nat, j: nat)
    ensures Le(OtherEntry(i, j), Add(OtherEntry(i, p), OtherEntry(p, j)))
  {
    if i == p {
    } else if p == j {
    } else if i == j {
    } else {
    }
  }

  lemma ExamplesAreValid(m: Dbm, m': Dbm)
    requires IsOne(m) && IsOther(m')
    ensures Valid(m) && Valid(m')
  {
    forall p | 0 <= p < |m| ensures Through(m, p) {
      forall i, j {:trigger m[i][j]} | 0 <= i < |m| && 0 <= j < |m| ensures Le(m[i][j], Add(m[i][p], m[p][j])) {
        OneTriangle(i, p, j);
      }
    }
    forall p | 0 <= p < |m'| ensures Through(m', p) {
      forall i, j {:trigger m'[i][j]} | 0 <= i < |m'| && 0 <= j < |m'| ensures Le(m'[i][j], Add(m'[i][p], m'[p][j])) {
        OtherTriangle(i, p, j);
      }
    }
  }

  /** Each bound of the one agrees with each opposite bound of the other, and yet
      2 <= x1 <= x2 <= x3 <= 1 has no solution. */
  lemma ExamplesDoNotIntersect(m: Dbm, m': Dbm)
    requires IsOne(m) && IsOther(m') && |m| == |m'|
    ensures PairwiseCompatible(m, m') && !Intersect(m, m')
  {
    forall i, j | 0 <= j < i < |m| ensures PairCompatible(m, m', i, j) {
      assert m[i][j] == OneEntry(i, j) && m[j][i] == OneEntry(j, i) && m'[i][j] == OtherEntry(i, j) && m'[j][i] == OtherEntry(j, i);
    }
    forall v: Valuation ensures !(InZone(v, m) && InZone(v, m')) {
      if InZone(v, m) {
        MeetsAt(v, m, 0, 1);
        MeetsAt(v, m, 2, 3);
      }
      if InZone(v, m') {
        MeetsAt(v, m', 1, 2);
        MeetsAt(v, m', 3, 0);
      }
    }
  }

  /** The pairwise test decides intersection for all zones of dimension n exactly when n is at most 3. */
  lemma PairwiseIsExactUpToThree(n: nat)
    requires n >= 1
    ensures (forall m: Dbm, m': Dbm {:trigger PairwiseCompatible(m, m')} :: |m| == |m'| == n && Valid(m) && Valid(m') ==>
      (PairwiseCompatible(m, m') <==> Intersect(m, m'))) <==> n <= 3
  {
    if n <= 3 {
      forall m: Dbm, m': Dbm {:trigger PairwiseCompatible(m, m')} | |m| == |m'| == n && Valid(m) && Valid(m')
        ensures PairwiseCompatible(m, m') <==> Intersect(m, m')
      {
        if PairwiseCompatible(m, m') {
          PairwiseIsEnough(m, m');
        } else {
          forall v: Valuation ensures !(InZone(v, m) && InZone(v, m')) {
            IncompatibleIsDisjoint(m, m', v);
          }
        }
      }
    } else {
      var m := Build(n, (i, j) requires 0 <= i < n && 0 <= j < n => OneEntry(i, j));
      var m' := Build(n, (i, j) requires 0 <= i < n && 0 <= j < n => OtherEntry(i, j));
      assert IsOne(m) && IsOther(m');
      ExamplesAreValid(m, m');
      ExamplesDoNotIntersect(m, m');
    }
  }
}
