/** Which constraints of a closed matrix the minimal graph analysis keeps
    (mingraph_analyzeForMinDBM, src/mingraph_write.c), that they suffice, and that none can go. */
module MinimalGraph {
  import opened Bounds
  import opened Zones
  import opened Closure
  import Closing

  // ----- Clocks tied by a zero cycle -----

  /** xi - xj is constant in the zone. */
  predicate Tied(m: Dbm, i: nat, j: nat)
    requires i < |m| && j < |m|
  {
    m[i][j].Bound? && m[j][i].Bound? && m[i][j].value == -m[j][i].value
  }

  /** The first clock of its class. */
  ghost predicate IsRep(m: Dbm, p: nat)
    requires p < |m|
  {
    forall j: nat :: j < p ==> !Tied(m, j, p)
  }

  /** b comes right after a in their class. */
  ghost predicate IsNext(m: Dbm, a: nat, b: nat)
    requires a < |m| && b < |m|
  {
    a < b && Tied(m, a, b) && forall j: nat :: a < j < b ==> !Tied(m, a, j)
  }

  ghost predicate IsLast(m: Dbm, a: nat)
    requires a < |m|
  {
    forall j: nat :: a < j < |m| ==> !Tied(m, a, j)
  }

  /** Both bounds of a zero cycle are weak, and adding one of them to any bound is exact. */
  lemma TiedIsExact(m: Dbm, i: nat, j: nat, k: nat)
    requires Canonical(m) && i < |m| && j < |m| && k < |m| && Tied(m, i, j)
    ensures m[i][j].weak && m[j][i].weak
    ensures m[i][k] == Add(m[i][j], m[j][k]) && m[k][i] == Add(m[k][j], m[j][i])
  {
    assert m[i][i] == LE_ZERO;
    Triangle(m, i, j, i);
    Triangle(m, i, j, k);
    Triangle(m, j, i, k);
    Triangle(m, k, j, i);
    Triangle(m, k, i, j);
  }

  lemma TiedReflexive(m: Dbm, i: nat)
    requires Canonical(m) && i < |m|
    ensures Tied(m, i, i)
  {
    assert m[i][i] == LE_ZERO;
  }

  lemma TiedTransitive(m: Dbm, i: nat, j: nat, k: nat)
    requires Canonical(m) && i < |m| && j < |m| && k < |m| && Tied(m, i, j)
    ensures Tied(m, j, k) <==> Tied(m, i, k)
  {
    TiedIsExact(m, i, j, k);
  }

  lemma {:induction false} RepOf(m: Dbm, i: nat) returns (p: nat)
    requires Canonical(m) && i < |m|
    ensures p <= i && IsRep(m, p) && Tied(m, p, i)
  {
    if IsRep(m, i) {
      TiedReflexive(m, i);
      p := i;
    } else {
      var j: nat :| j < i && Tied(m, j, i);
      p := RepOf(m, j);
      TiedTransitive(m, p, j, i);
    }
  }

  lemma RepsAreNotTied(m: Dbm, p: nat, q: nat)
    requires p < |m| && q < |m| && IsRep(m, p) && IsRep(m, q) && p != q
    ensures !Tied(m, p, q)
  {
    assert Tied(m, p, q) <==> Tied(m, q, p);
  }

  lemma {:induction false} NextOf(m: Dbm, a: nat, b: nat) returns (c: nat)
    requires a < b < |m| && Tied(m, a, b)
    ensures c <= b && IsNext(m, a, c)
  {
    if IsNext(m, a, b) {
      c := b;
    } else {
      var j: nat :| a < j < b && Tied(m, a, j);
      c := NextOf(m, a, j);
    }
  }

  lemma {:induction false} LastOf(m: Dbm, a: nat) returns (c: nat)
    requires Canonical(m) && a < |m|
    ensures a <= c < |m| && IsLast(m, c) && Tied(m, a, c)
    decreases |m| - a
  {
    if IsLast(m, a) {
      TiedReflexive(m, a);
      c := a;
    } else {
      var j: nat :| a < j < |m| && Tied(m, a, j);
      c := LastOf(m, j);
      TiedTransitive(m, a, j, c);
    }
  }

  // ----- The constraints that are kept -----

  /** p and q are improved by a detour through r: the test of the elimination loop. */
  predicate Implied(m: Dbm, p: nat, r: nat, q: nat)
    requires p < |m| && q < |m| && r < |m|
  {
    m[p][r].Bound? && m[r][q].Bound? && Le(Add(m[p][r], m[r][q]), m[p][q])
  }

  /** A constraint between two class representatives that no third representative implies. */
  ghost predicate KeptBetween(m: Dbm, p: nat, q: nat)
    requires p < |m| && q < |m|
  {
    IsRep(m, p) && IsRep(m, q) && p != q && m[p][q].Bound? &&
    forall r: nat :: r < |m| && IsRep(m, r) && r != p && r != q ==> !Implied(m, p, r, q)
  }

  /** A constraint of the cycle that ties a class together: each clock to the next, the last to the first. */
  ghost predicate KeptInCycle(m: Dbm, a: nat, b: nat)
    requires a < |m| && b < |m|
  {
    IsNext(m, a, b) || (IsLast(m, a) && IsRep(m, b) && b < a && Tied(m, a, b))
  }

  ghost predicate Kept(m: Dbm, i: nat, j: nat)
    requires i < |m| && j < |m|
  {
    KeptBetween(m, i, j) || KeptInCycle(m, i, j)
  }

  /** v meets the kept constraints of m. */
  ghost predicate MeetsKept(v: Valuation, m: Dbm) {
    |v| == |m| &&
    forall i: nat, j: nat {:trigger Kept(m, i, j)} :: i < |m| && j < |m| && Kept(m, i, j) ==> Sat(v[i] - v[j], m[i][j])
  }

  // ----- They suffice -----

  /** Down the chain of a class: from a to any later member. */
  lemma {:induction false} ChainForward(m: Dbm, v: Valuation, a: nat, b: nat)
    requires Canonical(m) && MeetsKept(v, m) && a <= b < |m| && Tied(m, a, b)
    ensures Sat(v[a] - v[b], m[a][b])
    decreases b - a
  {
    if a == b {
      assert m[a][a] == LE_ZERO;
    } else {
      var c := NextOf(m, a, b);
      assert Kept(m, a, c);
      TiedTransitive(m, a, c, b);
      ChainForward(m, v, c, b);
      TiedIsExact(m, a, c, b);
      SatAdd(v[a] - v[c], v[c] - v[b], m[a][c], m[c][b]);
    }
  }

  /** Round the cycle: from b on to the last member, back to the first, and on to a. */
  lemma ChainBackward(m: Dbm, v: Valuation, a: nat, b: nat)
    requires Canonical(m) && MeetsKept(v, m) && a < b < |m| && Tied(m, a, b)
    ensures Sat(v[b] - v[a], m[b][a])
  {
    var last := LastOf(m, b);
    var first := RepOf(m, a);
    TiedTransitive(m, first, a, b);
    TiedTransitive(m, b, first, last);
    TiedTransitive(m, b, a, first);
    assert Kept(m, last, first);
    ChainForward(m, v, b, last);
    ChainForward(m, v, first, a);
    TiedIsExact(m, b, last, first);
    TiedIsExact(m, b, first, a);
    SatAdd(v[b] - v[last], v[last] - v[first], m[b][last], m[last][first]);
    SatAdd(v[b] - v[first], v[first] - v[a], m[b][first], m[first][a]);
  }

  lemma WithinClass(m: Dbm, v: Valuation, a: nat, b: nat)
    requires Canonical(m) && MeetsKept(v, m) && a < |m| && b < |m| && Tied(m, a, b)
    ensures Sat(v[a] - v[b], m[a][b])
  {
    if a <= b {
      ChainForward(m, v, a, b);
    } else {
      ChainBackward(m, v, b, a);
    }
  }

  /** The representatives on some shortest way from p to q. */
  ghost function Between(m: Dbm, p: nat, q: nat): (s: set<int>)
    requires p < |m| && q < |m|
    ensures forall r: nat :: r in s <==> r < |m| && IsRep(m, r) && Implied(m, p, r, q)
  {
    set r: nat | r in Prefix(|m|) && IsRep(m, r) && Implied(m, p, r, q) :: r
  }

  /** A way is split by a third representative into two ways with strictly fewer representatives:
      otherwise two representatives would lie on a zero cycle. */
  lemma BetweenShrinks(m: Dbm, p: nat, r: nat, q: nat)
    requires Canonical(m) && p < |m| && q < |m| && r < |m| && IsRep(m, p) && IsRep(m, q) && IsRep(m, r)
    requires r != p && r != q && Implied(m, p, r, q)
    ensures Between(m, p, r) < Between(m, p, q) && Between(m, r, q) < Between(m, p, q)
  {
    assert m[p][p] == LE_ZERO && m[q][q] == LE_ZERO && m[r][r] == LE_ZERO;
    Triangle(m, p, r, q);
    forall s: nat | s in Between(m, p, r) ensures s in Between(m, p, q) {
      Triangle(m, s, r, q);
    }
    forall s: nat | s in Between(m, r, q) ensures s in Between(m, p, q) {
      Triangle(m, p, r, s);
    }
    assert q in Between(m, p, q) && p in Between(m, p, q);
    RepsAreNotTied(m, q, r);
    RepsAreNotTied(m, p, r);
    Triangle(m, r, q, r);
    Triangle(m, r, p, r);
    assert q !in Between(m, p, r);
    assert p !in Between(m, r, q);
  }

  /** Constraints between representatives follow from the kept ones although all redundant ones are
      dropped at once: each dropped one splits into two with fewer representatives in between. */
  lemma {:induction false} BetweenReps(m: Dbm, v: Valuation, p: nat, q: nat)
    requires Canonical(m) && MeetsKept(v, m) && p < |m| && q < |m|
    requires IsRep(m, p) && IsRep(m, q) && p != q
    ensures Sat(v[p] - v[q], m[p][q])
    decreases Between(m, p, q)
  {
    if m[p][q].Bound? {
      if KeptBetween(m, p, q) {
        assert Kept(m, p, q);
      } else {
        var r: nat :| r < |m| && IsRep(m, r) && r != p && r != q && Implied(m, p, r, q);
        BetweenShrinks(m, p, r, q);
        BetweenReps(m, v, p, r);
        BetweenReps(m, v, r, q);
        SatAdd(v[p] - v[r], v[r] - v[q], m[p][r], m[r][q]);
        SatLe(v[p] - v[q], Add(m[p][r], m[r][q]), m[p][q]);
      }
    }
  }

  /** The kept constraints imply all the others. */
  lemma KeptSuffice(m: Dbm, v: Valuation)
    requires Canonical(m) && MeetsKept(v, m)
    ensures Meets(v, m)
  {
    forall i, j {:trigger m[i][j]} | 0 <= i < |m| && 0 <= j < |m| ensures Sat(v[i] - v[j], m[i][j]) {
      var p := RepOf(m, i);
      var q := RepOf(m, j);
      WithinClass(m, v, i, p);
      WithinClass(m, v, q, j);
      TiedIsExact(m, i, p, j);
      TiedIsExact(m, j, q, p);
      if p == q {
        assert m[p][q] == LE_ZERO;
      } else {
        BetweenReps(m, v, p, q);
      }
      SatAdd(v[p] - v[q], v[q] - v[j], m[p][q], m[q][j]);
      SatAdd(v[i] - v[p], v[p] - v[j], m[i][p], m[p][j]);
    }
  }

  /** The matrix that holds the constraints of m selected by `bits` and no others. */
  ghost predicate IsSelection(m: Dbm, bits: set<(nat, nat)>, k: Dbm) {
    |k| == |m| && forall i, j {:trigger k[i][j]} :: 0 <= i < |m| && 0 <= j < |m| ==>
      k[i][j] == if i == j then LE_ZERO else if (i, j) in bits then m[i][j] else Inf
  }

  /** The pairs marked by the analysis. */
  ghost function KeptBits(m: Dbm): (s: set<(nat, nat)>)
    ensures forall i: nat, j: nat {:trigger (i, j) in s} :: (i, j) in s <==> i < |m| && j < |m| && Kept(m, i, j)
  {
    set i: nat, j: nat | i in Prefix(|m|) && j in Prefix(|m|) && Kept(m, i, j) :: (i, j)
  }

  lemma KeptIsOffDiagonal(m: Dbm, i: nat, j: nat)
    requires i < |m| && j < |m| && Kept(m, i, j)
    ensures i != j && m[i][j].Bound?
  {
  }

  /** Closing the kept constraints gives back the whole matrix. */
  lemma KeptCloseBack(m: Dbm, k: Dbm)
    requires Canonical(m) && IsSelection(m, KeptBits(m), k)
    ensures Closed(k) == m
  {
    forall v: Valuation ensures InZone(v, k) <==> InZone(v, m) {
      if InZone(v, k) {
        forall i: nat, j: nat | i < |m| && j < |m| && Kept(m, i, j) ensures Sat(v[i] - v[j], m[i][j]) {
          KeptIsOffDiagonal(m, i, j);
          MeetsAt(v, k, i, j);
        }
        KeptSuffice(m, v);
      }
      if InZone(v, m) {
        forall i, j {:trigger k[i][j]} | 0 <= i < |m| && 0 <= j < |m| ensures Sat(v[i] - v[j], k[i][j]) {
          MeetsAt(v, m, i, j);
        }
      }
    }
    Closing.CanonicalIsClosed(k, m);
  }

  // ----- None can go -----

  /** The bounds of c are not below those of m, and strictly above them on the pairs of X. */
  ghost predicate Above(m: Dbm, c: Dbm, X: iset<(nat, nat)>) {
    |c| == |m| &&
    (forall i, j {:trigger c[i][j]} :: 0 <= i < |m| && 0 <= j < |m| ==> Le(m[i][j], c[i][j])) &&
    (forall i: nat, j: nat {:trigger (i, j) in X} :: i < |m| && j < |m| && (i, j) in X ==> Lt(m[i][j], c[i][j]))
  }

  /** No detour through k reaches a pair of X as cheaply as m does without using a pair of X itself. */
  ghost predicate Guarded(m: Dbm, X: iset<(nat, nat)>, k: nat)
    requires k < |m|
  {
    forall x: nat, y: nat {:trigger (x, y) in X} :: x < |m| && y < |m| && (x, y) in X ==>
      || ((k, y) in X && m[x][k].Bound? && m[x][k].weak && m[x][y] == Add(m[x][k], m[k][y]))
      || ((x, k) in X && m[k][y].Bound? && m[k][y].weak && m[x][y] == Add(m[x][k], m[k][y]))
      || Lt(m[x][y], Add(m[x][k], m[k][y]))
  }

  lemma AddStrict(x: Raw, y: Raw, x': Raw, y': Raw)
    requires x.Bound? && x.weak && Le(x, x') && Lt(y, y')
    ensures Lt(Add(x, y), Add(x', y')) && Lt(Add(y, x), Add(y', x'))
  {
  }

  /** So closing never brings a pair of X back down to its bound in m. */
  lemma PivotStaysAbove(m: Dbm, c: Dbm, X: iset<(nat, nat)>, k: nat)
    requires Canonical(m) && Above(m, c, X) && k < |m| && Guarded(m, X, k)
    ensures Above(m, Pivot(c, k), X)
  {
    var c' := Pivot(c, k);
    forall i, j {:trigger c'[i][j]} | 0 <= i < |m| && 0 <= j < |m| ensures Le(m[i][j], c'[i][j]) {
      Triangle(m, i, k, j);
      assert Le(m[i][k], c[i][k]) && Le(m[k][j], c[k][j]);
      AddMonotone(m[i][k], c[i][k], m[k][j], c[k][j]);
    }
    forall x: nat, y: nat {:trigger (x, y) in X} | x < |m| && y < |m| && (x, y) in X ensures Lt(m[x][y], c'[x][y]) {
      assert Le(m[x][k], c[x][k]) && Le(m[k][y], c[k][y]);
      AddMonotone(m[x][k], c[x][k], m[k][y], c[k][y]);
      if (k, y) in X && m[x][k].Bound? && m[x][k].weak && m[x][y] == Add(m[x][k], m[k][y]) {
        AddStrict(m[x][k], m[k][y], c[x][k], c[k][y]);
      } else if (x, k) in X && m[k][y].Bound? && m[k][y].weak && m[x][y] == Add(m[x][k], m[k][y]) {
        AddStrict(m[k][y], m[x][k], c[k][y], c[x][k]);
      }
      assert Lt(m[x][y], Add(c[x][k], c[k][y]));
    }
  }

  ghost predicate AllGuarded(m: Dbm, X: iset<(nat, nat)>) {
    forall k: nat {:trigger Guarded(m, X, k)} :: k < |m| ==> Guarded(m, X, k)
  }

  lemma {:induction false} ClosingStaysAbove(m: Dbm, c: Dbm, X: iset<(nat, nat)>, T: set<int>, n: nat)
    requires Canonical(m) && Above(m, c, X) && n <= |m| == |c| && AllGuarded(m, X)
    ensures Above(m, CloseOver(c, T, n), X)
  {
    if n != 0 {
      ClosingStaysAbove(m, c, X, T, n - 1);
      assert Guarded(m, X, n - 1);
      StepStaysAbove(m, c, X, T, n - 1);
    } else {
      NothingStaysAbove(m, c, X, T, n);
    }
  }

  lemma NothingStaysAbove(m: Dbm, c: Dbm, X: iset<(nat, nat)>, T: set<int>, n: nat)
    requires n == 0 && |m| == |c| && Above(m, c, X)
    ensures Above(m, CloseOver(c, T, n), X)
  {
    CloseOverNothing(c, T, n);
  }

  lemma StepStaysAbove(m: Dbm, c: Dbm, X: iset<(nat, nat)>, T: set<int>, k: nat)
    requires Canonical(m) && k < |m| == |c| && Guarded(m, X, k) && Above(m, CloseOver(c, T, k), X)
    ensures Above(m, CloseOver(c, T, k + 1), X)
  {
    CloseOverStep(c, T, k);
    PivotStaysAbove(m, CloseOver(c, T, k), X, k);
  }

  /** For a kept constraint between the classes of p and q: all pairs from one class to the other. */
  ghost function AcrossPairs(m: Dbm, p: nat, q: nat): iset<(nat, nat)>
    requires p < |m| && q < |m|
  {
    iset x: nat, y: nat | x < |m| && y < |m| && Tied(m, p, x) && Tied(m, q, y) :: (x, y)
  }

  lemma AcrossGuarded(m: Dbm, p: nat, q: nat, k: nat)
    requires Canonical(m) && p < |m| && q < |m| && KeptBetween(m, p, q) && k < |m|
    ensures Guarded(m, AcrossPairs(m, p, q), k)
  {
    var X := AcrossPairs(m, p, q);
    forall x: nat, y: nat {:trigger (x, y) in X} | x < |m| && y < |m| && (x, y) in X
      ensures
        || ((k, y) in X && m[x][k].Bound? && m[x][k].weak && m[x][y] == Add(m[x][k], m[k][y]))
        || ((x, k) in X && m[k][y].Bound? && m[k][y].weak && m[x][y] == Add(m[x][k], m[k][y]))
        || Lt(m[x][y], Add(m[x][k], m[k][y]))
    {
      if Tied(m, p, k) {
        TiedTransitive(m, p, x, k);
        TiedIsExact(m, x, k, y);
      } else if Tied(m, q, k) {
        TiedTransitive(m, q, k, y);
        TiedIsExact(m, y, k, x);
      } else {
        DetourOutsideIsLonger(m, p, q, k, x, y);
      }
    }
  }

  lemma DetourOutsideIsLonger(m: Dbm, p: nat, q: nat, k: nat, x: nat, y: nat)
    requires Canonical(m) && p < |m| && q < |m| && KeptBetween(m, p, q) && k < |m| && x < |m| && y < |m|
    requires Tied(m, p, x) && Tied(m, q, y) && !Tied(m, p, k) && !Tied(m, q, k)
    ensures Lt(m[x][y], Add(m[x][k], m[k][y]))
  {
    var r := RepOf(m, k);
    assert r != p && r != q;
    assert !Implied(m, p, r, q);
    TiedIsExact(m, p, x, r);
    TiedIsExact(m, p, x, q);
    TiedIsExact(m, q, y, x);
    TiedIsExact(m, q, y, r);
    TiedIsExact(m, r, k, x);
    TiedIsExact(m, r, k, y);
  }

  /** For a constraint (s, e) of a class cycle: the pairs of the class that only go round through it.
      Positions are counted from the clock after s, so that s comes last. */
  function Position(n: nat, s: nat, x: nat): nat {
    if x > s then x else x + n
  }

  ghost function RoundPairs(m: Dbm, s: nat): iset<(nat, nat)>
    requires s < |m|
  {
    iset x: nat, y: nat | x < |m| && y < |m| && Tied(m, s, x) && Tied(m, s, y) &&
      Position(|m|, s, x) > Position(|m|, s, y) :: (x, y)
  }

  lemma RoundGuarded(m: Dbm, s: nat, k: nat)
    requires Canonical(m) && s < |m| && k < |m|
    ensures Guarded(m, RoundPairs(m, s), k)
  {
    var X := RoundPairs(m, s);
    forall x: nat, y: nat {:trigger (x, y) in X} | x < |m| && y < |m| && (x, y) in X
      ensures
        || ((k, y) in X && m[x][k].Bound? && m[x][k].weak && m[x][y] == Add(m[x][k], m[k][y]))
        || ((x, k) in X && m[k][y].Bound? && m[k][y].weak && m[x][y] == Add(m[x][k], m[k][y]))
        || Lt(m[x][y], Add(m[x][k], m[k][y]))
    {
      TiedTransitive(m, s, x, y);
      if Tied(m, s, k) {
        TiedTransitive(m, s, x, k);
        TiedTransitive(m, s, k, y);
        TiedIsExact(m, x, k, y);
        TiedIsExact(m, y, k, x);
      } else {
        TiedTransitive(m, s, x, k);
        TiedIsExact(m, x, y, k);
        assert m[x][x] == LE_ZERO;
        Triangle(m, x, k, x);
      }
    }
  }

  /** Removing a kept constraint changes the closure, and so the zone. */
  lemma NoneCanGo(m: Dbm, i: nat, j: nat, k: Dbm)
    requires Canonical(m) && i < |m| && j < |m| && Kept(m, i, j)
    requires IsSelection(m, KeptBits(m) - {(i, j)}, k)
    ensures Closed(k) != m && !SameZone(k, m)
  {
    var X := if KeptBetween(m, i, j) then AcrossPairs(m, i, j) else RoundPairs(m, i);
    assert (i, j) in X by {
      TiedReflexive(m, i);
      TiedReflexive(m, j);
    }
    assert Above(m, k, X) by {
      forall x, y {:trigger k[x][y]} | 0 <= x < |m| && 0 <= y < |m| ensures Le(m[x][y], k[x][y]) {
        assert x == y ==> m[x][y] == LE_ZERO;
      }
      forall x: nat, y: nat {:trigger (x, y) in X} | x < |m| && y < |m| && (x, y) in X ensures Lt(m[x][y], k[x][y]) {
        if KeptBetween(m, i, j) {
          AcrossPairsNotKept(m, i, j, x, y);
        } else {
          RoundPairsNotKept(m, i, j, x, y);
        }
      }
    }
    forall c: nat {:trigger Guarded(m, X, c)} | c < |m| ensures Guarded(m, X, c) {
      if KeptBetween(m, i, j) {
        AcrossGuarded(m, i, j, c);
      } else {
        RoundGuarded(m, i, c);
      }
    }
    ClosingStaysAbove(m, k, X, Prefix(|m|), |m|);
    if SameZone(k, m) {
      Closing.CanonicalIsClosed(k, m);
    }
  }

  lemma AcrossPairsNotKept(m: Dbm, p: nat, q: nat, x: nat, y: nat)
    requires Canonical(m) && p < |m| && q < |m| && KeptBetween(m, p, q)
    requires x < |m| && y < |m| && (x, y) in AcrossPairs(m, p, q)
    ensures x != y && m[x][y].Bound? && ((x, y) != (p, q) ==> !Kept(m, x, y))
  {
    RepsAreNotTied(m, p, q);
    TiedTransitive(m, p, x, q);
    TiedTransitive(m, q, y, x);
    TiedIsExact(m, p, x, q);
    TiedIsExact(m, q, y, x);
  }

  lemma RoundPairsNotKept(m: Dbm, s: nat, e: nat, x: nat, y: nat)
    requires Canonical(m) && s < |m| && e < |m| && KeptInCycle(m, s, e)
    requires x < |m| && y < |m| && (x, y) in RoundPairs(m, s)
    ensures x != y && m[x][y].Bound? && ((x, y) != (s, e) ==> !Kept(m, x, y))
  {
    TiedTransitive(m, s, x, y);
    TiedTransitive(m, s, x, e);
    TiedTransitive(m, s, y, e);
    if Kept(m, x, y) && (x, y) != (s, e) {
      if KeptBetween(m, x, y) {
        RepsAreNotTied(m, x, y);
      } else if IsNext(m, x, y) {
        TiedReflexive(m, s);
        TiedTransitive(m, s, x, s);
      } else {
        TiedReflexive(m, s);
        TiedTransitive(m, s, x, s);
        assert s <= x && y <= s;
        assert x == s && !IsNext(m, s, e);
        RepsAreNotTied(m, y, e);
      }
    }
  }
}
