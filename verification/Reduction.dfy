/** Reductions of federations: reduce, mergeReduce, expensiveReduce and convexReduce (src/fed.cpp).  Whatever
    the heuristics choose, the union of the zones stays the same and the list does not get longer.

    A position in the linked list (a pointer to the field that holds the next node) is an index here. */
module Reduction {
  import opened Bounds
  import opened Zones
  import Closure
  import opened Relations
  import opened Relaxing
  import Analysis
  import opened Federations
  import opened Subtraction

  // ----- Inclusion check -----

  /** The members before i are comparable with no later one. */
  ghost predicate IncomparableTo(F: Fed, i: nat) {
    forall x, y {:trigger F[x], F[y]} :: 0 <= x < i && x < y < |F| ==> Incomparable(F[x], F[y])
  }

  /** Member i is comparable with none of those from i + 1 to j. */
  ghost predicate IncomparableRow(F: Fed, i: nat, j: nat) {
    i < |F| && forall y {:trigger F[y]} :: i < y < j && y < |F| ==> Incomparable(F[i], F[y])
  }

  lemma IncomparableWithout(F: Fed, i: nat, k: nat)
    requires i <= k < |F| && IncomparableTo(F, i)
    ensures IncomparableTo(Without(F, k), i)
  {
    var G := Without(F, k);
    forall x, y {:trigger G[x], G[y]} | 0 <= x < i && x < y < |G| ensures Incomparable(G[x], G[y]) {
      assert G[x] == F[x] && G[y] == F[if y < k then y else y + 1];
    }
  }

  /** dbmlist_t::reduce: no member of the result lies in another. */
  method Reduce(F0: Fed, n: nat) returns (F: Fed)
    requires FedOK(F0, n)
    ensures Simplifies(F, F0, n) && IncomparableTo(F, |F|)
  {
    F := F0;
    var i := 0;
    while i < |F|
      invariant i <= |F| && Simplifies(F, F0, n) && IncomparableTo(F, i)
      decreases |F| - i
    {
      var removed;
      removed, F := ReduceRow(F, i, F0, n);
      if !removed {
        i := i + 1;
      }
    }
  }

  /** The loop on j of reduce. */
  method ReduceRow(F0: Fed, i: nat, ghost G: Fed, n: nat) returns (removed: bool, F: Fed)
    requires i < |F0| && Simplifies(F0, G, n) && IncomparableTo(F0, i)
    ensures Simplifies(F, G, n) && |F| <= |F0|
    ensures if removed then |F| < |F0| && i <= |F| && IncomparableTo(F, i) else i < |F| && IncomparableTo(F, i + 1)
  {
    F := F0;
    var j := i + 1;
    while j < |F|
      invariant i < j <= |F| <= |F0| && Simplifies(F, G, n) && IncomparableTo(F, i) && IncomparableRow(F, i, j)
      decreases |F| - j
    {
      var r := RelationOf(F[i], F[j]);
      match r
      case Different =>
        j := j + 1;
      case Superset | Equal =>
        SimplifyDrop(F, j, i, G, n);
        IncomparableWithout(F, i, j);
        F := Without(F, j);
      case Subset =>
        SimplifyDrop(F, i, j, G, n);
        IncomparableWithout(F, i, i);
        return true, Without(F, i);
    }
    return false, F;
  }

  // ----- Comparing two matrices -----

  /** What the loops over both matrices find out: that the zones cannot even touch, or how they are related
      and which of their opposite constraints agree. */
  datatype Comparison = TooFar | Compared(subset: bool, superset: bool, rowsOK: nat, compatible: bool, symCompatible: bool)

  ghost predicate PairBelow(m: Dbm, m': Dbm, i: nat, j: nat) {
    i < |m| && j < |m| && |m| == |m'| && Le(m[i][j], m'[i][j]) && Le(m[j][i], m'[j][i])
  }

  /** The pairs of the lower triangle before (i, j) are below. */
  ghost predicate PairsBelowSoFar(m: Dbm, m': Dbm, i: nat, j: nat) {
    forall x: nat, y: nat {:trigger PairBelow(m, m', x, y)} :: y < x < |m| && Before(x, y, i, j) ==> PairBelow(m, m', x, y)
  }

  lemma PairsBelowIsIncluded(m: Dbm, m': Dbm)
    requires Canonical(m) && Canonical(m') && |m| == |m'|
    ensures PairsBelowSoFar(m, m', |m|, 0) <==> Included(m, m')
  {
    Closure.InclusionIsEntrywise(m, m');
    if PairsBelowSoFar(m, m', |m|, 0) {
      forall i, j {:trigger m[i][j]} | 0 <= i < |m| && 0 <= j < |m| ensures Le(m[i][j], m'[i][j]) {
        assert i == j ==> m[i][i] == LE_ZERO && m'[i][i] == LE_ZERO;
        assert j < i ==> PairBelow(m, m', i, j);
        assert i < j ==> PairBelow(m, m', j, i);
      }
    }
  }

  lemma OnePairMore(m: Dbm, m': Dbm, i: nat, j: nat)
    requires |m| == |m'| && j < i < |m|
    ensures PairsBelowSoFar(m, m', i, j + 1) <==> PairsBelowSoFar(m, m', i, j) && Le(m[i][j], m'[i][j]) && Le(m[j][i], m'[j][i])
  {
    if PairsBelowSoFar(m, m', i, j + 1) {
      assert PairBelow(m, m', i, j);
    }
  }

  lemma NextPairRow(m: Dbm, m': Dbm, i: nat)
    ensures PairsBelowSoFar(m, m', i + 1, 0) <==> PairsBelowSoFar(m, m', i, i)
  {
  }

  // ----- Agreeing on bounds -----

  /** The matrices agree on both bounds of the pair (i, j). */
  predicate AgreesAt(m: Dbm, m': Dbm, i: nat, j: nat) {
    |m| == |m'| && i < |m| && j < |m| && m[i][j] == m'[i][j] && m[j][i] == m'[j][i]
  }

  /** They do so for clock i and one of the clocks below j. */
  ghost predicate RowAgrees(m: Dbm, m': Dbm, i: nat, j: nat) {
    exists y: nat {:trigger AgreesAt(m, m', i, y)} :: y < j && AgreesAt(m, m', i, y)
  }

  /** The number of clocks from 1 to i - 1 that agree with an earlier one. */
  ghost function RowsAgreeing(m: Dbm, m': Dbm, i: nat): nat {
    if i <= 1 then 0 else RowsAgreeing(m, m', i - 1) + if RowAgrees(m, m', i - 1, i - 1) then 1 else 0
  }

  /** Some pair before (i, j) agrees. */
  ghost predicate SomeAgrees(m: Dbm, m': Dbm, i: nat, j: nat) {
    exists x: nat, y: nat {:trigger AgreesAt(m, m', x, y)} :: y < x && Before(x, y, i, j) && AgreesAt(m, m', x, y)
  }

  /** The matrices agree on one of the bounds of the pair (i, j). */
  predicate AgreesOnOneAt(m: Dbm, m': Dbm, i: nat, j: nat) {
    |m| == |m'| && i < |m| && j < |m| && (m[i][j] == m'[i][j] || m[j][i] == m'[j][i])
  }

  ghost predicate SomeAgreesOnOne(m: Dbm, m': Dbm, i: nat, j: nat) {
    exists x: nat, y: nat {:trigger AgreesOnOneAt(m, m', x, y)} :: y < x && Before(x, y, i, j) && AgreesOnOneAt(m, m', x, y)
  }

  /** A bound of one matrix and the opposite one of the other leave no room. */
  predicate OpposedAt(m: Dbm, m': Dbm, i: nat, j: nat) {
    |m| == |m'| && i < |m| && j < |m| && (WeaklyOpposed(m[i][j], m'[j][i]) || WeaklyOpposed(m[j][i], m'[i][j]))
  }

  ghost predicate SomeOpposed(m: Dbm, m': Dbm, i: nat, j: nat) {
    exists x: nat, y: nat {:trigger OpposedAt(m, m', x, y)} :: y < x && Before(x, y, i, j) && OpposedAt(m, m', x, y)
  }

  lemma OpposedOneMore(m: Dbm, m': Dbm, i: nat, j: nat)
    requires |m| == |m'| && j < i < |m|
    ensures SomeOpposed(m, m', i, j + 1) <==> SomeOpposed(m, m', i, j) || OpposedAt(m, m', i, j)
    ensures OpposedAt(m, m', i, j) ==> SomeOpposed(m, m', |m|, 0)
  {
    assert OpposedAt(m, m', i, j) ==> Before(i, j, |m|, 0);
  }

  lemma NextOpposedRow(m: Dbm, m': Dbm, i: nat)
    ensures SomeOpposed(m, m', i + 1, 0) <==> SomeOpposed(m, m', i, i)
  {
  }

  lemma RowOneMore(m: Dbm, m': Dbm, i: nat, j: nat)
    ensures RowAgrees(m, m', i, j + 1) <==> RowAgrees(m, m', i, j) || AgreesAt(m, m', i, j)
  {
  }

  lemma AgreeOneMore(m: Dbm, m': Dbm, i: nat, j: nat)
    requires |m| == |m'| && j < i < |m|
    ensures SomeAgrees(m, m', i, j + 1) <==> SomeAgrees(m, m', i, j) || AgreesAt(m, m', i, j)
    ensures SomeAgreesOnOne(m, m', i, j + 1) <==> SomeAgreesOnOne(m, m', i, j) || AgreesOnOneAt(m, m', i, j)
  {
  }

  lemma NextAgreeRow(m: Dbm, m': Dbm, i: nat)
    requires |m| == |m'| && 0 < i < |m|
    ensures SomeAgrees(m, m', i + 1, 0) <==> SomeAgrees(m, m', i, i)
    ensures SomeAgreesOnOne(m, m', i + 1, 0) <==> SomeAgreesOnOne(m, m', i, i)
    ensures RowsAgreeing(m, m', i + 1) == RowsAgreeing(m, m', i) + if RowAgrees(m, m', i, i) then 1 else 0
  {
  }

  /** nbOK: with at most two clocks there is always one. */
  ghost function Rows(m: Dbm, m': Dbm): nat {
    (if |m| <= 2 then 1 else 0) + RowsAgreeing(m, m', |m|)
  }

  /** The matrices agree on both bounds of some pair of clocks, or there is only one pair. */
  ghost predicate AgreesSomewhere(m: Dbm, m': Dbm) {
    |m| <= 2 || SomeAgrees(m, m', |m|, 0)
  }

  // ----- Zones that touch -----

  /** h holds the points of m and those of m', and no others. */
  ghost predicate IsUnion(h: Dbm, m: Dbm, m': Dbm) {
    |h| == |m| == |m'| && forall v: Valuation {:trigger InZone(v, h)} :: InZone(v, h) <==> InZone(v, m) || InZone(v, m')
  }

  ghost predicate UnionIsZone(m: Dbm, m': Dbm) {
    exists h: Dbm {:trigger IsUnion(h, m, m')} :: IsUnion(h, m, m')
  }

  lemma TooFarIsApart(m: Dbm, m': Dbm, i: nat, j: nat)
    requires |m| == |m'| && i < |m| && j < |m| && WeaklyOpposed(m[i][j], m'[j][i])
    ensures Apart(m, m')
  {
    forall v: Valuation ensures !(InZone(v, m) && InZone(v, m')) {
      if InZone(v, m) && InZone(v, m') {
        MeetsAt(v, m, i, j);
        MeetsAt(v, m', j, i);
      }
    }
  }

  lemma WayMeets(h: Dbm, v: Valuation, w: Valuation, x: real)
    requires InZone(v, h) && InZone(w, h) && 0.0 < x <= 1.0
    ensures InZone(Toward(v, w, x), h)
  {
    var u := Toward(v, w, x);
    forall i, j {:trigger h[i][j]} | 0 <= i < |h| && 0 <= j < |h| ensures Sat(u[i] - u[j], h[i][j]) {
      MeetsAt(v, h, i, j);
      MeetsAt(w, h, i, j);
      WayDifference(v, w, x, i, j);
      WayMeetsBound(v[i] - v[j], w[i] - w[j], h[i][j], x);
    }
    StartsAtZero(v, w, x);
  }

  /** Between two numbers with a gap between them, a part of the way leads into the gap. */
  lemma IntoGap(d: real, e: real, c: real) returns (x: real)
    requires d < c < e
    ensures 0.0 < x <= 1.0 && d + x * (e - d) == c
  {
    x := (c - d) / (e - d);
    assert x * (e - d) == c - d;
    Fraction(c - d, e - d, x);
  }

  /** A zone that holds two opposed ones holds a point between them. */
  lemma OpposedUnion(m: Dbm, m': Dbm, i: nat, j: nat)
    requires Valid(m) && Valid(m') && |m| == |m'| && i < |m| && j < |m| && WeaklyOpposed(m[i][j], m'[j][i])
    ensures !UnionIsZone(m, m')
  {
    if UnionIsZone(m, m') {
      var h: Dbm :| IsUnion(h, m, m');
      var v := CanonicalHasPoint(m);
      var w := CanonicalHasPoint(m');
      var u := Between(m, m', h, v, w, i, j);
      assert false;
    }
  }

  lemma Between(m: Dbm, m': Dbm, h: Dbm, v: Valuation, w: Valuation, i: nat, j: nat) returns (u: Valuation)
    requires |h| == |m| == |m'| && i < |m| && j < |m| && WeaklyOpposed(m[i][j], m'[j][i])
    requires InZone(v, m) && InZone(w, m') && InZone(v, h) && InZone(w, h)
    ensures InZone(u, h) && !InZone(u, m) && !InZone(u, m')
  {
    MeetsAt(v, m, i, j);
    MeetsAt(w, m', j, i);
    var a, b := m[i][j].value as real, -(m'[j][i].value as real);
    var c := (a + b) / 2.0;
    GapBetween(v[i] - v[j], w[i] - w[j], m[i][j], m'[j][i]);
    var x := IntoGap(v[i] - v[j], w[i] - w[j], c);
    u := Toward(v, w, x);
    WayMeets(h, v, w, x);
    WayDifference(v, w, x, i, j);
    MissesBound(u, m, i, j);
    MissesBound(u, m', j, i);
  }

  /** The middle of the gap meets neither bound, and lies between the two differences. */
  lemma GapBetween(d: real, e: real, r: Raw, r': Raw)
    requires WeaklyOpposed(r, r') && Sat(d, r) && Sat(-e, r')
    ensures var c := (r.value as real + -(r'.value as real)) / 2.0; d < c < e && !Sat(c, r) && !Sat(-c, r')
  {
    assert r.value + r'.value < 0 ==> (r.value as real) < -(r'.value as real);
  }

  lemma MissesBound(u: Valuation, m: Dbm, i: nat, j: nat)
    requires |u| == |m| && i < |m| && j < |m| && !Sat(u[i] - u[j], m[i][j])
    ensures !InZone(u, m)
  {
  }

  lemma ApartIsIncomparable(m: Dbm, m': Dbm)
    requires Valid(m) && Valid(m') && Apart(m, m')
    ensures Incomparable(m, m')
  {
    var v := CanonicalHasPoint(m);
    var w := CanonicalHasPoint(m');
    assert !InZone(v, m') && !InZone(w, m);
  }

  datatype Flags = Flags(subset: bool, superset: bool, compatible: bool, symCompatible: bool)

  /** What there is to know about the pairs before (i, j). */
  ghost function FlagsTo(m: Dbm, m': Dbm, i: nat, j: nat): Flags {
    Flags(PairsBelowSoFar(m, m', i, j), PairsBelowSoFar(m', m, i, j),
          |m| <= 2 || SomeAgreesOnOne(m, m', i, j), |m| <= 2 || SomeAgrees(m, m', i, j))
  }

  /** The flags after one more pair: r and s are the bounds of the first matrix, r' and s' those of the second. */
  function NextFlags(f: Flags, r: Raw, s: Raw, r': Raw, s': Raw): Flags {
    Flags(f.subset && Le(r, r') && Le(s, s'), f.superset && Le(r', r) && Le(s', s),
          f.compatible || r == r' || s == s', f.symCompatible || (r == r' && s == s'))
  }

  lemma ScanOneMore(m: Dbm, m': Dbm, i: nat, j: nat)
    requires |m| == |m'| && j < i < |m|
    ensures FlagsTo(m, m', i, j + 1) == NextFlags(FlagsTo(m, m', i, j), m[i][j], m[j][i], m'[i][j], m'[j][i])
  {
    OnePairMore(m, m', i, j);
    OnePairMore(m', m, i, j);
    AgreeOneMore(m, m', i, j);
  }

  lemma ScanNextRow(m: Dbm, m': Dbm, i: nat)
    requires |m| == |m'| && 0 < i < |m|
    ensures FlagsTo(m, m', i + 1, 0) == FlagsTo(m, m', i, i)
    ensures RowsAgreeing(m, m', i + 1) == RowsAgreeing(m, m', i) + if RowAgrees(m, m', i, i) then 1 else 0
  {
    NextPairRow(m, m', i);
    NextPairRow(m', m, i);
    NextAgreeRow(m, m', i);
  }

  lemma ScanStarts(m: Dbm, m': Dbm, i: nat)
    requires i == 1
    ensures FlagsTo(m, m', i, 0) == Flags(true, true, |m| <= 2, |m| <= 2) && RowsAgreeing(m, m', i) == 0 && !SomeOpposed(m, m', i, 0)
  {
  }

  /** The loops on i and j shared by mergeReduce and convexReduce. */
  method Compare(m: Dbm, m': Dbm) returns (c: Comparison)
    requires Valid(m) && Valid(m') && |m| == |m'|
    ensures c.TooFar? <==> SomeOpposed(m, m', |m|, 0)
    ensures c.TooFar? ==> Apart(m, m') && Incomparable(m, m') && !UnionIsZone(m, m')
    ensures c.Compared? ==> (c.subset <==> Included(m, m')) && (c.superset <==> Included(m', m)) && c.rowsOK == Rows(m, m')
    ensures c.Compared? ==> (c.symCompatible <==> AgreesSomewhere(m, m')) && (c.compatible <==> |m| <= 2 || SomeAgreesOnOne(m, m', |m|, 0))
  {
    var f := Flags(true, true, |m| <= 2, |m| <= 2);
    var rowsOK := if |m| <= 2 then 1 else 0;
    var i := 1;
    ScanStarts(m, m', i);
    while i < |m|
      invariant 1 <= i <= |m| && f == FlagsTo(m, m', i, 0) && !SomeOpposed(m, m', i, 0)
      invariant rowsOK == (if |m| <= 2 then 1 else 0) + RowsAgreeing(m, m', i)
    {
      var tooFar, constraintsOK;
      tooFar, constraintsOK, f := CompareRow(m, m', i, f);
      if tooFar {
        OpposedIsApart(m, m');
        return TooFar;
      }
      ScanNextRow(m, m', i);
      NextOpposedRow(m, m', i);
      rowsOK := rowsOK + if constraintsOK then 1 else 0;
      i := i + 1;
    }
    PairsBelowIsIncluded(m, m');
    PairsBelowIsIncluded(m', m);
    return Compared(f.subset, f.superset, rowsOK, f.compatible, f.symCompatible);
  }

  /** The loop on j. */
  method CompareRow(m: Dbm, m': Dbm, i: nat, f0: Flags) returns (tooFar: bool, constraintsOK: bool, f: Flags)
    requires Valid(m) && Valid(m') && |m| == |m'| && i < |m| && f0 == FlagsTo(m, m', i, 0)
    requires !SomeOpposed(m, m', i, 0)
    ensures tooFar ==> SomeOpposed(m, m', |m|, 0)
    ensures !tooFar ==> f == FlagsTo(m, m', i, i) && (constraintsOK <==> RowAgrees(m, m', i, i)) && !SomeOpposed(m, m', i, i)
  {
    tooFar, constraintsOK, f := false, false, f0;
    var j := 0;
    while j < i
      invariant 0 <= j <= i && f == FlagsTo(m, m', i, j) && (constraintsOK <==> RowAgrees(m, m', i, j)) && !SomeOpposed(m, m', i, j)
    {
      OpposedOneMore(m, m', i, j);
      if WeaklyOpposed(m[i][j], m'[j][i]) || WeaklyOpposed(m[j][i], m'[i][j]) {
        tooFar := true;
        return;
      }
      ScanOneMore(m, m', i, j);
      RowOneMore(m, m', i, j);
      f := NextFlags(f, m[i][j], m[j][i], m'[i][j], m'[j][i]);
      constraintsOK := constraintsOK || (m[i][j] == m'[i][j] && m[j][i] == m'[j][i]);
      j := j + 1;
    }
    assert j == i;
  }

  lemma OpposedIsApart(m: Dbm, m': Dbm)
    requires Valid(m) && Valid(m') && |m| == |m'| && SomeOpposed(m, m', |m|, 0)
    ensures Apart(m, m') && Incomparable(m, m') && !UnionIsZone(m, m')
  {
    var x: nat, y: nat :| y < x && Before(x, y, |m|, 0) && OpposedAt(m, m', x, y);
    FoundTooFar(m, m', x, y);
  }

  lemma FoundTooFar(m: Dbm, m': Dbm, i: nat, j: nat)
    requires Valid(m) && Valid(m') && |m| == |m'| && i < |m| && j < |m|
    requires WeaklyOpposed(m[i][j], m'[j][i]) || WeaklyOpposed(m[j][i], m'[i][j])
    ensures Apart(m, m') && Incomparable(m, m') && !UnionIsZone(m, m')
  {
    if WeaklyOpposed(m[i][j], m'[j][i]) {
      TooFarIsApart(m, m', i, j);
      OpposedUnion(m, m', i, j);
    } else {
      TooFarIsApart(m, m', j, i);
      OpposedUnion(m, m', j, i);
    }
    ApartIsIncomparable(m, m');
  }

  // ----- Merging by pairs -----

  /** What replacing members by others may do to a list. */
  ghost predicate Reduces(F: Fed, G: Fed, n: nat) {
    FedOK(F, n) && SameFed(F, G) && |F| <= |G|
  }

  /** The list with h in place of the members i and j. */
  function Merged(F: Fed, i: nat, j: nat, h: Dbm): Fed
    requires i < |F| && j < |F|
  {
    Without(F[i := h], j)
  }

  lemma MergeKeepsUnion(F: Fed, i: nat, j: nat, h: Dbm, n: nat)
    requires FedOK(F, n) && i < |F| && j < |F| && i != j && |h| == n && Valid(h)
    requires Included(F[i], h) && Included(F[j], h) && forall v: Valuation :: InZone(v, h) ==> InFed(v, F)
    ensures FedOK(Merged(F, i, j, h), n) && SameFed(Merged(F, i, j, h), F)
  {
    var H := F[i := h];
    forall v: Valuation ensures InFed(v, Merged(F, i, j, h)) <==> InFed(v, F) {
      InFedWithout(v, F, i);
      InFedWithout(v, H, i);
      assert Without(H, i) == Without(F, i);
      InFedWithout(v, H, j);
      assert Without(H, j)[if i < j then i else i - 1] == h;
    }
  }

  /** All members lie in m: comparison of a federation with one matrix. */
  method AllBelow(F: Fed, m: Dbm, n: nat) returns (r: bool)
    requires FedOK(F, n) && |m| == n && Valid(m)
    ensures r <==> forall v: Valuation {:trigger InFed(v, F)} :: InFed(v, F) ==> InZone(v, m)
  {
    var k := 0;
    while k < |F|
      invariant 0 <= k <= |F| && forall l {:trigger F[l]} :: 0 <= l < k ==> Included(F[l], m)
    {
      var below := IsBelow(F[k], m);
      if !below {
        ghost var v: Valuation :| InZone(v, F[k]) && !InZone(v, m);
        assert InFed(v, F);
        return false;
      }
      k := k + 1;
    }
    return true;
  }

  /** fed_t::removeIncludedIn: drop the members that lie in m, and no others. */
  method RemoveIncludedIn(F0: Fed, m: Dbm, n: nat) returns (F: Fed)
    requires FedOK(F0, n) && |m| == n && Valid(m)
    ensures FedOK(F, n) && forall v: Valuation :: InFed(v, F0) ==> InFed(v, F) || InZone(v, m)
    ensures forall k {:trigger F[k]} :: 0 <= k < |F| ==> F[k] in F0 && !Included(F[k], m)
  {
    F := F0;
    var k := 0;
    while k < |F|
      invariant k <= |F| && FedOK(F, n)
      invariant forall v: Valuation :: InFed(v, F0) ==> InFed(v, F) || InZone(v, m)
      invariant forall l {:trigger F[l]} :: 0 <= l < |F| ==> F[l] in F0 && (l < k ==> !Included(F[l], m))
      decreases |F| - k
    {
      var below := IsBelow(F[k], m);
      if below {
        forall v: Valuation | InFed(v, F0) ensures InFed(v, Without(F, k)) || InZone(v, m) {
          InFedWithout(v, F, k);
        }
        F := Without(F, k);
      } else {
        k := k + 1;
      }
    }
  }

  /** Every point of h lies in one of the two zones. */
  ghost predicate HullAddsNothing(h: Dbm, m: Dbm, m': Dbm) {
    forall v: Valuation {:trigger InZone(v, h)} :: InZone(v, h) ==> InZone(v, m) || InZone(v, m')
  }

  /** The least zone that holds both adds nothing to two zones whose union is a zone. */
  lemma UnionIsHull(h: Dbm, m: Dbm, m': Dbm)
    requires |m| == |m'| && UnionIsZone(m, m') && forall g: Dbm :: Included(m, g) && Included(m', g) ==> Included(h, g)
    ensures HullAddsNothing(h, m, m')
  {
    var g: Dbm :| IsUnion(g, m, m');
    assert Included(m, g) && Included(m', g);
  }

  /** Does the convex hull h of members i and j only add points that are in the list?  At level 0 only the two
      members are looked at, at higher levels all others are tried too. */
  method SafeMerge(F: Fed, i: nat, j: nat, h: Dbm, level: int, n: nat) returns (safe: bool)
    requires FedOK(F, n) && i < |F| && j < |F| && |h| == n && Valid(h) && n <= Analysis.NONE
    ensures safe ==> forall v: Valuation :: InZone(v, h) ==> InFed(v, F)
    ensures HullAddsNothing(h, F[i], F[j]) || (level != 0 && level != 1 && HullWithin(h, F)) ==> safe
  {
    var fc := SubtractDbm([h], F[i], n);
    forall v: Valuation ensures InFed(v, [h]) <==> InZone(v, h) {
      InFedOne(v, h);
    }
    safe := AllBelow(fc, F[j], n);
    if !safe && level != 0 {
      safe := OthersCoverRest(F, fc, i, j, h, level, n);
    }
  }

  ghost predicate HullWithin(h: Dbm, F: Fed) {
    forall v: Valuation {:trigger InZone(v, h)} :: InZone(v, h) ==> InFed(v, F)
  }

  /** The points of fc are points of h outside the members i and j, and outside the first k members. */
  ghost predicate Uncovered(fc: Fed, F: Fed, i: nat, j: nat, k: nat, h: Dbm) {
    forall v: Valuation {:trigger InFed(v, fc)} :: InFed(v, fc) ==>
      InZone(v, h) && forall l {:trigger F[l]} :: 0 <= l < |F| && (l < k || l == i || l == j) ==> !InZone(v, F[l])
  }

  lemma StillUncovered(fc: Fed, F: Fed, i: nat, j: nat, h: Dbm, n: nat)
    requires FedOK(fc, n) && |fc| > 0 && Uncovered(fc, F, i, j, |F|, h)
    ensures !HullWithin(h, F)
  {
    EmptyFed(fc, n);
    var v: Valuation :| InFed(v, fc);
    assert InZone(v, h) && !InFed(v, F);
  }

  /** What h adds to the members i and j is looked for in the others. */
  method OthersCoverRest(F: Fed, fc0: Fed, i: nat, j: nat, h: Dbm, level: int, n: nat) returns (safe: bool)
    requires FedOK(F, n) && FedOK(fc0, n) && i < |F| && j < |F| && n <= Analysis.NONE
    requires forall v: Valuation {:trigger InFed(v, fc0)} :: InFed(v, fc0) <==> InZone(v, h) && !InZone(v, F[i])
    requires exists v: Valuation :: InFed(v, fc0) && !InZone(v, F[j])
    ensures safe ==> HullWithin(h, F)
    ensures level != 1 && HullWithin(h, F) ==> safe
  {
    var fc := RestOfHull(F, fc0, i, j, h, n);
    var k := 0;
    while k < |F|
      invariant 0 <= k <= |F| && FedOK(fc, n) && |fc| > 0 && Remains(fc, F, h) && (level != 1 ==> Uncovered(fc, F, i, j, k, h))
    {
      if k != i && k != j {
        fc := CoverOne(fc, F, i, j, k, h, level, n);
        if |fc| == 0 {
          NothingRemains(fc, F, h);
          return true;
        }
      }
      k := k + 1;
    }
    if level != 1 {
      StillUncovered(fc, F, i, j, h, n);
    }
    return false;
  }

  /** fc -= dbmj */
  method RestOfHull(F: Fed, fc0: Fed, i: nat, j: nat, h: Dbm, n: nat) returns (fc: Fed)
    requires FedOK(F, n) && FedOK(fc0, n) && i < |F| && j < |F| && n <= Analysis.NONE
    requires forall v: Valuation {:trigger InFed(v, fc0)} :: InFed(v, fc0) <==> InZone(v, h) && !InZone(v, F[i])
    requires exists v: Valuation :: InFed(v, fc0) && !InZone(v, F[j])
    ensures FedOK(fc, n) && |fc| > 0 && Remains(fc, F, h) && Uncovered(fc, F, i, j, 0, h)
  {
    fc := SubtractDbm(fc0, F[j], n);
    EmptyFed(fc, n);
    ghost var w: Valuation :| InFed(w, fc0) && !InZone(w, F[j]);
    assert InFed(w, fc);
    forall v: Valuation {:trigger InZone(v, h)} | InZone(v, h) ensures InFed(v, fc) || InFed(v, F) {
      assert InFed(v, fc0) || InZone(v, F[i]);
      assert InFed(v, fc) || InZone(v, F[i]) || InZone(v, F[j]);
    }
  }

  /** What member k covers is taken away, or at level 1 what lies in it as a whole. */
  method CoverOne(fc0: Fed, F: Fed, i: nat, j: nat, k: nat, h: Dbm, level: int, n: nat) returns (fc: Fed)
    requires FedOK(F, n) && FedOK(fc0, n) && k < |F| && n <= Analysis.NONE
    requires Remains(fc0, F, h) && (level != 1 ==> Uncovered(fc0, F, i, j, k, h))
    ensures FedOK(fc, n) && Remains(fc, F, h) && (level != 1 ==> Uncovered(fc, F, i, j, k + 1, h))
  {
    if level == 1 {
      fc := RemoveIncludedIn(fc0, F[k], n);
    } else {
      fc := SubtractDbm(fc0, F[k], n);
    }
    StillRemains(fc0, fc, F, k, h);
  }

  lemma NothingRemains(fc: Fed, F: Fed, h: Dbm)
    requires |fc| == 0 && Remains(fc, F, h)
    ensures HullWithin(h, F)
  {
  }

  /** Every point of h that is not in the list is in fc. */
  ghost predicate Remains(fc: Fed, F: Fed, h: Dbm) {
    forall v: Valuation {:trigger InZone(v, h)} :: InZone(v, h) ==> InFed(v, fc) || InFed(v, F)
  }

  lemma StillRemains(before: Fed, fc: Fed, F: Fed, k: nat, h: Dbm)
    requires Remains(before, F, h) && k < |F| && forall v: Valuation {:trigger InFed(v, before)} :: InFed(v, before) ==> InFed(v, fc) || InZone(v, F[k])
    ensures Remains(fc, F, h)
  {
    forall v: Valuation {:trigger InZone(v, h)} | InZone(v, h) ensures InFed(v, fc) || InFed(v, F) {
      assert InFed(v, before) ==> InFed(v, fc) || InZone(v, F[k]);
    }
  }

  /** The matrices agree on enough bounds for a merge to be tried. */
  ghost predicate EnoughRows(m: Dbm, m': Dbm, level: int, restrictedMerge: bool) {
    if level != 0 || !restrictedMerge then Rows(m, m') > 0 else Rows(m, m') + 2 >= |m|
  }

  /** Some zone holds both and stays within the union of G. */
  ghost predicate ZoneWithin(m: Dbm, m': Dbm, G: Fed) {
    exists g: Dbm {:trigger HullWithin(g, G)} :: Included(m, g) && Included(m', g) && HullWithin(g, G)
  }

  /** Two members of a list with the union of G can be merged: their union is a zone; or, at levels above 1, they are not
      opposed and some zone that holds both stays within the union of the list. */
  ghost predicate CanMerge(m: Dbm, m': Dbm, level: int, G: Fed) {
    UnionIsZone(m, m') || (level != 0 && level != 1 && !SomeOpposed(m, m', |m|, 0) && ZoneWithin(m, m', G))
  }

  /** Neither zone lies in the other, and they agree on too few bounds or cannot be merged. */
  ghost predicate StayApart(m: Dbm, m': Dbm, level: int, restrictedMerge: bool, G: Fed) {
    Incomparable(m, m') && !(EnoughRows(m, m', level, restrictedMerge) && CanMerge(m, m', level, G))
  }

  /** Each member from position head up to i stays apart from all before it. */
  ghost predicate MergedFrom(F: Fed, head: nat, i: nat, level: int, restrictedMerge: bool, G: Fed) {
    forall x, y {:trigger F[x], F[y]} :: 0 <= x < y < i && head <= y < |F| ==> StayApart(F[y], F[x], level, restrictedMerge, G)
  }

  lemma MergedWithout(F: Fed, k: nat, head: nat, i: nat, level: int, restrictedMerge: bool, G0: Fed)
    requires k < i <= |F| && MergedFrom(F, head, i, level, restrictedMerge, G0)
    ensures MergedFrom(Without(F, k), if k < head then head - 1 else head, i - 1, level, restrictedMerge, G0)
  {
    var G := Without(F, k);
    var head' := if k < head then head - 1 else head;
    forall x, y {:trigger G[x], G[y]} | 0 <= x < y < i - 1 && head' <= y < |G| ensures StayApart(G[y], G[x], level, restrictedMerge, G0) {
      assert G[x] == F[if x < k then x else x + 1] && G[y] == F[if y < k then y else y + 1];
    }
  }

  /** mergeReduce: jumpi members at the head are assumed to be reduced already.  No member behind them, that is, behind
      those of them that are left, lies in an earlier one, holds it or could be merged with it. */
  method MergeReduce(F0: Fed, n: nat, jumpi: nat, level: int, restrictedMerge: bool) returns (F: Fed)
    requires FedOK(F0, n) && n <= Analysis.NONE
    ensures Reduces(F, F0, n) && (|F| == |F0| ==> F == F0)
    ensures exists head: nat {:trigger MergedFrom(F, head, |F|, level, restrictedMerge, F0)} ::
      head <= jumpi && MergedFrom(F, head, |F|, level, restrictedMerge, F0)
  {
    F := F0;
    ghost var head: nat := jumpi;
    if |F| <= 1 || jumpi > |F| {
      assert MergedFrom(F, head, |F|, level, restrictedMerge, F0);
      return;
    }
    var i: nat := jumpi;
    while i < |F|
      invariant head <= i <= |F| && Reduces(F, F0, n) && (|F| == |F0| ==> F == F0)
      invariant head <= jumpi && MergedFrom(F, head, i, level, restrictedMerge, F0)
      decreases |F| - i
    {
      var removed;
      removed, F, i, head := MergeRow(F, i, head, F0, n, level, restrictedMerge);
      if !removed {
        i := i + 1;
      }
    }
  }

  /** Member i stays apart from the first j members. */
  ghost predicate RowMerged(F: Fed, i: nat, j: nat, level: int, restrictedMerge: bool, G: Fed) {
    i < |F| && forall x {:trigger F[x]} :: 0 <= x < j && x < |F| ==> StayApart(F[i], F[x], level, restrictedMerge, G)
  }

  /** The list while member i is compared with the first j members. */
  ghost predicate Merging(F: Fed, i: nat, j: nat, head: nat, G: Fed, n: nat, level: int, restrictedMerge: bool) {
    head <= i && j <= i < |F| && Reduces(F, G, n) && (|F| == |G| ==> F == G) &&
    MergedFrom(F, head, i, level, restrictedMerge, G) && RowMerged(F, i, j, level, restrictedMerge, G)
  }

  /** The loop on j of mergeReduce: compare member i with all before it. */
  method MergeRow(F0: Fed, i0: nat, ghost head0: nat, ghost G: Fed, n: nat, level: int, restrictedMerge: bool)
    returns (removed: bool, F: Fed, i: nat, ghost head: nat)
    requires Merging(F0, i0, 0, head0, G, n, level, restrictedMerge) && n <= Analysis.NONE
    ensures Reduces(F, G, n) && (if removed then |F| - i < |F0| - i0 && i <= |F| else |F| - i == |F0| - i0 && i < |F|)
    ensures (|F| == |G| ==> F == G) && head <= i && head <= head0
    ensures MergedFrom(F, head, if removed then i else i + 1, level, restrictedMerge, G)
  {
    F, i, head := F0, i0, head0;
    var j: nat := 0;
    while j < i
      invariant Merging(F, i, j, head, G, n, level, restrictedMerge) && |F| - i == |F0| - i0 && head <= head0
      decreases |F|, i - j
    {
      removed, F, i, j, head := MergeOne(F, i, j, head, G, n, level, restrictedMerge);
      if removed {
        return;
      }
    }
    removed := false;
  }

  /** Compare member i with member j. */
  method MergeOne(F0: Fed, i0: nat, j0: nat, ghost head0: nat, ghost G: Fed, n: nat, level: int, restrictedMerge: bool)
    returns (removed: bool, F: Fed, i: nat, j: nat, ghost head: nat)
    requires Merging(F0, i0, j0, head0, G, n, level, restrictedMerge) && j0 < i0 && n <= Analysis.NONE
    ensures head <= head0
    ensures removed ==> i == i0 && |F| == |F0| - 1 && head <= i <= |F| && Reduces(F, G, n) && MergedFrom(F, head, i, level, restrictedMerge, G)
    ensures !removed ==> Merging(F, i, j, head, G, n, level, restrictedMerge) && |F| - i == |F0| - i0
    ensures !removed ==> |F| < |F0| || (|F| == |F0| && i == i0 && j == j0 + 1)
  {
    removed, F, i, j, head := false, F0, i0, j0, head0;
    var c := Compare(F[i], F[j]);
    if c.TooFar? {
      j := j + 1;
    } else if c.subset {
      ReduceDrop(F, i, j, G, n);
      removed, F := true, Without(F, i);
    } else if c.superset {
      ReduceDrop(F, j, i, G, n);
      F, i, head := DropEarlier(F, i, j, head, level, restrictedMerge, G);
    } else if if level != 0 || !restrictedMerge then c.rowsOK > 0 else c.rowsOK + 2 >= n {
      F, i, j, head := MergePair(F, i, j, head, G, n, level, restrictedMerge);
    } else {
      j := j + 1;
    }
  }

  /** Replace members i and j by their convex hull if that is safe, and start again from the beginning. */
  method MergePair(F0: Fed, i0: nat, j0: nat, ghost head0: nat, ghost G: Fed, n: nat, level: int, restrictedMerge: bool)
    returns (F: Fed, i: nat, j: nat, ghost head: nat)
    requires Merging(F0, i0, j0, head0, G, n, level, restrictedMerge) && j0 < i0 && n <= Analysis.NONE && Incomparable(F0[i0], F0[j0])
    ensures head <= head0 && Merging(F, i, j, head, G, n, level, restrictedMerge) && |F| - i == |F0| - i0
    ensures |F| < |F0| || (|F| == |F0| && i == i0 && j == j0 + 1)
  {
    F, i, j, head := F0, i0, j0, head0;
    var h, safe := TryMerge(F, i, j, level, G, n);
    if safe {
      MergeKeepsUnion(F, i, j, h, n);
      MergedWithout(F[i := h], j, head, i, level, restrictedMerge, G);
      head := if j < head then head - 1 else head;
      F, i, j := Merged(F, i, j, h), i - 1, 0;
    } else {
      j := j + 1;
    }
  }

  /** Member j lies in member i and is dropped. */
  method DropEarlier(F0: Fed, i0: nat, j: nat, ghost head0: nat, level: int, restrictedMerge: bool, ghost G: Fed) returns (F: Fed, i: nat, ghost head: nat)
    requires j < i0 < |F0| && head0 <= i0 && MergedFrom(F0, head0, i0, level, restrictedMerge, G)
    requires RowMerged(F0, i0, j, level, restrictedMerge, G)
    ensures F == Without(F0, j) && i == i0 - 1 && head <= i && head <= head0 && MergedFrom(F, head, i, level, restrictedMerge, G)
    ensures RowMerged(F, i, j, level, restrictedMerge, G)
  {
    MergedWithout(F0, j, head0, i0, level, restrictedMerge, G);
    return Without(F0, j), i0 - 1, if j < head0 then head0 - 1 else head0;
  }

  lemma HullIsWithin(h: Dbm, m: Dbm, m': Dbm, F: Fed, G: Fed)
    requires ZoneWithin(m, m', G) && SameFed(F, G) && forall g: Dbm :: Included(m, g) && Included(m', g) ==> Included(h, g)
    ensures HullWithin(h, F)
  {
    var g: Dbm :| Included(m, g) && Included(m', g) && HullWithin(g, G);
    forall v: Valuation {:trigger InZone(v, h)} | InZone(v, h) ensures InFed(v, F) {
      assert InZone(v, g);
    }
  }

  /** The convex hull of two members, and whether it may replace them. */
  method TryMerge(F: Fed, i: nat, j: nat, level: int, ghost G: Fed, n: nat) returns (h: Dbm, safe: bool)
    requires FedOK(F, n) && j < i < |F| && n <= Analysis.NONE && SameFed(F, G)
    ensures |h| == n && Valid(h) && Included(F[i], h) && Included(F[j], h)
    ensures safe ==> forall v: Valuation :: InZone(v, h) ==> InFed(v, F)
    ensures CanMerge(F[i], F[j], level, G) ==> safe
  {
    h := Hull(F[i], F[j]);
    safe := SafeMerge(F, i, j, h, level, n);
    if UnionIsZone(F[i], F[j]) {
      UnionIsHull(h, F[i], F[j]);
    } else if ZoneWithin(F[i], F[j], G) {
      HullIsWithin(h, F[i], F[j], F, G);
    }
  }

  lemma ReduceDrop(F: Fed, k: nat, l: nat, G: Fed, n: nat)
    requires Reduces(F, G, n) && k < |F| && l < |F| && k != l && Included(F[k], F[l])
    ensures Reduces(Without(F, k), G, n)
  {
    DropCovered(F, k, l, n);
    SameFedTrans(Without(F, k), F, G);
  }

  // ----- Inclusion in the union of the others -----

  /** F - G is empty */
  method IsSubtractionEmpty(F: Fed, G: Fed, n: nat) returns (r: bool)
    requires FedOK(F, n) && FedOK(G, n) && n <= Analysis.NONE
    ensures r <==> Covers(G, F)
  {
    var d := SubtractFed(F, G, n);
    EmptyFed(d, n);
    return |d| == 0;
  }

  /** expensiveReduce: drop members that lie in the union of the others.  `same` tells whether the head of the
      list is still the matrix it was (dbm_t::sameAs). */
  method ExpensiveReduce(F0: Fed, n: nat) returns (F: Fed, same: bool)
    requires FedOK(F0, n) && n <= Analysis.NONE
    ensures Reduces(F, F0, n) && (|F0| > 0 ==> |F| > 0) && (|F| == |F0| ==> F == F0)
    ensures if same then |F0| > 0 ==> F[0] == F0[0] else |F| < |F0|
    ensures NoneCovered(F, |F|)
  {
    F, same := F0, true;
    var k := 0;
    while k < |F| && |F| > 1
      invariant k <= |F| && Reduces(F, F0, n) && (|F0| > 0 ==> |F| > 0) && (|F| == |F0| ==> F == F0)
      invariant if same then |F0| > 0 ==> F[0] == F0[0] else |F| < |F0|
      invariant NoneCovered(F, k)
      decreases |F| - k
    {
      var current, rest := F[k], Without(F, k);
      FedOKWithout(F, k, n);
      var covers := IsSubtractionEmpty(rest, [current], n);
      if covers {
        OneCoversAll(F, k, n);
        SameFedTrans([current], F, F0);
        AloneIsNotCovered([current], n);
        return [current], same && k == 0;
      }
      var covered := IsSubtractionEmpty([current], rest, n);
      if covered {
        OthersCover(F, k, n);
        SameFedTrans(rest, F, F0);
        NotCoveredByFewer(F, k);
        same := same && k != 0;
        F := rest;
      } else {
        k := k + 1;
      }
    }
    if |F| == 1 {
      AloneIsNotCovered(F, n);
    }
  }

  /** None of the first k members lies in the union of the others. */
  ghost predicate NoneCovered(F: Fed, k: nat) {
    forall x: nat {:trigger Without(F, x)} :: x < k && x < |F| ==> !Covers(Without(F, x), [F[x]])
  }

  lemma AloneIsNotCovered(F: Fed, n: nat)
    requires FedOK(F, n) && |F| == 1
    ensures NoneCovered(F, 1)
  {
    var v := CanonicalHasPoint(F[0]);
    InFedOne(v, F[0]);
    assert !InFed(v, Without(F, 0));
  }

  /** Dropping a later member does not make the others cover an earlier one. */
  lemma NotCoveredByFewer(F: Fed, k: nat)
    requires k < |F| && NoneCovered(F, k)
    ensures NoneCovered(Without(F, k), k)
  {
    var G := Without(F, k);
    forall x: nat {:trigger Without(G, x)} | x < k && x < |G| ensures !Covers(Without(G, x), [G[x]]) {
      assert G[x] == F[x];
      var v: Valuation :| InFed(v, [F[x]]) && !InFed(v, Without(F, x));
      if InFed(v, Without(G, x)) {
        FewerHold(F, k, x, v);
      }
    }
  }

  lemma FewerHold(F: Fed, k: nat, x: nat, v: Valuation)
    requires x < k < |F| && InFed(v, Without(Without(F, k), x))
    ensures InFed(v, Without(F, x))
  {
    var G, H := Without(Without(F, k), x), Without(F, x);
    var l :| 0 <= l < |G| && InZone(v, G[l]);
    assert G[l] == H[if l < k - 1 then l else l + 1];
  }

  lemma OneCoversAll(F: Fed, k: nat, n: nat)
    requires FedOK(F, n) && k < |F| && Covers([F[k]], Without(F, k))
    ensures FedOK([F[k]], n) && SameFed([F[k]], F)
  {
    forall v: Valuation ensures InFed(v, [F[k]]) <==> InFed(v, F) {
      InFedWithout(v, F, k);
      InFedOne(v, F[k]);
    }
  }

  lemma OthersCover(F: Fed, k: nat, n: nat)
    requires FedOK(F, n) && k < |F| && Covers(Without(F, k), [F[k]])
    ensures FedOK(Without(F, k), n) && SameFed(Without(F, k), F)
  {
    forall v: Valuation ensures InFed(v, Without(F, k)) <==> InFed(v, F) {
      InFedWithout(v, F, k);
      InFedOne(v, F[k]);
    }
  }
}
