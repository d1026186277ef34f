/** Difference bound matrices and the sets of clock valuations they denote. */
module Zones {
  import opened Bounds

  /** A square matrix; entry (i, j) bounds xi - xj, and x0 is the reference clock. */
  type Dbm = m: seq<seq<Raw>> | |m| >= 1 && forall i :: 0 <= i < |m| ==> |m[i]| == |m|
    witness [[LE_ZERO]]

  /** Entry (x, y) comes before (i, j) when a matrix is read row by row. */
  predicate Before(x: int, y: int, i: int, j: int) {
    x < i || (x == i && y < j)
  }

  type Valuation = seq<real>

  /** v meets the bounds among the clocks of S. */
  ghost predicate MeetsOn(v: Valuation, m: Dbm, S: set<int>) {
    |v| == |m| &&
    forall i, j {:trigger m[i][j]} :: i in S && j in S && 0 <= i < |m| && 0 <= j < |m| ==> Sat(v[i] - v[j], m[i][j])
  }

  /** v meets every bound. */
  ghost predicate Meets(v: Valuation, m: Dbm) {
    |v| == |m| &&
    forall i, j {:trigger m[i][j]} :: 0 <= i < |m| && 0 <= j < |m| ==> Sat(v[i] - v[j], m[i][j])
  }

  /** v is a point of the zone of m: the reference clock reads 0. */
  ghost predicate InZone(v: Valuation, m: Dbm) {
    Meets(v, m) && v[0] == 0.0
  }

  ghost predicate SameZone(m: Dbm, m': Dbm) {
    |m| == |m'| && forall v: Valuation :: InZone(v, m) <==> InZone(v, m')
  }

  ghost predicate EmptyZone(m: Dbm) {
    forall v: Valuation :: !InZone(v, m)
  }

  ghost predicate ZeroDiagonal(m: Dbm) {
    forall i {:trigger m[i][i]} :: 0 <= i < |m| ==> m[i][i] == LE_ZERO
  }

  /** No bound is improved by a detour through clock p. */
  ghost predicate Through(m: Dbm, p: nat)
    requires p < |m|
  {
    forall i, j {:trigger m[i][j]} :: 0 <= i < |m| && 0 <= j < |m| ==> Le(m[i][j], Add(m[i][p], m[p][j]))
  }

  /** Closed and not empty: dbm_isClosed and not dbm_isEmpty (src/dbm.c). */
  ghost predicate Canonical(m: Dbm) {
    ZeroDiagonal(m) && forall p :: 0 <= p < |m| ==> Through(m, p)
  }

  /** dbm_isValid with CLOCKS_POSITIVE: canonical, and no clock may be negative. */
  ghost predicate Valid(m: Dbm) {
    Canonical(m) && forall j :: 0 <= j < |m| ==> Le(m[0][j], LE_ZERO)
  }

  lemma Triangle(m: Dbm, i: nat, p: nat, j: nat)
    requires Canonical(m) && i < |m| && p < |m| && j < |m|
    ensures Le(m[i][j], Add(m[i][p], m[p][j]))
  {
    assert Through(m, p);
  }

  lemma MeetsAt(v: Valuation, m: Dbm, i: nat, j: nat)
    requires Meets(v, m) && i < |m| && j < |m|
    ensures Sat(v[i] - v[j], m[i][j])
  {
  }

  // ----- Extending a valuation by one clock -----

  /** One side of an interval of reals. */
  datatype Edge = Open | At(x: real, weak: bool)

  ghost predicate Below(t: real, e: Edge) {
    e.At? ==> if e.weak then t <= e.x else t < e.x
  }

  ghost predicate Above(t: real, e: Edge) {
    e.At? ==> if e.weak then t >= e.x else t > e.x
  }

  /** Everything below e is below f. */
  ghost predicate NoHigher(e: Edge, f: Edge) {
    f.Open? || (e.At? && (e.x < f.x || (e.x == f.x && (e.weak ==> f.weak))))
  }

  /** Everything above e is above f. */
  ghost predicate NoLower(e: Edge, f: Edge) {
    f.Open? || (e.At? && (e.x > f.x || (e.x == f.x && (e.weak ==> f.weak))))
  }

  ghost function Upper(m: Dbm, v: Valuation, k: nat, j: nat): Edge
    requires k < |m| == |v| && j < |m|
  {
    if m[k][j].Inf? then Open else At(v[j] + m[k][j].value as real, m[k][j].weak)
  }

  ghost function Lower(m: Dbm, v: Valuation, k: nat, j: nat): Edge
    requires k < |m| == |v| && j < |m|
  {
    if m[j][k].Inf? then Open else At(v[j] - m[j][k].value as real, m[j][k].weak)
  }

  /** The tightest upper edge that the first n clocks of S put on clock k. */
  ghost function TightestUpper(m: Dbm, v: Valuation, S: set<int>, k: nat, n: nat): (e: Edge)
    requires k < |m| == |v| && n <= |m|
    ensures forall j :: j in S && 0 <= j < n ==> NoHigher(e, Upper(m, v, k, j))
    ensures e.Open? || exists j :: j in S && 0 <= j < n && e == Upper(m, v, k, j)
  {
    if n == 0 then Open
    else
      var rest := TightestUpper(m, v, S, k, n - 1);
      if n - 1 !in S then rest
      else
        var u := Upper(m, v, k, n - 1);
        if NoHigher(u, rest) then u else rest
  }

  ghost function TightestLower(m: Dbm, v: Valuation, S: set<int>, k: nat, n: nat): (e: Edge)
    requires k < |m| == |v| && n <= |m|
    ensures forall j :: j in S && 0 <= j < n ==> NoLower(e, Lower(m, v, k, j))
    ensures e.Open? || exists j :: j in S && 0 <= j < n && e == Lower(m, v, k, j)
  {
    if n == 0 then Open
    else
      var rest := TightestLower(m, v, S, k, n - 1);
      if n - 1 !in S then rest
      else
        var u := Lower(m, v, k, n - 1);
        if NoLower(u, rest) then u else rest
  }

  ghost predicate Compatible(lo: Edge, hi: Edge) {
    lo.Open? || hi.Open? || lo.x < hi.x || (lo.x == hi.x && lo.weak && hi.weak)
  }

  lemma EdgesCompatible(m: Dbm, v: Valuation, S: set<int>, k: nat, i: nat, j: nat)
    requires Canonical(m) && k < |m| && i < |m| && j < |m|
    requires MeetsOn(v, m, S) && i in S && j in S
    ensures Compatible(Lower(m, v, k, i), Upper(m, v, k, j))
  {
    Triangle(m, i, k, j);
    SatLe(v[i] - v[j], m[i][j], Add(m[i][k], m[k][j]));
  }

  /** The key fact about closed matrices: a valuation that meets the bounds among some
      clocks can be extended by any further clock. */
  lemma Extend(m: Dbm, v: Valuation, S: set<int>, k: nat) returns (t: real)
    requires Canonical(m) && k < |m|
    requires MeetsOn(v, m, S) && k !in S
    ensures MeetsOn(v[k := t], m, S + {k})
  {
    var lo, hi := TightestLower(m, v, S, k, |m|), TightestUpper(m, v, S, k, |m|);
    if lo.At? && hi.At? {
      var i :| i in S && 0 <= i < |m| && lo == Lower(m, v, k, i);
      var j :| j in S && 0 <= j < |m| && hi == Upper(m, v, k, j);
      EdgesCompatible(m, v, S, k, i, j);
    }
    t := if lo.At? then (if hi.At? then (lo.x + hi.x) / 2.0 else lo.x + 1.0)
         else if hi.At? then hi.x - 1.0 else 0.0;
    assert Above(t, lo) && Below(t, hi);
    var w := v[k := t];
    forall i, j {:trigger m[i][j]} | i in S + {k} && j in S + {k} && 0 <= i < |m| && 0 <= j < |m|
      ensures Sat(w[i] - w[j], m[i][j])
    {
      if i == k && j == k {
        assert m[k][k] == LE_ZERO;
      } else if i == k {
        assert NoHigher(hi, Upper(m, v, k, j));
      } else if j == k {
        assert NoLower(lo, Lower(m, v, k, i));
      }
    }
  }

  /** The first n clocks. */
  function Prefix(n: nat): (s: set<int>)
    ensures forall i :: i in s <==> 0 <= i < n
  {
    if n == 0 then {} else Prefix(n - 1) + {n - 1}
  }

  /** Any valuation that meets the bounds among a set of clocks extends to all clocks
      without moving the ones it started from. */
  lemma {:induction false} Complete(m: Dbm, v: Valuation, S: set<int>, n: nat) returns (w: Valuation)
    requires Canonical(m) && n <= |m|
    requires MeetsOn(v, m, S)
    ensures MeetsOn(w, m, S + Prefix(n))
    ensures forall i :: i in S && 0 <= i < |m| ==> w[i] == v[i]
  {
    if n == 0 {
      w := v;
    } else {
      var u := Complete(m, v, S, n - 1);
      if n - 1 in S {
        w := u;
        assert S + Prefix(n) == S + Prefix(n - 1);
      } else {
        var t := Extend(m, u, S + Prefix(n - 1), n - 1);
        w := u[n - 1 := t];
        assert S + Prefix(n) == S + Prefix(n - 1) + {n - 1};
      }
    }
  }

  /** A closed matrix with a zero diagonal denotes a non-empty zone. */
  lemma CanonicalHasPoint(m: Dbm) returns (v: Valuation)
    requires Canonical(m)
    ensures InZone(v, m)
  {
    var start := seq(|m|, i => 0.0);
    assert MeetsOn(start, m, {0}) by {
      assert m[0][0] == LE_ZERO;
    }
    v := Complete(m, start, {0}, |m|);
  }
}
