/** Priced zones (src/priced.cpp): a zone with an affine cost.  Every operation leaves the cost of each point what it
    should be although the offset point, where the cost is recorded, moves; and the cached infimum stays right in
    those operations that do not invalidate it. */
module Priced {
  import opened Bounds
  import opened Zones
  import opened Closure
  import opened Closing
  import opened Constraining
  import opened Images
  import opened Updates
  import opened Relaxing
  import Federations
  import MinimalGraph
  import Words

  // ----- Costs -----

  /** rates[1] * v[1] + ... + rates[n - 1] * v[n - 1] */
  ghost function Weighted(rates: seq<int>, v: Valuation, n: nat): real
    requires n <= |rates| == |v|
  {
    if n <= 1 then 0.0 else Weighted(rates, v, n - 1) + rates[n - 1] as real * v[n - 1]
  }

  /** The offset point: every clock at its lower bound. */
  ghost function Offset(m: Dbm): (v: Valuation)
    ensures |v| == |m| && forall i {:trigger v[i]} :: 0 <= i < |m| ==> v[i] == -(BoundOf(m[0][i]) as real)
  {
    seq(|m|, i requires 0 <= i < |m| => -(BoundOf(m[0][i]) as real))
  }

  /** A zone, the cost at its offset point, and a rate for every clock but the reference. */
  datatype Plane = Plane(m: Dbm, rates: seq<int>, cost: int) {
    ghost predicate OK() {
      |rates| == |m|
    }

    ghost function CostAt(v: Valuation): real
      requires OK() && |v| == |m|
    {
      cost as real + (Weighted(rates, v, |m|) - Weighted(rates, Offset(m), |m|))
    }
  }

  /** The recorded cost is the cost at the offset point. */
  lemma OffsetHasCost(p: Plane)
    requires p.OK()
    ensures p.CostAt(Offset(p.m)) == p.cost as real
  {
  }

  lemma {:induction false} WeightedMove(rates: seq<int>, v: Valuation, k: nat, t: real, n: nat)
    requires n <= |rates| == |v| && 0 < k < |v|
    ensures Weighted(rates, v[k := t], n) == Weighted(rates, v, n) + if k < n then rates[k] as real * (t - v[k]) else 0.0
  {
    if n > 1 {
      WeightedMove(rates, v, k, t, n - 1);
    }
  }

  lemma {:induction false} WeightedRate(rates: seq<int>, v: Valuation, k: nat, r: int, n: nat)
    requires n <= |rates| == |v| && 0 < k < |v|
    ensures Weighted(rates[k := rates[k] + r], v, n) == Weighted(rates, v, n) + if k < n then r as real * v[k] else 0.0
  {
    if n > 1 {
      WeightedRate(rates, v, k, r, n - 1);
      SumTimes(rates[k], r, v[k]);
    }
  }

  lemma SumTimes(a: int, b: int, x: real)
    ensures (a + b) as real * x == a as real * x + b as real * x
  {
  }

  /** rates[1] + ... + rates[n - 1] */
  function Slope(rates: seq<int>, n: nat): int
    requires n <= |rates|
  {
    if n <= 1 then 0 else Slope(rates, n - 1) + rates[n - 1]
  }

  lemma {:induction false} WeightedDelay(rates: seq<int>, v: Valuation, d: real, n: nat)
    requires n <= |rates| == |v|
    ensures Weighted(rates, Delay(v, d), n) == Weighted(rates, v, n) + Slope(rates, n) as real * d
  {
    if n > 1 {
      WeightedDelay(rates, v, d, n - 1);
    }
  }

  lemma {:induction false} SlopeAfter(rates: seq<int>, k: nat, r: int, n: nat)
    requires n <= |rates| && 0 < k < |rates|
    ensures Slope(rates[k := r], n) == Slope(rates, n) + if k < n then r - rates[k] else 0
  {
    if n > 1 {
      SlopeAfter(rates, k, r, n - 1);
    }
  }

  // ----- What the operations do to costs -----

  /** Points keep their cost when the cost is recorded at the new offset point. */
  lemma CostKept(p: Plane, q: Plane, v: Valuation)
    requires p.OK() && q.OK() && |p.m| == |q.m| == |v| && q.rates == p.rates
    requires q.cost as real - Weighted(p.rates, Offset(q.m), |p.m|) == p.cost as real - Weighted(p.rates, Offset(p.m), |p.m|)
    ensures q.CostAt(v) == p.CostAt(v)
  {
  }

  /** A clock without a rate may move, and its offset too. */
  lemma RatelessMove(p: Plane, q: Plane, k: nat, v: Valuation, t: real)
    requires p.OK() && q.OK() && |p.m| == |q.m| == |v| && q.rates == p.rates && q.cost == p.cost
    requires 0 < k < |v| && p.rates[k] == 0 && forall j :: 0 <= j < |v| && j != k ==> Offset(q.m)[j] == Offset(p.m)[j]
    ensures q.CostAt(v) == p.CostAt(v[k := t])
  {
    WeightedMove(p.rates, v, k, t, |v|);
    WeightedMove(p.rates, Offset(q.m), k, Offset(p.m)[k], |v|);
    assert Offset(q.m)[k := Offset(p.m)[k]] == Offset(p.m);
  }

  /** The rate of clock k goes to clock z, from which k is a constant distance away. */
  function Moved(rates: seq<int>, k: nat, z: nat): (rates': seq<int>)
    requires k < |rates| && z < |rates|
  {
    (if z != 0 then rates[z := rates[z] + rates[k]] else rates)[k := 0]
  }

  /** The distance of two tied clocks is the same everywhere in the zone, and at the offset point. */
  lemma TiedDistance(m: Dbm, k: nat, z: nat, u: Valuation)
    requires Valid(m) && k < |m| && z < |m| && MinimalGraph.Tied(m, k, z) && InZone(u, m)
    ensures u[k] - u[z] == Offset(m)[k] - Offset(m)[z]
  {
    MinimalGraph.TiedIsExact(m, k, z, 0);
    MeetsAt(u, m, k, z);
    MeetsAt(u, m, z, k);
    assert m[0][k].Bound? && m[0][z].Bound?;
  }

  lemma {:induction false} DropRate(rates: seq<int>, v: Valuation, k: nat, r: int, n: nat)
    requires n <= |rates| == |v| && 0 < k < |v| && rates[k] == r
    ensures Weighted(rates[k := 0], v, n) == Weighted(rates, v, n) - if k < n then r as real * v[k] else 0.0
  {
    if n > 1 {
      DropRate(rates, v, k, r, n - 1);
    }
  }

  lemma MovedWeight(rates: seq<int>, k: nat, z: nat, v: Valuation, r: int)
    requires |rates| == |v| && 0 < k < |v| && z < |v| && z != k && v[0] == 0.0 && rates[k] == r
    ensures Weighted(Moved(rates, k, z), v, |v|) == Weighted(rates, v, |v|) + r as real * (v[z] - v[k])
  {
    Product(r, v[z], v[k]);
    if z != 0 {
      WeightedRate(rates, v, z, r, |v|);
      DropRate(rates[z := rates[z] + r], v, k, r, |v|);
    } else {
      DropRate(rates, v, k, r, |v|);
    }
  }

  lemma Product(r: int, a: real, b: real)
    ensures r as real * (a - b) == r as real * a - r as real * b
  {
  }

  /** Moving the rate of a clock to one it is tied to changes no cost. */
  lemma TiedMove(p: Plane, k: nat, z: nat, u: Valuation)
    requires p.OK() && Valid(p.m) && 0 < k < |p.m| && z < |p.m| && z != k && MinimalGraph.Tied(p.m, k, z) && InZone(u, p.m)
    ensures Plane(p.m, Moved(p.rates, k, z), p.cost).CostAt(u) == p.CostAt(u)
  {
    var off := Offset(p.m);
    TiedDistance(p.m, k, z, u);
    assert p.m[0][0] == LE_ZERO;
    MovedWeight(p.rates, k, z, u, p.rates[k]);
    MovedWeight(p.rates, k, z, off, p.rates[k]);
    assert off[z] - off[k] == u[z] - u[k];
  }

  /** Resetting clock k after its rate went to clock z: a point costs what the point it came from costs. */
  lemma ResetCost(p: Plane, q: Plane, k: nat, z: nat, v: Valuation, t: real)
    requires p.OK() && q.OK() && Valid(p.m) && 0 < k < |p.m| == |q.m| && z < |p.m| && z != k && MinimalGraph.Tied(p.m, k, z)
    requires CameFrom(v, p.m, k, t) && q.rates == Moved(p.rates, k, z) && q.cost == p.cost
    requires forall j :: 0 <= j < |v| && j != k ==> Offset(q.m)[j] == Offset(p.m)[j]
    ensures q.CostAt(v) == p.CostAt(v[k := t])
  {
    TiedMove(p, k, z, v[k := t]);
    RatelessMove(Plane(p.m, q.rates, p.cost), q, k, v, t);
  }

  /** The rate of a clock that stands still does not matter. */
  lemma StillRate(p: Plane, r: int, z: nat, u: Valuation)
    requires p.OK() && Valid(p.m) && 0 < z < |p.m| && MinimalGraph.Tied(p.m, 0, z) && InZone(u, p.m)
    ensures Plane(p.m, p.rates[z := r], p.cost).CostAt(u) == p.CostAt(u)
  {
    TiedDistance(p.m, z, 0, u);
    assert p.m[0][0] == LE_ZERO;
    assert u[z] == Offset(p.m)[z];
    WeightedRate(p.rates, u, z, r - p.rates[z], |u|);
    WeightedRate(p.rates, Offset(p.m), z, r - p.rates[z], |u|);
  }

  /** Letting time pass when clock z stood still so far: its rate may change at will. */
  lemma DelayCost(p: Plane, q: Plane, r: int, z: nat, u: Valuation, d: real)
    requires p.OK() && q.OK() && Valid(p.m) && 0 < z < |p.m| == |q.m| && MinimalGraph.Tied(p.m, 0, z) && InZone(u, p.m)
    requires q.rates == p.rates[z := r] && q.cost == p.cost && Offset(q.m) == Offset(p.m)
    ensures q.CostAt(Delay(u, d)) == p.CostAt(u) + Slope(q.rates, |q.m|) as real * d
  {
    StillRate(p, r, z, u);
    WeightedDelay(q.rates, u, d, |u|);
  }

  /** The rate that makes a delay cost `rate` for each unit of time. */
  lemma SlopeIsRate(rates: seq<int>, z: nat, rate: int)
    requires 0 < z < |rates|
    ensures Slope(rates[z := rate - Slope(rates[z := 0], |rates|)], |rates|) == rate
  {
    var r := rate - Slope(rates[z := 0], |rates|);
    assert rates[z := 0][z := r] == rates[z := r];
    SlopeAfter(rates[z := 0], z, r, |rates|);
  }

  // ----- The infimum -----

  ghost predicate SomeBelow(p: Plane, x: real)
    requires p.OK()
  {
    exists v: Valuation :: InZone(v, p.m) && p.CostAt(v) < x
  }

  /** The numbers above the cost of some point. */
  ghost function Exceeded(p: Plane): (E: iset<real>)
    requires p.OK()
    ensures forall x: real {:trigger x in E} :: x in E <==> SomeBelow(p, x)
  {
    iset x: real | SomeBelow(p, x)
  }

  /** c is the greatest lower bound of the costs of the points. */
  ghost predicate IsInfimum(p: Plane, c: real)
    requires p.OK()
  {
    c !in Exceeded(p) && forall x: real {:trigger x in Exceeded(p)} :: x > c ==> x in Exceeded(p)
  }

  /** Every point of q has a point of p that costs no more. */
  ghost predicate Undercuts(p: Plane, q: Plane)
    requires p.OK() && q.OK()
  {
    forall v: Valuation {:trigger InZone(v, q.m)} :: InZone(v, q.m) ==>
      exists u: Valuation :: InZone(u, p.m) && p.CostAt(u) <= q.CostAt(v)
  }

  lemma SameInfimum(p: Plane, q: Plane, c: real)
    requires p.OK() && q.OK() && IsInfimum(p, c) && Undercuts(p, q) && Undercuts(q, p)
    ensures IsInfimum(q, c)
  {
    ExceededMore(p, q);
    ExceededMore(q, p);
    assert Exceeded(p) == Exceeded(q);
  }

  lemma ExceededMore(p: Plane, q: Plane)
    requires p.OK() && q.OK() && Undercuts(p, q)
    ensures Exceeded(q) <= Exceeded(p)
  {
    forall x: real | x in Exceeded(q) ensures x in Exceeded(p) {
      BelowToo(p, q, x);
    }
  }

  /** Some point costs less than any number above the infimum. */
  lemma PointBelow(p: Plane, c: real, x: real) returns (v: Valuation)
    requires p.OK() && IsInfimum(p, c) && x > c
    ensures InZone(v, p.m) && c <= p.CostAt(v) < x
  {
    assert x in Exceeded(p) && SomeBelow(p, x);
    v :| InZone(v, p.m) && p.CostAt(v) < x;
    NoPointBelow(p, c, v);
  }

  lemma NoPointBelow(p: Plane, c: real, v: Valuation)
    requires p.OK() && IsInfimum(p, c) && InZone(v, p.m)
    ensures p.CostAt(v) >= c
  {
    if p.CostAt(v) < c {
      IsExceeded(p, v, c);
    }
  }

  lemma IsExceeded(p: Plane, v: Valuation, x: real)
    requires p.OK() && InZone(v, p.m) && p.CostAt(v) < x
    ensures x in Exceeded(p)
  {
    assert SomeBelow(p, x);
  }

  lemma BelowToo(p: Plane, q: Plane, x: real)
    requires p.OK() && q.OK() && Undercuts(p, q) && SomeBelow(q, x)
    ensures SomeBelow(p, x)
  {
    var v: Valuation :| InZone(v, q.m) && q.CostAt(v) < x;
    var u: Valuation :| InZone(u, p.m) && p.CostAt(u) <= q.CostAt(v);
  }

  /** A point that came from p by moving clock k costs what it cost there. */
  ghost predicate MovesAtCost(p: Plane, q: Plane, k: nat)
    requires p.OK() && q.OK() && |p.m| == |q.m|
  {
    forall v: Valuation, t: real {:trigger CameFrom(v, p.m, k, t)} :: CameFrom(v, p.m, k, t) ==> q.CostAt(v) == p.CostAt(v[k := t])
  }

  lemma MoveKeepsInfimum(p: Plane, q: Plane, k: nat, c: real)
    requires p.OK() && q.OK() && 0 < k < |p.m| == |q.m| && MovesAtCost(p, q, k) && IsInfimum(p, c)
    requires forall v: Valuation {:trigger InZone(v, q.m)} :: InZone(v, q.m) ==> exists t: real :: CameFrom(v, p.m, k, t)
    requires forall u: Valuation {:trigger InZone(u, p.m)} :: InZone(u, p.m) ==> exists x: real :: CameFrom(u, q.m, k, x)
    ensures IsInfimum(q, c)
  {
    forall v: Valuation | InZone(v, q.m) ensures exists u: Valuation :: InZone(u, p.m) && p.CostAt(u) <= q.CostAt(v) {
      var t: real :| CameFrom(v, p.m, k, t);
      assert InZone(v[k := t], p.m);
    }
    forall u: Valuation | InZone(u, p.m) ensures exists v: Valuation :: InZone(v, q.m) && q.CostAt(v) <= p.CostAt(u) {
      var x: real :| CameFrom(u, q.m, k, x);
      var v := u[k := x];
      assert v[k := u[k]] == u;
      assert CameFrom(v, p.m, k, u[k]);
    }
    SameInfimum(p, q, c);
  }

  /** The points of q are those of p after some delay, and the delay has this rate. */
  ghost predicate DelaysAtCost(p: Plane, q: Plane, rate: int)
    requires p.OK() && q.OK() && |p.m| == |q.m|
  {
    forall u: Valuation, d: real {:trigger Delay(u, d)} :: InZone(u, p.m) ==> q.CostAt(Delay(u, d)) == p.CostAt(u) + rate as real * d
  }

  /** Letting time pass leaves the infimum as it is exactly when that does not make things cheaper. */
  lemma DelayAndInfimum(p: Plane, q: Plane, rate: int, c: real)
    requires p.OK() && q.OK() && |p.m| == |q.m| && DelaysAtCost(p, q, rate) && IsInfimum(p, c)
    requires forall v: Valuation {:trigger InZone(v, q.m)} :: |v| == |p.m| && v[0] == 0.0 ==> (InZone(v, q.m) <==> ReachedFrom(v, p.m))
    ensures IsInfimum(q, c) <==> rate >= 0
  {
    if rate >= 0 {
      DearerByWaiting(p, q, rate);
      SameInfimum(p, q, c);
    } else {
      CheaperByWaiting(p, q, rate, c);
    }
  }

  lemma DearerByWaiting(p: Plane, q: Plane, rate: int)
    requires p.OK() && q.OK() && |p.m| == |q.m| && DelaysAtCost(p, q, rate) && rate >= 0
    requires forall v: Valuation {:trigger InZone(v, q.m)} :: |v| == |p.m| && v[0] == 0.0 ==> (InZone(v, q.m) <==> ReachedFrom(v, p.m))
    ensures Undercuts(p, q) && Undercuts(q, p)
  {
    forall v: Valuation {:trigger InZone(v, q.m)} | InZone(v, q.m) ensures exists u: Valuation :: InZone(u, p.m) && p.CostAt(u) <= q.CostAt(v) {
      var u, d := CameFromDelay(p, q, v);
      assert q.CostAt(Delay(u, d)) == p.CostAt(u) + rate as real * d;
      var saved := NotPositive(rate as real, -d);
    }
    forall u: Valuation {:trigger InZone(u, p.m)} | InZone(u, p.m) ensures exists v: Valuation :: InZone(v, q.m) && q.CostAt(v) <= p.CostAt(u) {
      DelayInZone(p, q, u, 0.0);
      assert q.CostAt(Delay(u, 0.0)) == p.CostAt(u) + rate as real * 0.0;
    }
  }

  lemma CheaperByWaiting(p: Plane, q: Plane, rate: int, c: real)
    requires p.OK() && q.OK() && |p.m| == |q.m| && DelaysAtCost(p, q, rate) && IsInfimum(p, c) && rate < 0
    requires forall v: Valuation {:trigger InZone(v, q.m)} :: |v| == |p.m| && v[0] == 0.0 ==> (InZone(v, q.m) <==> ReachedFrom(v, p.m))
    ensures SomeBelow(q, c)
  {
    var u := PointBelow(p, c, c + 1.0);
    var d := TimeToSaveOne(rate);
    DelayInZone(p, q, u, d);
    assert q.CostAt(Delay(u, d)) == p.CostAt(u) + rate as real * d;
  }

  lemma TimeToSaveOne(rate: int) returns (d: real)
    requires rate < 0
    ensures d >= 0.0 && rate as real * d == -1.0
  {
    d := -1.0 / rate as real;
  }

  lemma CameFromDelay(p: Plane, q: Plane, v: Valuation) returns (u: Valuation, d: real)
    requires |p.m| == |q.m| && InZone(v, q.m)
    requires forall v: Valuation {:trigger InZone(v, q.m)} :: |v| == |p.m| && v[0] == 0.0 ==> (InZone(v, q.m) <==> ReachedFrom(v, p.m))
    ensures InZone(u, p.m) && d >= 0.0 && v == Delay(u, d)
  {
    assert ReachedFrom(v, p.m);
    var e: real :| e <= 0.0 && InZone(Delay(v, e), p.m);
    u, d := Delay(v, e), -e;
    assert v == Delay(u, d);
  }

  lemma DelayInZone(p: Plane, q: Plane, u: Valuation, d: real)
    requires |p.m| == |q.m| && InZone(u, p.m) && d >= 0.0
    requires forall v: Valuation {:trigger InZone(v, q.m)} :: |v| == |p.m| && v[0] == 0.0 ==> (InZone(v, q.m) <==> ReachedFrom(v, p.m))
    ensures InZone(Delay(u, d), q.m) && Delay(u, 0.0) == u
  {
    assert Delay(u, 0.0) == u;
    assert Delay(Delay(u, d), -d) == u;
    assert ReachedFrom(Delay(u, d), p.m);
  }

  // ----- Priced zones -----

  datatype Cache = Invalid | Known(infimum: int)

  class Pdbm {
    var count: nat
    var cost: int
    var cache: Cache
    const rates: array<int>
    const matrix: array2<Raw>

    ghost predicate Shape() {
      IsSquare(matrix) && rates.Length == matrix.Length0
    }

    ghost function Costs(): (p: Plane)
      requires Shape()
      reads this, rates, matrix
      ensures p.OK()
    {
      Plane(Mat(matrix), rates[..], cost)
    }

    /** pdbm_isValid, but for the slope of unbounded zones */
    ghost predicate OK()
      reads this, rates, matrix
    {
      Shape() && Valid(Mat(matrix)) && rates[0] == 0 && CacheRight()
    }

    ghost predicate CacheRight()
      requires Shape()
      reads this, rates, matrix
    {
      cache.Known? ==> IsInfimum(Costs(), cache.infimum as real)
    }

    constructor (rates: array<int>, matrix: array2<Raw>, cost: int, cache: Cache)
      ensures this.rates == rates && this.matrix == matrix && this.cost == cost && this.cache == cache && count == 1
    {
      this.rates, this.matrix, this.cost, this.cache, count := rates, matrix, cost, cache, 1;
    }
  }

  /** A priced zone that others refer to keeps what it holds: q is p itself or a copy. */
  twostate predicate OthersKept(p: Pdbm, new q: Pdbm)
    requires p.Shape()
    reads p, p.rates, p.matrix, q
  {
    if q == p then p.count == old(p.count) && (old(p.count) > 1 ==> p.Costs() == old(p.Costs()) && p.cache == old(p.cache))
    else
      old(p.count) > 1 && p.count == old(p.count) - 1 && p.Costs() == old(p.Costs()) && p.cache == old(p.cache) &&
      fresh(q) && fresh(q.rates) && fresh(q.matrix) && q.count == 1
  }

  /** pdbm_prepare */
  method Prepare(p: Pdbm) returns (q: Pdbm)
    requires p.Shape()
    modifies p
    ensures q.Shape() && q.Costs() == old(p.Costs()) && q.cache == old(p.cache) && q.count <= 1
    ensures OthersKept(p, q) && p.Costs() == old(p.Costs())
  {
    if p.count > 1 {
      p.count := p.count - 1;
      var rates := new int[p.rates.Length](i requires 0 <= i < p.rates.Length reads p.rates => p.rates[i]);
      var matrix := Federations.CopyOf(Mat(p.matrix));
      q := new Pdbm(rates, matrix, p.cost, p.cache);
      assert rates[..] == p.rates[..];
    } else {
      q := p;
    }
  }

  /** Every point costs the same. */
  ghost predicate SameCosts(p: Plane, q: Plane)
    requires p.OK() && q.OK()
  {
    |p.m| == |q.m| && forall v: Valuation {:trigger q.CostAt(v)} :: |v| == |p.m| ==> q.CostAt(v) == p.CostAt(v)
  }

  /** The loops that add up the cost at the offset point: rates[k] * dbm.bound(0, k) for every clock. */
  method WeightedBounds(rates: array<int>, a: array2<Raw>) returns (sum: int)
    requires IsSquare(a) && rates.Length == a.Length0
    ensures sum as real == -Weighted(rates[..], Offset(Mat(a)), a.Length0)
  {
    sum := 0;
    var k := 1;
    while k < a.Length0
      invariant 1 <= k <= a.Length0
      invariant sum as real == -Weighted(rates[..], Offset(Mat(a)), k)
    {
      RealProduct(rates[k], BoundOf(a[0, k]));
      sum := sum + rates[k] * BoundOf(a[0, k]);
      k := k + 1;
    }
  }

  lemma RealProduct(a: int, b: int)
    ensures (a * b) as real == a as real * b as real && a as real * -(b as real) == -((a * b) as real)
  {
  }

  lemma RecordedAnew(p: Plane, q: Plane, before: int, after: int)
    requires p.OK() && q.OK() && |p.m| == |q.m| && q.rates == p.rates && q.cost == p.cost + before - after
    requires before as real == -Weighted(p.rates, Offset(p.m), |p.m|) && after as real == -Weighted(p.rates, Offset(q.m), |p.m|)
    ensures SameCosts(p, q)
  {
    forall v: Valuation | |v| == |p.m| ensures q.CostAt(v) == p.CostAt(v) {
      CostKept(p, q, v);
    }
  }

  /** pdbm_constrain1: points that are left keep their cost.  An emptied zone that was shared is just let go of. */
  method Constrain1(p: Pdbm, i: nat, j: nat, c: Raw) returns (q: Pdbm?, ok: bool)
    requires p.OK() && i < p.matrix.Length0 && j < p.matrix.Length0 && i != j
    modifies p, p.matrix
    ensures ok <==> exists v: Valuation :: InZone(v, old(Mat(p.matrix))) && Sat(v[i] - v[j], c)
    ensures ok ==> q != null && OthersKept(p, q) && q.OK() && SameCosts(old(p.Costs()), q.Costs())
    ensures ok ==> forall v: Valuation :: InZone(v, Mat(q.matrix)) <==> InZone(v, old(Mat(p.matrix))) && Sat(v[i] - v[j], c)
    ensures !ok && old(p.count) > 1 ==> q == null && p.count == old(p.count) - 1 && p.Costs() == old(p.Costs()) && p.cache == old(p.cache)
    ensures !ok && old(p.count) <= 1 ==> q == p && LooksEmpty(Mat(q.matrix)) && q.matrix[i, j] == c
    ensures q != null && ok ==> q.cache == if Le(old(p.matrix[i, j]), c) then old(p.cache) else Invalid
  {
    ghost var m := Mat(p.matrix);
    SatisfiesIsExact(m, i, j, c);
    if Le(p.matrix[i, j], c) {
      LooseConstraintCutsNothing(m, i, j, c);
      return p, true;
    }
    if Le(p.matrix[j, i], Neg(c)) {
      if p.count > 1 {
        p.count := p.count - 1;
        return null, false;
      }
      p.matrix[i, j] := c;
      p.matrix[0, 0] := EMPTY_MARK;
      assert Lt(Mat(p.matrix)[0][0], LE_ZERO);
      return p, false;
    }
    q := Prepare(p);
    CutTo(q, i, j, c);
    return q, true;
  }

  /** Compute the cost at the origin, apply the constraint, and record the cost at the new offset point. */
  method CutTo(q: Pdbm, i: nat, j: nat, c: Raw)
    requires q.Shape() && Valid(Mat(q.matrix)) && q.rates[0] == 0 && i < q.matrix.Length0 && j < q.matrix.Length0
    requires CanTighten(Mat(q.matrix), i, j, c)
    modifies q`cost, q`cache, q.matrix
    ensures q.OK() && SameCosts(old(q.Costs()), q.Costs())
    ensures forall v: Valuation :: InZone(v, Mat(q.matrix)) <==> InZone(v, old(Mat(q.matrix))) && Sat(v[i] - v[j], c)
    ensures q.cache == Invalid
  {
    ghost var p := q.Costs();
    var before := WeightedBounds(q.rates, q.matrix);
    q.matrix[i, j] := c;
    SameEntries(Mat(q.matrix), Set(p.m, i, j, c));
    CloseEntry(q.matrix, i, j, p.m);
    var after := WeightedBounds(q.rates, q.matrix);
    q.cost := q.cost + before - after;
    q.cache := Invalid;
    TightenedCanonical(p.m, i, j, c);
    TightenedCutsZone(p.m, i, j, c);
    CutKeepsValid(p.m, Mat(q.matrix));
    RecordedAnew(p, q.Costs(), before, after);
  }

  /** The first k constraints hold in all of m. */
  ghost predicate HoldTo(m: Dbm, cs: seq<Constraint>, k: nat)
    requires AllWellFormed(cs, |m|)
  {
    k <= |cs| && forall l {:trigger cs[l]} :: 0 <= l < k ==> Le(m[cs[l].i][cs[l].j], cs[l].value)
  }

  lemma LooseMet(m: Dbm, cs: seq<Constraint>, k: nat, v: Valuation)
    requires AllWellFormed(cs, |m|) && HoldTo(m, cs, k) && InZone(v, m) && AllWellFormed(cs[k..], |m|)
    ensures MeetsAll(v, cs) <==> MeetsAll(v, cs[k..])
  {
    forall l {:trigger cs[l]} | 0 <= l < k ensures Sat(v[cs[l].i] - v[cs[l].j], cs[l].value) {
      MeetsAt(v, m, cs[l].i, cs[l].j);
      SatLe(v[cs[l].i] - v[cs[l].j], m[cs[l].i][cs[l].j], cs[l].value);
    }
    if MeetsAll(v, cs[k..]) {
      forall l {:trigger cs[l]} | k <= l < |cs| ensures Sat(v[cs[l].i] - v[cs[l].j], cs[l].value) {
        assert cs[l] == cs[k..][l - k];
      }
    }
  }

  /** Constraints that hold anyway may be left out. */
  lemma LooseLeftOut(m: Dbm, cs: seq<Constraint>, k: nat)
    requires AllWellFormed(cs, |m|) && HoldTo(m, cs, k)
    ensures AllWellFormed(cs[k..], |m|) && (NothingLeft(m, cs[k..]) ==> NothingLeft(m, cs))
    ensures forall m': Dbm {:trigger SameCut(m, cs, m')} :: SameCut(m, cs[k..], m') ==> SameCut(m, cs, m')
  {
    assert AllWellFormed(cs[k..], |m|);
    forall v: Valuation | InZone(v, m) ensures MeetsAll(v, cs) <==> MeetsAll(v, cs[k..]) {
      LooseMet(m, cs, k, v);
    }
  }

  /** pdbm_constrainN */
  method ConstrainN(p: Pdbm, cs: seq<Constraint>) returns (q: Pdbm, ok: bool)
    requires p.OK() && AllWellFormed(cs, p.matrix.Length0)
    modifies p, p.matrix
    ensures OthersKept(p, q) && q.Shape()
    ensures ok ==> q.OK() && SameCosts(old(p.Costs()), q.Costs()) && SameCut(old(Mat(p.matrix)), cs, Mat(q.matrix))
    ensures !ok ==> LooksEmpty(Mat(q.matrix)) && NothingLeft(old(Mat(p.matrix)), cs)
    ensures ok ==> q.cache == if HoldTo(old(Mat(p.matrix)), cs, |cs|) then old(p.cache) else Invalid
  {
    ghost var m := Mat(p.matrix);
    var k := 0;
    while k < |cs| && Le(p.matrix[cs[k].i, cs[k].j], cs[k].value)
      invariant HoldTo(m, cs, k)
    {
      k := k + 1;
    }
    LooseLeftOut(m, cs, k);
    if k == |cs| {
      assert SameCut(m, cs[k..], m);
      return p, true;
    }
    q := Prepare(p);
    ok := CutToAll(q, cs[k..]);
  }

  method CutToAll(q: Pdbm, cs: seq<Constraint>) returns (ok: bool)
    requires q.Shape() && Valid(Mat(q.matrix)) && q.rates[0] == 0 && AllWellFormed(cs, q.matrix.Length0)
    modifies q`cost, q`cache, q.matrix
    ensures ok ==> q.OK() && SameCosts(old(q.Costs()), q.Costs()) && SameCut(old(Mat(q.matrix)), cs, Mat(q.matrix))
    ensures !ok ==> LooksEmpty(Mat(q.matrix)) && NothingLeft(old(Mat(q.matrix)), cs)
    ensures ok ==> q.cache == Invalid
  {
    ghost var p := q.Costs();
    var before := WeightedBounds(q.rates, q.matrix);
    ok := Constraining.ConstrainN(q.matrix, cs);
    if ok {
      var after := WeightedBounds(q.rates, q.matrix);
      q.cost := q.cost + before - after;
      q.cache := Invalid;
      CutKeepsValid(p.m, Mat(q.matrix));
      RecordedAnew(p, q.Costs(), before, after);
    }
  }

  // ----- Assigning and freeing clocks -----

  /** pdbm_updateValue, for a clock without a rate */
  method UpdateValue(p: Pdbm, k: nat, value: int) returns (q: Pdbm)
    requires p.OK() && 0 < k < p.matrix.Length0 && value >= 0 && p.rates[k] == 0
    modifies p, p.matrix
    ensures OthersKept(p, q) && q.OK() && IsReset(old(Mat(p.matrix)), k, value, Mat(q.matrix))
    ensures MovesAtCost(old(p.Costs()), q.Costs(), k)
    ensures q.cache == old(p.cache)
  {
    ghost var pl := p.Costs();
    q := Prepare(p);
    Updates.UpdateValue(q.matrix, k, value);
    ResetMoves(pl, q.Costs(), k, value);
  }

  lemma ResetMoves(p: Plane, q: Plane, k: nat, value: int)
    requires p.OK() && q.OK() && Valid(p.m) && 0 < k < |p.m| && value >= 0 && IsReset(p.m, k, value, q.m)
    requires q.rates == p.rates && q.cost == p.cost && p.rates[k] == 0
    ensures MovesAtCost(p, q, k) && forall c: real :: IsInfimum(p, c) ==> IsInfimum(q, c)
  {
    forall v: Valuation, t: real {:trigger CameFrom(v, p.m, k, t)} | CameFrom(v, p.m, k, t) ensures q.CostAt(v) == p.CostAt(v[k := t]) {
      RatelessMove(p, q, k, v, t);
    }
    forall c: real | IsInfimum(p, c) ensures IsInfimum(q, c) {
      ResetInfimum(p, q, k, value, c);
    }
  }

  lemma ResetInfimum(p: Plane, q: Plane, k: nat, value: int, c: real)
    requires p.OK() && q.OK() && Valid(p.m) && 0 < k < |p.m| && IsReset(p.m, k, value, q.m) && MovesAtCost(p, q, k) && IsInfimum(p, c)
    ensures IsInfimum(q, c)
  {
    forall v: Valuation {:trigger InZone(v, q.m)} | InZone(v, q.m) ensures exists t: real :: CameFrom(v, p.m, k, t) {
      ResetIsExact(p.m, k, value, q.m, v);
    }
    forall u: Valuation {:trigger InZone(u, p.m)} | InZone(u, p.m) ensures exists x: real :: CameFrom(u, q.m, k, x) {
      var v := u[k := value as real];
      assert v[k := u[k]] == u;
      assert CameFrom(v, p.m, k, u[k]);
      ResetIsExact(p.m, k, value, q.m, v);
      assert CameFrom(u, q.m, k, value as real);
    }
    MoveKeepsInfimum(p, q, k, c);
  }

  /** pdbm_updateValueZero: clock z, which is tied to clock k, takes over the rate of k.  With z == 0 clock k has the
      same value everywhere, and its rate does not matter. */
  method UpdateValueZero(p: Pdbm, k: nat, value: int, z: nat) returns (q: Pdbm)
    requires p.OK() && 0 < k < p.matrix.Length0 && z < p.matrix.Length0 && z != k && value >= 0
    requires MinimalGraph.Tied(Mat(p.matrix), k, z)
    modifies p, p.rates, p.matrix
    ensures OthersKept(p, q) && q.OK() && IsReset(old(Mat(p.matrix)), k, value, Mat(q.matrix))
    ensures MovesAtCost(old(p.Costs()), q.Costs(), k)
    ensures q.rates[..] == Moved(old(p.rates[..]), k, z)
    ensures q.cache == old(p.cache)
  {
    q := Prepare(p);
    MoveRate(q, k, value, z);
  }

  method MoveRate(q: Pdbm, k: nat, value: int, z: nat)
    requires q.OK() && 0 < k < q.matrix.Length0 && z < q.matrix.Length0 && z != k && value >= 0
    requires MinimalGraph.Tied(Mat(q.matrix), k, z)
    modifies q.rates, q.matrix
    ensures q.OK() && IsReset(old(Mat(q.matrix)), k, value, Mat(q.matrix)) && q.rates[..] == Moved(old(q.rates[..]), k, z)
    ensures MovesAtCost(old(q.Costs()), q.Costs(), k)
  {
    ghost var p := q.Costs();
    if z != 0 {
      q.rates[z] := q.rates[z] + q.rates[k];
    }
    q.rates[k] := 0;
    assert q.rates[..] == Moved(p.rates, k, z);
    Updates.UpdateValue(q.matrix, k, value);
    TiedResetMoves(p, q.Costs(), k, z, value);
  }

  lemma TiedResetMoves(p: Plane, q: Plane, k: nat, z: nat, value: int)
    requires p.OK() && q.OK() && Valid(p.m) && 0 < k < |p.m| && z < |p.m| && z != k && MinimalGraph.Tied(p.m, k, z)
    requires IsReset(p.m, k, value, q.m) && q.rates == Moved(p.rates, k, z) && q.cost == p.cost && value >= 0
    ensures MovesAtCost(p, q, k) && forall c: real :: IsInfimum(p, c) ==> IsInfimum(q, c)
  {
    forall v: Valuation, t: real {:trigger CameFrom(v, p.m, k, t)} | CameFrom(v, p.m, k, t) ensures q.CostAt(v) == p.CostAt(v[k := t]) {
      ResetCost(p, q, k, z, v, t);
    }
    forall c: real | IsInfimum(p, c) ensures IsInfimum(q, c) {
      ResetInfimum(p, q, k, value, c);
    }
  }

  /** pdbm_freeClock, for a clock without a rate.  Unlike the other operations it does not call pdbm_prepare. */
  method FreeClock(p: Pdbm, k: nat)
    requires p.OK() && 0 < k < p.matrix.Length0 && p.rates[k] == 0
    modifies p.matrix
    ensures p.OK() && IsFree(old(Mat(p.matrix)), k, Mat(p.matrix)) && MovesAtCost(old(p.Costs()), p.Costs(), k)
    ensures p.Costs() == old(p.Costs()) <==> FreeBefore(old(Mat(p.matrix)), k, p.matrix.Length0)
    ensures OthersKept(p, p) <==> p.count <= 1 || FreeBefore(old(Mat(p.matrix)), k, p.matrix.Length0)
    ensures p.cache == old(p.cache)
  {
    ghost var pl := p.Costs();
    Updates.FreeClock(p.matrix, k);
    FreeMoves(pl, p.Costs(), k);
    FreeingChangesNothing(pl.m, k, Mat(p.matrix));
  }

  lemma FreeMoves(p: Plane, q: Plane, k: nat)
    requires p.OK() && q.OK() && Valid(p.m) && 0 < k < |p.m| && IsFree(p.m, k, q.m)
    requires q.rates == p.rates && q.cost == p.cost && p.rates[k] == 0
    ensures MovesAtCost(p, q, k) && forall c: real :: IsInfimum(p, c) ==> IsInfimum(q, c)
  {
    forall v: Valuation, t: real {:trigger CameFrom(v, p.m, k, t)} | CameFrom(v, p.m, k, t) ensures q.CostAt(v) == p.CostAt(v[k := t]) {
      RatelessMove(p, q, k, v, t);
    }
    forall c: real | IsInfimum(p, c) ensures IsInfimum(q, c) {
      FreeInfimum(p, q, k, c);
    }
  }

  lemma FreeInfimum(p: Plane, q: Plane, k: nat, c: real)
    requires p.OK() && q.OK() && Valid(p.m) && 0 < k < |p.m| && IsFree(p.m, k, q.m) && MovesAtCost(p, q, k) && IsInfimum(p, c)
    ensures IsInfimum(q, c)
  {
    forall v: Valuation {:trigger InZone(v, q.m)} | InZone(v, q.m) ensures exists t: real :: CameFrom(v, p.m, k, t) {
      FreeIsExact(p.m, k, q.m, v);
    }
    forall u: Valuation {:trigger InZone(u, p.m)} | InZone(u, p.m) ensures exists x: real :: CameFrom(u, q.m, k, x) {
      assert u[k := u[k]] == u;
      assert CameFrom(u, p.m, k, u[k]);
      MeetsAt(u, p.m, 0, k);
      FreeIsExact(p.m, k, q.m, u);
      assert CameFrom(u, q.m, k, u[k]);
    }
    MoveKeepsInfimum(p, q, k, c);
  }

  /** A new zone 0 <= x <= 5 with two holders. */
  method TwoHolders() returns (mine: Pdbm, theirs: Pdbm)
    ensures mine == theirs && fresh(theirs) && fresh(theirs.matrix) && theirs.count == 2 && theirs.OK() && theirs.matrix.Length0 == 2
    ensures theirs.rates[1] == 0 && theirs.matrix[1, 0] == Bound(5, true)
  {
    var rates := new int[2](_ => 0);
    var matrix := new Raw[2, 2]((i: nat, j: nat) => FiveAt(i, j));
    mine := new Pdbm(rates, matrix, 0, Invalid);
    theirs := mine;
    theirs.count := theirs.count + 1;
    UpToFive(Mat(matrix));
  }

  /** The matrix of 0 <= x <= 5 */
  function FiveAt(i: nat, j: nat): Raw {
    if i == 1 && j == 0 then Bound(5, true) else LE_ZERO
  }

  lemma UpToFive(m: Dbm)
    requires |m| == 2 && forall i, j {:trigger m[i][j]} :: 0 <= i < |m| && 0 <= j < |m| ==> m[i][j] == FiveAt(i, j)
    ensures Valid(m)
  {
    forall p | 0 <= p < |m| ensures Through(m, p) {
      forall i, j {:trigger m[i][j]} | 0 <= i < |m| && 0 <= j < |m| ensures Le(m[i][j], Add(m[i][p], m[p][j])) {
        FiveTriangle(i, p, j);
      }
    }
    forall i | 0 <= i < |m| ensures m[i][i] == LE_ZERO && Le(m[0][i], LE_ZERO) {
      assert m[i][i] == FiveAt(i, i);
    }
  }

  lemma FiveTriangle(i: nat, p: nat, j: nat)
    requires i < 2 && p < 2 && j < 2
    ensures Le(FiveAt(i, j), Add(FiveAt(i, p), FiveAt(p, j)))
  {
  }

  /** The points where the one clock is above 5 are new. */
  ghost predicate GainsAboveFive(m: Dbm, m': Dbm) {
    forall v: Valuation {:trigger v[1]} :: |v| == 2 && v[0] == 0.0 && v[1] > 5.0 ==> !InZone(v, m) && InZone(v, m')
  }

  lemma FreedAbove(m: Dbm, m': Dbm)
    requires |m| == 2 && Valid(m) && IsFree(m, 1, m') && Valid(m') && m[1][0] == Bound(5, true)
    ensures GainsAboveFive(m, m')
  {
    assert m'[0][0] == m'[1][1] == LE_ZERO && m'[1][0] == Inf && m'[0][1] == m[0][0];
    forall v: Valuation {:trigger v[1]} | |v| == 2 && v[0] == 0.0 && v[1] > 5.0
      ensures !InZone(v, m) && InZone(v, m')
    {
      assert !Sat(v[1] - v[0], m[1][0]);
      forall i, j {:trigger m'[i][j]} | 0 <= i < |m'| && 0 <= j < |m'| ensures Sat(v[i] - v[j], m'[i][j]) {
      }
    }
  }

  /** One of two holders of 0 <= x <= 5 frees x: the zone of the other has no upper bound any more. */
  method FreeForOneHolder(mine: Pdbm, theirs: Pdbm)
    requires mine == theirs && theirs.count == 2 && theirs.OK() && theirs.matrix.Length0 == 2
    requires theirs.rates[1] == 0 && theirs.matrix[1, 0] == Bound(5, true)
    modifies mine.matrix
    ensures theirs.Costs() != old(theirs.Costs()) && !OthersKept(mine, mine)
    ensures GainsAboveFive(old(Mat(theirs.matrix)), Mat(theirs.matrix))
  {
    ghost var m := Mat(theirs.matrix);
    FreeClock(mine, 1);
    assert m[1][0] != Inf;
    FreedAbove(m, Mat(theirs.matrix));
  }

  /** pdbm_freeUp, for a clock that costs something or nothing */
  method FreeUp(p: Pdbm, k: nat) returns (q: Pdbm)
    requires p.OK() && 0 < k < p.matrix.Length0 && p.rates[k] >= 0
    modifies p, p.matrix
    ensures OthersKept(p, q) && q.OK() && IsFreeUp(old(Mat(p.matrix)), k, Mat(q.matrix)) && SameCosts(old(p.Costs()), q.Costs())
    ensures q.cache == old(p.cache)
  {
    ghost var pl := p.Costs();
    q := Prepare(p);
    Updates.FreeUp(q.matrix, k);
    FreeUpCosts(pl, q.Costs(), k);
  }

  lemma FreeUpCosts(p: Plane, q: Plane, k: nat)
    requires p.OK() && q.OK() && Valid(p.m) && 0 < k < |p.m| && IsFreeUp(p.m, k, q.m) && p.rates[k] >= 0
    requires q.rates == p.rates && q.cost == p.cost
    ensures SameCosts(p, q) && forall c: real :: IsInfimum(p, c) ==> IsInfimum(q, c)
  {
    assert Offset(q.m) == Offset(p.m);
    forall c: real | IsInfimum(p, c) ensures IsInfimum(q, c) {
      FreeUpInfimum(p, q, k, c);
    }
  }

  lemma FreeUpInfimum(p: Plane, q: Plane, k: nat, c: real)
    requires p.OK() && q.OK() && Valid(p.m) && 0 < k < |p.m| && IsFreeUp(p.m, k, q.m) && p.rates[k] >= 0
    requires SameCosts(p, q) && IsInfimum(p, c)
    ensures IsInfimum(q, c)
  {
    forall v: Valuation | InZone(v, q.m) ensures exists u: Valuation :: InZone(u, p.m) && p.CostAt(u) <= q.CostAt(v) {
      FreeUpIsExact(p.m, k, q.m, v);
      var t: real :| t <= v[k] && CameFrom(v, p.m, k, t);
      CheaperMove(p, v, k, t);
      assert InZone(v[k := t], p.m);
    }
    forall u: Valuation | InZone(u, p.m) ensures exists v: Valuation :: InZone(v, q.m) && q.CostAt(v) <= p.CostAt(u) {
      assert u[k := u[k]] == u;
      assert CameFrom(u, p.m, k, u[k]);
      FreeUpIsExact(p.m, k, q.m, u);
    }
    SameInfimum(p, q, c);
  }

  /** Moving a clock against its rate makes a point no dearer. */
  lemma CheaperMove(p: Plane, v: Valuation, k: nat, t: real)
    requires p.OK() && 0 < k < |p.m| == |v|
    requires (p.rates[k] >= 0 && t <= v[k]) || (p.rates[k] <= 0 && t >= v[k])
    ensures p.CostAt(v[k := t]) <= p.CostAt(v)
  {
    WeightedMove(p.rates, v, k, t, |p.m|);
    var saved := NotPositive(p.rates[k] as real, t - v[k]);
    assert Weighted(p.rates, v[k := t], |p.m|) == Weighted(p.rates, v, |p.m|) + saved;
  }

  /** pdbm_freeDown, for a clock that earns something or nothing: its offset moves to 0. */
  method FreeDown(p: Pdbm, k: nat) returns (q: Pdbm)
    requires p.OK() && 0 < k < p.matrix.Length0 && p.rates[k] <= 0
    modifies p, p.matrix
    ensures OthersKept(p, q) && q.OK() && IsFreeDown(old(Mat(p.matrix)), k, Mat(q.matrix)) && SameCosts(old(p.Costs()), q.Costs())
    ensures q.cache == old(p.cache)
  {
    q := Prepare(p);
    StretchDown(q, k);
  }

  /** Move the offset point, then stretch down. */
  method StretchDown(q: Pdbm, k: nat)
    requires q.OK() && 0 < k < q.matrix.Length0 && q.rates[k] <= 0
    modifies q`cost, q.matrix
    ensures q.OK() && IsFreeDown(old(Mat(q.matrix)), k, Mat(q.matrix)) && SameCosts(old(q.Costs()), q.Costs())
  {
    ghost var p := q.Costs();
    q.cost := CostAtZero(q.cost, -BoundOf(q.matrix[0, k]), q.rates[k]);
    Updates.FreeDown(q.matrix, k);
    FreeDownCosts(p, q.Costs(), k);
  }

  /** pdbm->cost - bound * rate */
  function CostAtZero(cost: int, bound: int, rate: int): int {
    cost - bound * rate
  }

  lemma FreeDownCosts(p: Plane, q: Plane, k: nat)
    requires p.OK() && q.OK() && Valid(p.m) && 0 < k < |p.m| && IsFreeDown(p.m, k, q.m) && p.rates[k] <= 0
    requires q.rates == p.rates && q.cost == CostAtZero(p.cost, -BoundOf(p.m[0][k]), p.rates[k])
    ensures SameCosts(p, q) && forall c: real :: IsInfimum(p, c) ==> IsInfimum(q, c)
  {
    OffsetDown(p, q, k);
    forall c: real | IsInfimum(p, c) ensures IsInfimum(q, c) {
      FreeDownInfimum(p, q, k, c);
    }
  }

  lemma OffsetDown(p: Plane, q: Plane, k: nat)
    requires p.OK() && q.OK() && Valid(p.m) && 0 < k < |p.m| && IsFreeDown(p.m, k, q.m)
    requires q.rates == p.rates && q.cost == CostAtZero(p.cost, -BoundOf(p.m[0][k]), p.rates[k])
    ensures SameCosts(p, q)
  {
    assert p.m[0][0] == LE_ZERO;
    assert Offset(q.m) == Offset(p.m)[k := 0.0];
    WeightedMove(p.rates, Offset(p.m), k, 0.0, |p.m|);
    RealProduct(p.rates[k], BoundOf(p.m[0][k]));
    assert p.rates[k] as real * (0.0 - Offset(p.m)[k]) == (p.rates[k] * BoundOf(p.m[0][k])) as real;
    forall v: Valuation | |v| == |p.m| ensures q.CostAt(v) == p.CostAt(v) {
      CostKept(p, q, v);
    }
  }

  lemma FreeDownInfimum(p: Plane, q: Plane, k: nat, c: real)
    requires p.OK() && q.OK() && Valid(p.m) && 0 < k < |p.m| && IsFreeDown(p.m, k, q.m) && p.rates[k] <= 0
    requires SameCosts(p, q) && IsInfimum(p, c)
    ensures IsInfimum(q, c)
  {
    forall v: Valuation | InZone(v, q.m) ensures exists u: Valuation :: InZone(u, p.m) && p.CostAt(u) <= q.CostAt(v) {
      FreeDownIsExact(p.m, k, q.m, v);
      var t: real :| t >= v[k] && CameFrom(v, p.m, k, t);
      CheaperMove(p, v, k, t);
      assert InZone(v[k := t], p.m);
    }
    forall u: Valuation | InZone(u, p.m) ensures exists v: Valuation :: InZone(v, q.m) && q.CostAt(v) <= p.CostAt(u) {
      assert u[k := u[k]] == u;
      assert CameFrom(u, p.m, k, u[k]);
      MeetsAt(u, p.m, 0, k);
      FreeDownIsExact(p.m, k, q.m, u);
    }
    SameInfimum(p, q, c);
  }

  // ----- Delay -----

  /** pdbm_up: the cached infimum stays, and is still right exactly when delay does not make points cheaper. */
  method Up(p: Pdbm) returns (q: Pdbm)
    requires p.OK()
    modifies p, p.matrix
    ensures OthersKept(p, q) && q.Shape() && IsUp(old(Mat(p.matrix)), Mat(q.matrix)) && Valid(Mat(q.matrix))
    ensures DelaysAtCost(old(p.Costs()), q.Costs(), Slope(q.rates[..], q.rates.Length)) && SameCosts(old(p.Costs()), q.Costs())
    ensures q.OK() <==> (q.cache.Known? ==> Slope(q.rates[..], q.rates.Length) >= 0)
    ensures q.cache == old(p.cache)
  {
    ghost var pl := p.Costs();
    q := Prepare(p);
    Images.Up(q.matrix);
    UpCosts(pl, q.Costs());
  }

  /** What a delay does to costs and to any number known to be the infimum. */
  ghost predicate DelayedAt(p: Plane, q: Plane, rate: int)
    requires p.OK() && q.OK() && |p.m| == |q.m|
  {
    DelaysAtCost(p, q, rate) && forall c: real {:trigger IsInfimum(q, c)} :: IsInfimum(p, c) ==> (IsInfimum(q, c) <==> rate >= 0)
  }

  lemma UpCosts(p: Plane, q: Plane)
    requires p.OK() && q.OK() && Valid(p.m) && IsUp(p.m, q.m) && q.rates == p.rates && q.cost == p.cost
    ensures DelayedAt(p, q, Slope(p.rates, |p.m|)) && SameCosts(p, q)
  {
    var rate := Slope(p.rates, |p.m|);
    assert Offset(q.m) == Offset(p.m);
    forall u: Valuation, d: real {:trigger Delay(u, d)} | InZone(u, p.m)
      ensures q.CostAt(Delay(u, d)) == p.CostAt(u) + rate as real * d
    {
      WeightedDelay(p.rates, u, d, |u|);
    }
    UpAndInfimum(p, q, rate);
  }

  lemma UpAndInfimum(p: Plane, q: Plane, rate: int)
    requires p.OK() && q.OK() && Valid(p.m) && IsUp(p.m, q.m) && DelaysAtCost(p, q, rate)
    ensures DelayedAt(p, q, rate)
  {
    forall v: Valuation {:trigger InZone(v, q.m)} | |v| == |p.m| && v[0] == 0.0 ensures InZone(v, q.m) <==> ReachedFrom(v, p.m) {
      UpIsDelay(p.m, q.m, v);
    }
    forall c: real {:trigger IsInfimum(q, c)} | IsInfimum(p, c) ensures IsInfimum(q, c) <==> rate >= 0 {
      DelayAndInfimum(p, q, rate, c);
    }
  }

  /** pdbm_upZero: delay at a given rate, when clock z stood still. */
  method UpZero(p: Pdbm, rate: int, z: nat) returns (q: Pdbm)
    requires p.OK() && 0 < z < p.matrix.Length0 && MinimalGraph.Tied(Mat(p.matrix), 0, z)
    modifies p, p.rates, p.matrix
    ensures OthersKept(p, q) && q.Shape() && IsUp(old(Mat(p.matrix)), Mat(q.matrix)) && Valid(Mat(q.matrix))
    ensures DelaysAtCost(old(p.Costs()), q.Costs(), rate)
    ensures q.OK() <==> (q.cache.Known? ==> rate >= 0)
    ensures q.cache == old(p.cache)
  {
    q := Prepare(p);
    DelayAtRate(q, rate, z);
  }

  method DelayAtRate(q: Pdbm, rate: int, z: nat)
    requires q.Shape() && Valid(Mat(q.matrix)) && q.rates[0] == 0 && 0 < z < q.matrix.Length0 && MinimalGraph.Tied(Mat(q.matrix), 0, z)
    modifies q.rates, q.matrix
    ensures IsUp(old(Mat(q.matrix)), Mat(q.matrix)) && Valid(Mat(q.matrix)) && q.rates[0] == 0
    ensures DelayedAt(old(q.Costs()), q.Costs(), rate)
  {
    ghost var p := q.Costs();
    Images.Up(q.matrix);
    q.rates[z] := 0;
    var slope := SlopeOf(q.rates);
    q.rates[z] := rate - slope;
    assert q.rates[..] == p.rates[z := rate - Slope(p.rates[z := 0], |p.rates|)];
    UpZeroCosts(p, q.Costs(), rate, z);
  }

  lemma UpZeroCosts(p: Plane, q: Plane, rate: int, z: nat)
    requires p.OK() && q.OK() && Valid(p.m) && 0 < z < |p.m| && MinimalGraph.Tied(p.m, 0, z) && IsUp(p.m, q.m)
    requires q.rates == p.rates[z := rate - Slope(p.rates[z := 0], |p.rates|)] && q.cost == p.cost
    ensures DelayedAt(p, q, rate)
  {
    SlopeIsRate(p.rates, z, rate);
    RatedDelay(p, q, rate - Slope(p.rates[z := 0], |p.rates|), z);
    UpAndInfimum(p, q, rate);
  }

  lemma RatedDelay(p: Plane, q: Plane, r: int, z: nat)
    requires p.OK() && q.OK() && Valid(p.m) && 0 < z < |p.m| && MinimalGraph.Tied(p.m, 0, z) && IsUp(p.m, q.m)
    requires q.rates == p.rates[z := r] && q.cost == p.cost
    ensures DelaysAtCost(p, q, Slope(q.rates, |q.m|))
  {
    assert Offset(q.m) == Offset(p.m);
    forall u: Valuation, d: real {:trigger Delay(u, d)} | InZone(u, p.m)
      ensures q.CostAt(Delay(u, d)) == p.CostAt(u) + Slope(q.rates, |q.m|) as real * d
    {
      DelayCost(p, q, r, z, u, d);
    }
  }

  /** pdbm_getSlopeOfDelayTrajectory */
  method SlopeOf(rates: array<int>) returns (sum: int)
    ensures sum == Slope(rates[..], rates.Length)
  {
    sum := 0;
    var i := 1;
    while i < rates.Length
      invariant 1 <= i && (i <= rates.Length || rates.Length == 0)
      invariant sum == Slope(rates[..], if rates.Length == 0 then 0 else i)
    {
      sum := sum + rates[i];
      i := i + 1;
    }
  }

  /** pdbm_getCostOfValuation */
  method GetCostOfValuation(p: Pdbm, pt: seq<int>) returns (cost: int)
    requires p.OK() && |pt| == p.matrix.Length0
    ensures cost as real == p.Costs().CostAt(seq(|pt|, i requires 0 <= i < |pt| => pt[i] as real))
  {
    ghost var v, off := seq(|pt|, i requires 0 <= i < |pt| => pt[i] as real), Offset(Mat(p.matrix));
    cost := p.cost;
    var i := 1;
    while i < p.matrix.Length0
      invariant 1 <= i <= p.matrix.Length0
      invariant cost as real == p.cost as real + (Weighted(p.rates[..], v, i) - Weighted(p.rates[..], off, i))
    {
      var d := pt[i] - -BoundOf(p.matrix[0, i]);
      RealProduct(p.rates[i], d);
      Product(p.rates[i], v[i], off[i]);
      cost := cost + d * p.rates[i];
      i := i + 1;
    }
  }

  // ----- Relaxing -----

  lemma {:induction false} WeightedToward(rates: seq<int>, v: Valuation, u: Valuation, x: real, n: nat)
    requires n <= |rates| == |v| == |u|
    ensures Weighted(rates, Toward(v, u, x), n) == Weighted(rates, v, n) + x * (Weighted(rates, u, n) - Weighted(rates, v, n))
  {
    if n > 1 {
      WeightedToward(rates, v, u, x, n - 1);
      TowardTerm(rates[n - 1] as real, v[n - 1], u[n - 1], x, Weighted(rates, u, n - 1) - Weighted(rates, v, n - 1));
    }
  }

  lemma TowardTerm(r: real, a: real, b: real, x: real, w: real)
    ensures x * w + r * (a + x * (b - a)) == r * a + x * (w + (r * b - r * a))
  {
  }

  lemma CostToward(p: Plane, v: Valuation, u: Valuation, x: real)
    requires p.OK() && |p.m| == |v| == |u|
    ensures p.CostAt(Toward(v, u, x)) == p.CostAt(v) + x * (p.CostAt(u) - p.CostAt(v))
  {
    WeightedToward(p.rates, v, u, x, |v|);
    assert p.CostAt(u) - p.CostAt(v) == Weighted(p.rates, u, |v|) - Weighted(p.rates, v, |v|);
  }

  /** No point of the closure is cheaper than all points of the zone. */
  lemma ClosureIsNotCheaper(p: Plane, q: Plane, c: real, v: Valuation)
    requires p.OK() && q.OK() && IsRelaxAll(p.m, q.m) && SameCosts(p, q) && IsInfimum(p, c) && InZone(v, q.m)
    ensures q.CostAt(v) >= c
  {
    var u := PointBelow(p, c, c + 1.0);
    if q.CostAt(v) < c {
      var x := PartOfWay(c - p.CostAt(v), p.CostAt(u) - p.CostAt(v));
      WayIsInside(p.m, q.m, v, u, x);
      CostToward(p, v, u, x);
      StartsAtZero(v, u, x);
      NoPointBelow(p, c, Toward(v, u, x));
    }
  }

  lemma RelaxCosts(p: Plane, q: Plane)
    requires p.OK() && q.OK() && Valid(p.m) && IsRelaxAll(p.m, q.m) && q.rates == p.rates && q.cost == p.cost
    ensures SameCosts(p, q) && forall c: real :: IsInfimum(p, c) ==> IsInfimum(q, c)
  {
    assert Offset(q.m) == Offset(p.m);
    forall c: real | IsInfimum(p, c) ensures IsInfimum(q, c) {
      RelaxInfimum(p, q, c);
    }
  }

  lemma RelaxInfimum(p: Plane, q: Plane, c: real)
    requires p.OK() && q.OK() && IsRelaxAll(p.m, q.m) && SameCosts(p, q) && IsInfimum(p, c)
    ensures IsInfimum(q, c)
  {
    if c in Exceeded(q) {
      assert SomeBelow(q, c);
      var v: Valuation :| InZone(v, q.m) && q.CostAt(v) < c;
      ClosureIsNotCheaper(p, q, c, v);
      assert false;
    }
    forall x: real | x > c ensures x in Exceeded(q) {
      var v := PointBelow(p, c, x);
      RelaxAllContains(p.m, q.m, v);
      assert q.CostAt(v) == p.CostAt(v);
      IsExceeded(q, v, x);
    }
  }

  /** The place of pdbm_relax's pointer in the matrix after some turns of its loop. */
  function PointerAfter(turns: nat): nat {
    1 + turns
  }

  /** Where the pointer stops: the last entry, on the diagonal. */
  function LastEntry(dim: nat): int {
    dim * dim - 1
  }

  /** The pointer meets the end of the loop exactly with two clocks or more; else it leaves the matrix at once. */
  lemma RelaxMeetsItsEnd(dim: nat)
    requires dim > 0
    ensures dim > 1 <==> exists turns: nat {:trigger PointerAfter(turns)} :: PointerAfter(turns) == LastEntry(dim)
    ensures dim > 1 <==> PointerAfter(0) < Words.Cells(dim)
  {
    Words.RowsIsProduct(dim, dim);
    if dim > 1 {
      SquareExceeds(dim);
      assert PointerAfter(dim * dim - 2) == LastEntry(dim);
    }
  }

  lemma SquareExceeds(n: nat)
    requires n > 1
    ensures n * n >= 2 * n
  {
  }

  /** The loop of pdbm_relax; the first and the last entry, which it leaves out, are weak already. */
  method RelaxRest(a: array2<Raw>)
    requires IsSquare(a) && Valid(Mat(a)) && a.Length0 > 1
    modifies a
    ensures IsRelaxAll(old(Mat(a)), Mat(a)) && Valid(Mat(a))
  {
    ghost var m := Mat(a);
    var n := a.Length0;
    Words.RowsIsProduct(n, n);
    assert m[0][0] == LE_ZERO && m[n - 1][n - 1] == LE_ZERO;
    var it, i, j := PointerAfter(0), 0, 1;
    while it != LastEntry(n)
      invariant 0 <= i < n && 0 <= j < n && it == Words.Flat(n, i, j) <= LastEntry(n)
      invariant forall x, y {:trigger a[x, y]} :: 0 <= x < n && 0 <= y < n ==> a[x, y] == if Before(x, y, i, j) then Weak(m[x][y]) else m[x][y]
      decreases LastEntry(n) - it
    {
      if a[i, j] != Inf {
        a[i, j] := Weak(a[i, j]);
      }
      it := it + 1;
      i, j := if j + 1 < n then i else i + 1, if j + 1 < n then j + 1 else 0;
    }
    Words.FlatInjective(n, i, j, n - 1, n - 1);
    RelaxAllStaysValid(m, Mat(a));
  }

  /** pdbm_relax, of a zone with some clock: points keep their cost, and those that are added on the border do not change
      the infimum. */
  method Relax(p: Pdbm) returns (q: Pdbm)
    requires p.OK() && p.matrix.Length0 > 1
    modifies p, p.matrix
    ensures OthersKept(p, q) && q.OK() && IsRelaxAll(old(Mat(p.matrix)), Mat(q.matrix)) && SameCosts(old(p.Costs()), q.Costs())
    ensures q.cache == old(p.cache)
  {
    ghost var pl := p.Costs();
    q := Prepare(p);
    RelaxRest(q.matrix);
    RelaxCosts(pl, q.Costs());
  }
}
