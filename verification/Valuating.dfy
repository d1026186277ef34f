/** dbm_t::ptr_getValuation (src/fed_dbm.cpp), read over exact reals: from values for some clocks it picks values for
    the others one at a time, each in the range that the clocks with a value leave. */
module Valuating {
  import opened Bounds
  import opened Zones
  import opened Closing
  import Closure

  /** The range left for a clock, with numbers for infinite bounds too. */
  datatype Range = Range(lower: real, lStrict: bool, upper: real, uStrict: bool)

  predicate Strict(r: Raw) {
    r.Inf? || !r.weak
  }

  predicate Within(t: real, r: Range) {
    (if r.lStrict then t > r.lower else t >= r.lower) && (if r.uStrict then t < r.upper else t <= r.upper)
  }

  /** "Derive lower and upper bounds for this clock." */
  function OwnRange(below: Raw, above: Raw): Range {
    Range(-(BoundOf(below) as real), Strict(below), BoundOf(above) as real, Strict(above))
  }

  /** The bounds (i, j) and (j, i), when clock j has value x. */
  function Narrowed(r: Range, above: Raw, below: Raw, x: real): Range {
    var upper, lower := BoundOf(above) as real + x, x - BoundOf(below) as real;
    var r1 := if upper < r.upper || (upper <= r.upper && !r.uStrict) then r.(upper := upper, uStrict := Strict(above)) else r;
    if lower > r.lower || (lower >= r.lower && !r.lStrict) then r1.(lower := lower, lStrict := Strict(below)) else r1
  }

  /** What the clocks from 1 up to n - 1 that have a value leave for clock i. */
  function RangeOf(m: Dbm, v: Valuation, free: seq<bool>, i: nat, n: nat): Range
    requires |v| == |free| == |m| && i < |m| && n <= |m|
  {
    if n <= 1 then OwnRange(m[0][i], m[i][0])
    else
      var r := RangeOf(m, v, free, i, n - 1);
      if !free[n - 1] then Narrowed(r, m[i][n - 1], m[n - 1][i], v[n - 1]) else r
  }

  /** "Find a good value within the range." */
  function Pick(r: Range): real {
    if r.lower.Floor as real == r.lower && !r.lStrict then r.lower
    else if ((r.lower + 1.0).Floor as real <= r.upper && !r.uStrict) || (r.lower + 1.0).Floor as real < r.upper then (r.lower + 1.0).Floor as real
    else if !r.uStrict then r.upper
    else (r.lower + r.upper) / 2.0
  }

  /** The value is in the range unless the range is empty, and not far from its lower end. */
  lemma PickIsWithin(r: Range)
    requires r.lower < r.upper || (r.lower == r.upper && !r.lStrict && !r.uStrict)
    ensures Within(Pick(r), r) && Pick(r) <= r.lower + 1.0
  {
  }

  /** Of a range with integers in it the least one is picked. */
  lemma PickIsLeastInteger(r: Range, z: int)
    requires Within(z as real, r)
    ensures Pick(r).Floor as real == Pick(r) <= z as real && Within(Pick(r), r)
  {
    IntegerAbove(r.lower, z);
  }

  /** Of one without integers the greatest value is picked, if there is one. */
  lemma PickIsGreatest(r: Range)
    requires r.lower < r.upper || (r.lower == r.upper && !r.lStrict)
    requires !r.uStrict && forall z: int {:trigger z as real} :: !Within(z as real, r)
    ensures Within(Pick(r), r) && forall t: real {:trigger Within(t, r)} :: Within(t, r) ==> t <= Pick(r)
  {
    assert !Within(r.lower.Floor as real, r) && !Within((r.lower + 1.0).Floor as real, r);
  }

  lemma IntegerAbove(lower: real, z: int)
    requires z as real >= lower
    ensures lower.Floor <= z && (z as real > lower ==> (lower + 1.0).Floor <= z) && (lower + 1.0).Floor as real > lower
  {
  }

  // ----- The range is the one left by the clocks with a value -----

  /** The clocks that have a value. */
  ghost function Settled(free: seq<bool>): (S: set<int>)
    ensures forall j :: j in S <==> 0 <= j < |free| && (j == 0 || !free[j])
  {
    set j | 0 <= j < |free| && (j == 0 || !free[j])
  }

  /** A value within the range of n clocks respects the bounds with each of them that has a value. */
  lemma {:induction false} WithinRespects(m: Dbm, v: Valuation, free: seq<bool>, i: nat, n: nat, t: real, j: nat)
    requires |v| == |free| == |m| && i < |m| && 0 < n <= |m| && v[0] == 0.0 && j < n && j in Settled(free)
    requires Within(t, RangeOf(m, v, free, i, n))
    ensures Sat(t - v[j], m[i][j]) && Sat(v[j] - t, m[j][i])
  {
    if n > 1 {
      var r := RangeOf(m, v, free, i, n - 1);
      if !free[n - 1] {
        NarrowedWithin(r, m[i][n - 1], m[n - 1][i], v[n - 1], t);
      }
      if j < n - 1 {
        WithinRespects(m, v, free, i, n - 1, t, j);
      }
    }
  }

  lemma NarrowedWithin(r: Range, above: Raw, below: Raw, x: real, t: real)
    requires Within(t, Narrowed(r, above, below, x))
    ensures Within(t, r) && Sat(t - x, above) && Sat(x - t, below)
  {
  }

  // ----- The range is not empty -----

  /** The lowest value of clock j. */
  function Lowest(m: Dbm, j: nat): real
    requires j < |m|
  {
    -(BoundOf(m[0][j]) as real)
  }

  /** No value is more than slack above the lowest one of its clock. */
  ghost predicate NearLowest(m: Dbm, v: Valuation, free: seq<bool>, slack: real)
    requires |v| == |free| == |m|
  {
    forall j {:trigger v[j]} :: 0 <= j < |m| && j in Settled(free) ==> v[j] <= Lowest(m, j) + slack
  }

  /** Values up to slack above the lowest ones stay below the number that infinity decodes to, and so do finite bounds. */
  ghost predicate HasRoom(m: Dbm, slack: real) {
    slack >= 0.0 && (forall j {:trigger Lowest(m, j)} :: 0 <= j < |m| ==> Lowest(m, j) + slack < INFINITY as real) &&
    forall i, j {:trigger m[i][j]} :: 0 <= i < |m| && 0 <= j < |m| && m[i][j].Bound? ==> m[i][j].value < INFINITY
  }

  ghost predicate Consistent(m: Dbm, v: Valuation, free: seq<bool>) {
    |v| == |free| == |m| && v[0] == 0.0 && MeetsOn(v, m, Settled(free))
  }

  /** The lower end comes from the bound with some clock that has a value. */
  ghost predicate LowerFrom(m: Dbm, v: Valuation, free: seq<bool>, i: nat, r: Range, a: nat)
    requires |v| == |free| == |m| && i < |m|
  {
    a < |m| && a in Settled(free) && m[a][i].Bound? && r.lower == v[a] - m[a][i].value as real && r.lStrict == !m[a][i].weak
  }

  /** The upper end too, or else it is the number for infinity. */
  ghost predicate UpperFrom(m: Dbm, v: Valuation, free: seq<bool>, i: nat, r: Range, b: nat)
    requires |v| == |free| == |m| && i < |m|
  {
    if b == |m| then r.upper == INFINITY as real && r.uStrict
    else b < |m| && b in Settled(free) && m[i][b].Bound? && r.upper == m[i][b].value as real + v[b] && r.uStrict == !m[i][b].weak
  }

  /** The ends of the range are bounds that are really there. */
  lemma {:induction false} EndsOfRange(m: Dbm, v: Valuation, free: seq<bool>, i: nat, n: nat, slack: real) returns (a: nat, b: nat)
    requires Valid(m) && Consistent(m, v, free) && NearLowest(m, v, free, slack) && HasRoom(m, slack)
    requires 0 < i < |m| && 0 < n <= |m|
    ensures LowerFrom(m, v, free, i, RangeOf(m, v, free, i, n), a) && UpperFrom(m, v, free, i, RangeOf(m, v, free, i, n), b)
    ensures var r := RangeOf(m, v, free, i, n);
      r.lower >= 0.0 && r.upper <= INFINITY as real && (r.upper == INFINITY as real ==> r.uStrict)
  {
    if n == 1 {
      assert m[0][i].Bound? && m[0][i].value <= 0;
      a, b := 0, if m[i][0].Bound? then 0 else |m|;
    } else {
      a, b := EndsOfRange(m, v, free, i, n - 1, slack);
      if !free[n - 1] {
        var r := RangeOf(m, v, free, i, n - 1);
        SettledValue(m, v, free, n - 1, slack);
        if Narrowed(r, m[i][n - 1], m[n - 1][i], v[n - 1]).lower != r.lower ||
          Narrowed(r, m[i][n - 1], m[n - 1][i], v[n - 1]).lStrict != r.lStrict
        {
          a := n - 1;
        }
        if Narrowed(r, m[i][n - 1], m[n - 1][i], v[n - 1]).upper != r.upper ||
          Narrowed(r, m[i][n - 1], m[n - 1][i], v[n - 1]).uStrict != r.uStrict
        {
          b := n - 1;
        }
      }
    }
  }

  lemma SettledValue(m: Dbm, v: Valuation, free: seq<bool>, j: nat, slack: real)
    requires Valid(m) && Consistent(m, v, free) && NearLowest(m, v, free, slack) && HasRoom(m, slack)
    requires j < |m| && j in Settled(free)
    ensures 0.0 <= v[j] < INFINITY as real
  {
    assert Lowest(m, j) + slack < INFINITY as real;
    assert Sat(v[0] - v[j], m[0][j]);
    SatLe(v[0] - v[j], m[0][j], LE_ZERO);
  }

  /** Clock i gets a value that agrees with the others and is not far above its lowest one. */
  lemma PickExtends(m: Dbm, v: Valuation, free: seq<bool>, i: nat, slack: real)
    requires Valid(m) && Consistent(m, v, free) && NearLowest(m, v, free, slack) && HasRoom(m, slack)
    requires 0 < i < |m| && free[i]
    ensures var w := v[i := Pick(RangeOf(m, v, free, i, |m|))];
      Consistent(m, w, free[i := false]) && NearLowest(m, w, free[i := false], slack + 1.0)
  {
    var r := RangeOf(m, v, free, i, |m|);
    var a, b := EndsOfRange(m, v, free, i, |m|, slack);
    RangeIsNotEmpty(m, v, free, i, r, a, b, slack);
    PickIsWithin(r);
    var t := Pick(r);
    var w := v[i := t];
    assert m[i][i] == LE_ZERO;
    forall x, y {:trigger m[x][y]} | 0 <= x < |m| && 0 <= y < |m| && x in Settled(free[i := false]) && y in Settled(free[i := false])
      ensures Sat(w[x] - w[y], m[x][y])
    {
      if x != i && y != i {
        assert x in Settled(free) && y in Settled(free);
      } else if x != y {
        WithinRespects(m, v, free, i, |m|, t, if x == i then y else x);
      }
    }
  }

  lemma RangeIsNotEmpty(m: Dbm, v: Valuation, free: seq<bool>, i: nat, r: Range, a: nat, b: nat, slack: real)
    requires Valid(m) && Consistent(m, v, free) && NearLowest(m, v, free, slack) && HasRoom(m, slack)
    requires 0 < i < |m| && LowerFrom(m, v, free, i, r, a) && UpperFrom(m, v, free, i, r, b)
    ensures r.lower < r.upper || (r.lower == r.upper && !r.lStrict && !r.uStrict)
    ensures r.lower <= Lowest(m, i) + slack
  {
    Triangle(m, 0, a, i);
    assert v[a] <= Lowest(m, a) + slack;
    assert Lowest(m, i) + slack < INFINITY as real;
    assert m[0][i].Bound? && m[0][a].Bound? by {
      assert Le(m[0][i], LE_ZERO) && Le(m[0][a], LE_ZERO);
    }
    if b < |m| {
      EdgesCompatible(m, v, Settled(free), i, a, b);
    }
  }

  // ----- All clocks -----

  /** The values after the clocks below i were dealt with, and which clocks have none yet. */
  function FillTo(m: Dbm, v: Valuation, free: seq<bool>, i: nat): (r: (Valuation, seq<bool>))
    requires |v| == |free| == |m| && i <= |m|
    ensures |r.0| == |r.1| == |m|
  {
    if i <= 1 then (v, free)
    else
      var (w, f) := FillTo(m, v, free, i - 1);
      if f[i - 1] then (w[i - 1 := Pick(RangeOf(m, w, f, i - 1, |m|))], f[i - 1 := false]) else (w, f)
  }

  /** The reference clock and the free clocks read 0 to begin with. */
  function Start(v: Valuation, free: seq<bool>): (w: Valuation)
    requires |v| == |free|
    ensures |w| == |v|
  {
    seq(|v|, i requires 0 <= i < |v| => if i == 0 || free[i] then 0.0 else v[i])
  }

  /** How many of the clocks from 1 up to i - 1 are free. */
  function Picks(free: seq<bool>, i: nat): (p: nat)
    requires i <= |free|
  {
    if i <= 1 then 0 else Picks(free, i - 1) + if free[i - 1] then 1 else 0
  }

  /** Given values are not changed, and all others are picked in turn. */
  lemma {:induction false} GivenAreKept(m: Dbm, v: Valuation, free: seq<bool>, i: nat)
    requires |v| == |free| == |m| && i <= |m|
    ensures forall j {:trigger FillTo(m, v, free, i).0[j]} :: 0 <= j < |m| && (j == 0 || !free[j]) ==> FillTo(m, v, free, i).0[j] == v[j]
    ensures forall j {:trigger FillTo(m, v, free, i).1[j]} :: 0 <= j < |m| ==> FillTo(m, v, free, i).1[j] == (free[j] && (j == 0 || j >= i))
  {
    if i > 1 {
      GivenAreKept(m, v, free, i - 1);
    }
  }

  /** Every pick moves values at most 1 further from the lowest ones; room is needed before the last pick only. */
  lemma {:induction false} FillKeeps(m: Dbm, v: Valuation, free: seq<bool>, i: nat, slack: real)
    requires Valid(m) && Consistent(m, v, free) && NearLowest(m, v, free, slack) && slack >= 0.0 && i <= |m|
    requires Picks(free, i) > 0 ==> HasRoom(m, slack + (Picks(free, i) - 1) as real)
    ensures var (w, f) := FillTo(m, v, free, i); Consistent(m, w, f) && NearLowest(m, w, f, slack + Picks(free, i) as real)
  {
    if i > 1 {
      if 0 < Picks(free, i - 1) < Picks(free, i) {
        LessRoom(m, slack + (Picks(free, i) - 1) as real, slack + (Picks(free, i - 1) - 1) as real);
      }
      FillKeeps(m, v, free, i - 1, slack);
      GivenAreKept(m, v, free, i - 1);
      var (w, f) := FillTo(m, v, free, i - 1);
      if f[i - 1] {
        PickExtends(m, w, f, i - 1, slack + Picks(free, i - 1) as real);
      }
    }
  }

  lemma LessRoom(m: Dbm, slack: real, less: real)
    requires HasRoom(m, slack) && 0.0 <= less <= slack
    ensures HasRoom(m, less)
  {
    forall j {:trigger Lowest(m, j)} | 0 <= j < |m| ensures Lowest(m, j) + less < INFINITY as real {
      assert Lowest(m, j) + slack < INFINITY as real;
    }
  }

  /** Values that agree with each other are completed to a point of the zone. */
  lemma FillIsPoint(m: Dbm, v: Valuation, free: seq<bool>, slack: real)
    requires Valid(m) && Consistent(m, v, free) && NearLowest(m, v, free, slack) && slack >= 0.0
    requires Picks(free, |m|) > 0 ==> HasRoom(m, slack + (Picks(free, |m|) - 1) as real)
    ensures InZone(FillTo(m, v, free, |m|).0, m)
  {
    FillKeeps(m, v, free, |m|, slack);
    GivenAreKept(m, v, free, |m|);
    var (w, f) := FillTo(m, v, free, |m|);
    forall j | 0 <= j < |m| ensures j in Settled(f) {
      assert f[j] == (free[j] && (j == 0 || j >= |m|));
    }
    forall i, j {:trigger m[i][j]} | 0 <= i < |m| && 0 <= j < |m| ensures Sat(w[i] - w[j], m[i][j]) {
      assert i in Settled(f) && j in Settled(f);
    }
  }

  // ----- When a point is always found -----

  ghost predicate AllInRange(m: Dbm) {
    forall i, j {:trigger m[i][j]} :: 0 <= i < |m| && 0 <= j < |m| ==> InRange(m[i][j])
  }

  /** The values given for clocks are at most top. */
  ghost predicate GivenUpTo(v: Valuation, free: seq<bool>, top: real)
    requires |v| == |free|
  {
    forall j {:trigger v[j]} :: 0 < j < |v| && !free[j] ==> v[j] <= top
  }

  /** For every valid matrix of dimension n, given values that agree with each other are completed to a point. */
  ghost predicate AlwaysCompleted(n: nat, top: real) {
    forall m: Dbm, v: Valuation, free: seq<bool> {:trigger FillTo(m, v, free, n)} ::
      |m| == n && Valid(m) && AllInRange(m) && Consistent(m, v, free) && GivenUpTo(v, free, top) ==> InZone(FillTo(m, v, free, n).0, m)
  }

  /** How large the given values may become when n clocks, the reference included, are to be completed. */
  function Limit(n: nat): int {
    0x2000_0000 - (n - 3)
  }

  lemma {:induction false} FewPicks(free: seq<bool>, i: nat, j: nat)
    requires i <= |free|
    ensures Picks(free, i) <= if i == 0 then 0 else i - 1
    ensures 0 < j < i && !free[j] ==> Picks(free, i) <= i - 2
  {
    if i > 1 {
      FewPicks(free, i - 1, j);
    }
  }

  lemma RoomInRange(m: Dbm, slack: real)
    requires Valid(m) && AllInRange(m) && slack >= 0.0 && 0x1fff_ffff as real + slack < INFINITY as real
    ensures HasRoom(m, slack) && forall j {:trigger Lowest(m, j)} :: 0 <= j < |m| ==> Lowest(m, j) >= 0.0
  {
    forall j {:trigger Lowest(m, j)} | 0 <= j < |m| ensures 0.0 <= Lowest(m, j) <= 0x1fff_ffff as real {
      assert InRange(m[0][j]) && Le(m[0][j], LE_ZERO);
    }
    forall i, j {:trigger m[i][j]} | 0 <= i < |m| && 0 <= j < |m| && m[i][j].Bound? ensures m[i][j].value < INFINITY {
      assert InRange(m[i][j]);
    }
  }

  lemma SmallAreCompleted(m: Dbm, v: Valuation, free: seq<bool>, top: real)
    requires |m| <= 0xffff && Valid(m) && AllInRange(m) && Consistent(m, v, free) && GivenUpTo(v, free, top)
    requires |m| <= 2 || top < Limit(|m|) as real
    ensures InZone(FillTo(m, v, free, |m|).0, m)
  {
    var n, picks := |m|, Picks(free, |m|);
    assert m[0][0] == LE_ZERO;
    if j: nat :| 0 < j < n && !free[j] {
      FewPicks(free, n, j);
      var slack := if top >= 0.0 then top else 0.0;
      if picks > 0 {
        RoomInRange(m, slack + (picks - 1) as real);
      } else {
        RoomInRange(m, 0.0);
      }
      GivenNearLowest(m, v, free, slack, top);
      FillIsPoint(m, v, free, slack);
    } else {
      FewPicks(free, n, 0);
      RoomInRange(m, n as real);
      LessRoom(m, n as real, if picks > 0 then (picks - 1) as real else 0.0);
      GivenNearLowest(m, v, free, 0.0, 0.0);
      FillIsPoint(m, v, free, 0.0);
    }
  }

  lemma GivenNearLowest(m: Dbm, v: Valuation, free: seq<bool>, slack: real, top: real)
    requires Consistent(m, v, free) && GivenUpTo(v, free, top) && slack >= 0.0 && slack >= top
    requires forall j {:trigger Lowest(m, j)} :: 0 <= j < |m| ==> Lowest(m, j) >= 0.0
    ensures NearLowest(m, v, free, slack)
  {
    forall j {:trigger v[j]} | 0 <= j < |m| && j in Settled(free) ensures v[j] <= Lowest(m, j) + slack {
      assert Lowest(m, j) >= 0.0;
    }
  }

  // ----- When it is not -----

  /** The farthest that a valid bound reaches. */
  const FAR: int := 0x1fff_ffff

  /** 0 <= x1 < x2 < ... < x(n-2), and x(n-1) is more than FAR beyond. */
  function ChainEntry(n: nat, i: nat, j: nat): Raw {
    if i == j then LE_ZERO
    else if i > j then Inf
    else if j + 1 == n then Bound(-FAR, false)
    else if i == 0 && j == 1 then LE_ZERO
    else Bound(0, false)
  }

  lemma ChainTriangle(n: nat, i: nat, p: nat, j: nat)
    requires 3 <= n && i < n && p < n && j < n
    ensures Le(ChainEntry(n, i, j), Add(ChainEntry(n, i, p), ChainEntry(n, p, j)))
  {
  }

  ghost predicate IsChain(m: Dbm, n: nat) {
    3 <= n == |m| && forall i: nat, j: nat {:trigger m[i][j]} :: i < n && j < n ==> m[i][j] == ChainEntry(n, i, j)
  }

  lemma ChainIsValid(m: Dbm, n: nat)
    requires IsChain(m, n)
    ensures Valid(m) && AllInRange(m)
  {
    forall p | 0 <= p < |m| ensures Through(m, p) {
      ChainThrough(m, n, p);
    }
    ChainInRange(m, n);
  }

  lemma ChainThrough(m: Dbm, n: nat, p: nat)
    requires IsChain(m, n) && p < n
    ensures Through(m, p)
  {
    forall i, j {:trigger m[i][j]} | 0 <= i < n && 0 <= j < n ensures Le(m[i][j], Add(m[i][p], m[p][j])) {
      ChainTriangle(n, i, p, j);
      assert m[i][p] == ChainEntry(n, i, p) && m[p][j] == ChainEntry(n, p, j);
    }
  }

  lemma ChainInRange(m: Dbm, n: nat)
    requires IsChain(m, n)
    ensures AllInRange(m)
    ensures forall i :: 0 <= i < |m| ==> m[i][i] == LE_ZERO && Le(m[0][i], LE_ZERO)
  {
    forall i | 0 <= i < |m| ensures m[i][i] == LE_ZERO && Le(m[0][i], LE_ZERO) {
      assert m[i][i] == ChainEntry(n, i, i) && m[0][i] == ChainEntry(n, 0, i);
    }
  }

  /** The clocks from 1 to i - 1 have the values first, first + 1, ...; the others have none. */
  ghost predicate Stairs(w: Valuation, f: seq<bool>, n: nat, i: nat, first: int) {
    |w| == |f| == n && 2 <= i <= n && w[0] == 0.0 &&
    (forall j {:trigger w[j]} :: 0 < j < i ==> w[j] == (first + j - 1) as real) &&
    forall j {:trigger f[j]} :: 0 < j < n ==> f[j] == (j >= i)
  }

  /** Below clock i only the last step counts; the range has no upper end but the number for infinity. */
  lemma {:induction false} StairRange(m: Dbm, w: Valuation, f: seq<bool>, n: nat, i: nat, k: nat, first: int)
    requires IsChain(m, n) && Stairs(w, f, n, i, first) && first > 0 && i < n && 2 <= k <= n
    ensures var last := if k < i then k else i;
      RangeOf(m, w, f, i, k) == Range((first + last - 2 + if i + 1 == n then FAR else 0) as real, true, INFINITY as real, true)
  {
    assert m[0][i] == ChainEntry(n, 0, i) && m[i][0] == Inf;
    assert m[i][k - 1] == ChainEntry(n, i, k - 1) && m[k - 1][i] == ChainEntry(n, k - 1, i);
    if k == 2 {
      StairOwn(m, w, f, n, i, k - 1);
    } else {
      StairRange(m, w, f, n, i, k - 1, first);
    }
  }

  lemma StairOwn(m: Dbm, w: Valuation, f: seq<bool>, n: nat, i: nat, k: nat)
    requires IsChain(m, n) && |w| == |f| == n && 2 <= i < n && k == 1
    ensures RangeOf(m, w, f, i, k) == Range((if i + 1 == n then FAR else 0) as real, true, INFINITY as real, true)
  {
    assert m[0][i] == ChainEntry(n, 0, i) && m[i][0] == Inf;
  }

  lemma StairPick(x: int)
    requires x + 1 < INFINITY
    ensures Pick(Range(x as real, true, INFINITY as real, true)) == (x + 1) as real
  {
    assert (x as real + 1.0).Floor == x + 1;
  }

  /** Each clock of the chain gets the next value. */
  lemma {:induction false} StairsGrow(m: Dbm, v: Valuation, free: seq<bool>, n: nat, i: nat, first: int)
    requires IsChain(m, n) && 2 <= i < n && first > 0 && first + n < INFINITY
    requires Stairs(v, free, n, 2, first)
    ensures Stairs(FillTo(m, v, free, i).0, FillTo(m, v, free, i).1, n, i, first)
  {
    if i == 2 {
      assert FillTo(m, v, free, i - 1) == (v, free);
    } else {
      StairsGrow(m, v, free, n, i - 1, first);
      var (w, f) := FillTo(m, v, free, i - 1);
      StairRange(m, w, f, n, i - 1, n, first);
      StairPick(first + i - 3);
    }
  }

  /** For the last clock nothing is left: its range is from the number for infinity to itself. */
  lemma ChainFails(m: Dbm, v: Valuation, free: seq<bool>, n: nat)
    requires IsChain(m, n) && n <= 0xffff && Stairs(v, free, n, 2, Limit(n))
    ensures !InZone(FillTo(m, v, free, n).0, m)
  {
    StairsGrow(m, v, free, n, n - 1, Limit(n));
    var (w, f) := FillTo(m, v, free, n - 1);
    StairRange(m, w, f, n, n - 1, n, Limit(n));
    assert Pick(Range(INFINITY as real, true, INFINITY as real, true)) == INFINITY as real;
    var u := FillTo(m, v, free, n).0;
    assert u[n - 1] == INFINITY as real && u[n - 2] == 0x2000_0000 as real;
    assert m[n - 2][n - 1] == ChainEntry(n, n - 2, n - 1);
    assert !Sat(u[n - 2] - u[n - 1], m[n - 2][n - 1]);
  }

  /** A matrix and a given value at the limit for which no point is found. */
  lemma SomeChainFails(n: nat, top: real) returns (m: Dbm, v: Valuation, free: seq<bool>)
    requires 3 <= n <= 0xffff && top >= Limit(n) as real
    ensures |m| == n && Valid(m) && AllInRange(m) && Consistent(m, v, free) && GivenUpTo(v, free, top)
    ensures !InZone(FillTo(m, v, free, n).0, m)
  {
    m := Closure.Build(n, (i: nat, j: nat) requires i < n && j < n => ChainEntry(n, i, j));
    ChainIsValid(m, n);
    v := seq(n, j requires 0 <= j < n => if j == 1 then Limit(n) as real else 0.0);
    free := seq(n, j requires 0 <= j < n => j != 1);
    assert Settled(free) == {0, 1};
    assert m[0][1] == LE_ZERO && m[1][0] == Inf && m[0][0] == LE_ZERO && m[1][1] == LE_ZERO;
    ChainFails(m, v, free, n);
  }

  /** The numbers that stand for infinite bounds do no harm exactly as long as the given values stay below a limit,
      which is about half of the number for infinity; with at most one clock besides the reference, never. */
  lemma CompletedExactly(n: nat, top: real)
    requires 1 <= n <= 0xffff
    ensures AlwaysCompleted(n, top) <==> n <= 2 || top < Limit(n) as real
  {
    if n <= 2 || top < Limit(n) as real {
      forall m: Dbm, v: Valuation, free: seq<bool> {:trigger FillTo(m, v, free, n)} |
        |m| == n && Valid(m) && AllInRange(m) && Consistent(m, v, free) && GivenUpTo(v, free, top)
        ensures InZone(FillTo(m, v, free, n).0, m)
      {
        SmallAreCompleted(m, v, free, top);
      }
    } else {
      var m, v, free := SomeChainFails(n, top);
      assert !InZone(FillTo(m, v, free, n).0, m);
    }
  }

  // ----- The method -----

  /** dbm_isRealPointIncluded */
  method IsRealPointIncluded(pt: array<real>, a: array2<Raw>) returns (r: bool)
    requires IsSquare(a) && pt.Length == a.Length0
    ensures r <==> Meets(pt[..], Mat(a))
  {
    var i := 0;
    while i < a.Length0
      invariant 0 <= i <= a.Length0
      invariant forall x, y {:trigger a[x, y]} :: 0 <= x < i && 0 <= y < a.Length0 ==> Sat(pt[x] - pt[y], a[x, y])
    {
      var j := 0;
      while j < a.Length0
        invariant 0 <= j <= a.Length0
        invariant forall y {:trigger a[i, y]} :: 0 <= y < j ==> Sat(pt[i] - pt[y], a[i, y])
      {
        if a[i, j] != Inf && (if !a[i, j].weak then pt[i] >= pt[j] + a[i, j].value as real else pt[i] > pt[j] + a[i, j].value as real) {
          assert !Sat(pt[..][i] - pt[..][j], Mat(a)[i][j]);
          return false;
        }
        j := j + 1;
      }
      i := i + 1;
    }
    return true;
  }

  /** The loop on j: derive the range for clock i. */
  method Derive(a: array2<Raw>, cval: array<real>, freeC: array<bool>, i: nat) returns (r: Range)
    requires IsSquare(a) && cval.Length == freeC.Length == a.Length0 && i < a.Length0
    ensures r == RangeOf(Mat(a), cval[..], freeC[..], i, a.Length0)
  {
    r := OwnRange(a[0, i], a[i, 0]);
    var j := 1;
    while j < a.Length0
      invariant 1 <= j <= a.Length0 && r == RangeOf(Mat(a), cval[..], freeC[..], i, j)
    {
      if !freeC[j] {
        r := Narrowed(r, a[i, j], a[j, i], cval[j]);
      }
      j := j + 1;
    }
  }

  /** dbm_t::ptr_getValuation.  What it returns says whether the values are a point of the zone. */
  method GetValuation(a: array2<Raw>, cval: array<real>, freeC: array<bool>) returns (r: bool)
    requires IsSquare(a) && cval.Length == freeC.Length == a.Length0
    modifies cval, freeC
    ensures cval[..] == FillTo(Mat(a), Start(old(cval[..]), old(freeC[..])), old(freeC[..]), a.Length0).0
    ensures r <==> Meets(cval[..], Mat(a))
  {
    ghost var m, free := Mat(a), freeC[..];
    ghost var v := Start(cval[..], free);
    Clear(cval, freeC);
    var i := 1;
    while i < a.Length0
      invariant 1 <= i <= a.Length0 && (cval[..], freeC[..]) == FillTo(m, v, free, i)
    {
      if freeC[i] {
        var range := Derive(a, cval, freeC, i);
        cval[i] := Pick(range);
        freeC[i] := false;
      }
      i := i + 1;
    }
    r := IsRealPointIncluded(cval, a);
  }

  method Clear(cval: array<real>, freeC: array<bool>)
    requires cval.Length == freeC.Length > 0
    modifies cval
    ensures cval[..] == Start(old(cval[..]), freeC[..])
  {
    cval[0] := 0.0;
    var i := 1;
    while i < cval.Length
      invariant 1 <= i <= cval.Length && cval[0] == 0.0
      invariant forall j {:trigger cval[j]} :: 0 < j < cval.Length ==> cval[j] == if j < i && freeC[j] then 0.0 else old(cval[j])
    {
      if freeC[i] {
        cval[i] := 0.0;
      }
      i := i + 1;
    }
  }
}
