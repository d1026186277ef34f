/** The operations of src/dbm.c that skip closing because a closed matrix stays closed: delay, past,
    freeing and resetting clocks.  Each is shown to give exactly the set-theoretic image. */
module Images {
  import opened Bounds
  import opened Zones
  import opened Closing

  /** v after every clock but the reference has moved by d. */
  ghost function Delay(v: Valuation, d: real): (w: Valuation)
    ensures |w| == |v|
    ensures forall i {:trigger w[i]} :: 0 <= i < |v| ==> w[i] == if i == 0 then v[0] else v[i] + d
  {
    seq(|v|, i requires 0 <= i < |v| => if i == 0 then v[0] else v[i] + d)
  }

  ghost predicate NonNegative(v: Valuation) {
    forall i {:trigger v[i]} :: 0 <= i < |v| ==> v[i] >= 0.0
  }

  // ----- Moving one clock into the zone -----

  /** v meets the bounds except, perhaps, the ones from above on clock k. */
  ghost predicate MeetsButRow(v: Valuation, m: Dbm, k: nat) {
    |v| == |m| &&
    forall i, j {:trigger m[i][j]} :: 0 <= i < |m| && 0 <= j < |m| && i != k ==> Sat(v[i] - v[j], m[i][j])
  }

  /** v meets the bounds except, perhaps, the ones from below on clock k. */
  ghost predicate MeetsButColumn(v: Valuation, m: Dbm, k: nat) {
    |v| == |m| &&
    forall i, j {:trigger m[i][j]} :: 0 <= i < |m| && 0 <= j < |m| && j != k ==> Sat(v[i] - v[j], m[i][j])
  }

  ghost predicate MeetsBut(v: Valuation, m: Dbm, k: nat) {
    |v| == |m| &&
    forall i, j {:trigger m[i][j]} :: 0 <= i < |m| && 0 <= j < |m| && i != k && j != k ==> Sat(v[i] - v[j], m[i][j])
  }

  /** Clock k can be placed in the zone. */
  lemma PlaceClock(m: Dbm, v: Valuation, k: nat) returns (t: real)
    requires Canonical(m) && k < |m| && MeetsBut(v, m, k)
    ensures Meets(v[k := t], m)
  {
    var S := Prefix(|m|) - {k};
    assert MeetsOn(v, m, S);
    t := Extend(m, v, S, k);
    var w := v[k := t];
    forall i, j {:trigger m[i][j]} | 0 <= i < |m| && 0 <= j < |m| ensures Sat(w[i] - w[j], m[i][j]) {
      assert i in S + {k} && j in S + {k};
    }
  }

  /** When only bounds from above on clock k fail, lowering it is enough. */
  lemma LowerClock(m: Dbm, v: Valuation, k: nat) returns (t: real)
    requires Canonical(m) && k < |m| && MeetsButRow(v, m, k)
    ensures t <= v[k] && Meets(v[k := t], m)
  {
    t := PlaceClock(m, v, k);
    if t > v[k] {
      var w := v[k := t];
      assert v[k := v[k]] == v;
      forall i, j {:trigger m[i][j]} | 0 <= i < |m| && 0 <= j < |m| ensures Sat(v[i] - v[j], m[i][j]) {
        if i == k {
          assert Sat(w[k] - w[j], m[k][j]);
          if j == k {
            assert m[k][k] == LE_ZERO;
          }
        }
      }
      t := v[k];
    }
  }

  /** When only bounds from below on clock k fail, raising it is enough. */
  lemma RaiseClock(m: Dbm, v: Valuation, k: nat) returns (t: real)
    requires Canonical(m) && k < |m| && MeetsButColumn(v, m, k)
    ensures t >= v[k] && Meets(v[k := t], m)
  {
    t := PlaceClock(m, v, k);
    if t < v[k] {
      var w := v[k := t];
      assert v[k := v[k]] == v;
      forall i, j {:trigger m[i][j]} | 0 <= i < |m| && 0 <= j < |m| ensures Sat(v[i] - v[j], m[i][j]) {
        if j == k {
          assert Sat(w[i] - w[k], m[i][k]);
          if i == k {
            assert m[k][k] == LE_ZERO;
          }
        }
      }
      t := v[k];
    }
  }

  /** Moving the reference clock by t is delaying every other clock by -t. */
  lemma MovedReference(m: Dbm, v: Valuation, t: real)
    requires |v| == |m| && v[0] == 0.0
    ensures Meets(v[0 := t], m) <==> InZone(Delay(v, -t), m)
  {
    var w, u := v[0 := t], Delay(v, -t);
    assert forall i, j :: 0 <= i < |m| && 0 <= j < |m| ==> w[i] - w[j] == u[i] - u[j];
  }

  // ----- Delay -----

  ghost predicate IsUp(m: Dbm, m': Dbm) {
    |m'| == |m| && forall i, j {:trigger m'[i][j]} :: 0 <= i < |m| && 0 <= j < |m| ==>
      m'[i][j] == if i > 0 && j == 0 then Inf else m[i][j]
  }

  /** Some point of m reaches v by letting time pass. */
  ghost predicate ReachedFrom(v: Valuation, m: Dbm) {
    exists d: real :: d <= 0.0 && InZone(Delay(v, d), m)
  }

  lemma UpIsDelay(m: Dbm, m': Dbm, v: Valuation)
    requires Valid(m) && IsUp(m, m') && |v| == |m| && v[0] == 0.0
    ensures InZone(v, m') <==> ReachedFrom(v, m)
  {
    if InZone(v, m') {
      assert MeetsButColumn(v, m, 0) by {
        forall i, j {:trigger m[i][j]} | 0 <= i < |m| && 0 <= j < |m| && j != 0 ensures Sat(v[i] - v[j], m[i][j]) {
          assert m'[i][j] == m[i][j];
        }
      }
      var t := RaiseClock(m, v, 0);
      MovedReference(m, v, t);
      assert -t <= 0.0;
    }
    if ReachedFrom(v, m) {
      var d: real :| d <= 0.0 && InZone(Delay(v, d), m);
      var u := Delay(v, d);
      forall i, j {:trigger m'[i][j]} | 0 <= i < |m| && 0 <= j < |m| ensures Sat(v[i] - v[j], m'[i][j]) {
        MeetsAt(u, m, i, j);
      }
    }
  }

  lemma UpStaysValid(m: Dbm, m': Dbm)
    requires Valid(m) && IsUp(m, m')
    ensures Valid(m')
  {
    forall p | 0 <= p < |m| ensures Through(m', p) {
      forall i, j {:trigger m'[i][j]} | 0 <= i < |m| && 0 <= j < |m| ensures Le(m'[i][j], Add(m'[i][p], m'[p][j])) {
        Triangle(m, i, p, j);
        assert m[0][0] == LE_ZERO;
      }
    }
    forall i | 0 <= i < |m| ensures m'[i][i] == LE_ZERO {
      assert m[i][i] == LE_ZERO;
    }
  }

  /** dbm_up */
  method Up(a: array2<Raw>)
    requires IsSquare(a) && Valid(Mat(a))
    modifies a
    ensures IsUp(old(Mat(a)), Mat(a)) && Valid(Mat(a))
    ensures forall v: Valuation | |v| == a.Length0 && v[0] == 0.0 :: InZone(v, Mat(a)) <==> ReachedFrom(v, old(Mat(a)))
  {
    ghost var m := Mat(a);
    var i := 1;
    while i < a.Length0
      invariant 1 <= i <= a.Length0
      invariant forall x, y {:trigger a[x, y]} :: 0 <= x < a.Length0 && 0 <= y < a.Length0 ==>
        a[x, y] == if 0 < x < i && y == 0 then Inf else m[x][y]
    {
      a[i, 0] := Inf;
      i := i + 1;
    }
    ghost var m' := Mat(a);
    assert IsUp(m, m');
    UpStaysValid(m, m');
    forall v: Valuation | |v| == |m| && v[0] == 0.0 ensures InZone(v, m') <==> ReachedFrom(v, m) {
      UpIsDelay(m, m', v);
    }
  }

  // ----- Past -----

  /** The smallest of "<= 0" and the entries (1, j), ..., (n - 1, j). */
  function MinColumn(m: Dbm, j: nat, n: nat): Raw
    requires j < |m| && 1 <= n <= |m|
  {
    if n == 1 then LE_ZERO else Min(MinColumn(m, j, n - 1), m[n - 1][j])
  }

  lemma {:induction false} MinColumnBelow(m: Dbm, j: nat, n: nat, i: nat)
    requires j < |m| && 1 <= n <= |m| && i < n
    ensures Le(MinColumn(m, j, n), LE_ZERO)
    ensures i > 0 ==> Le(MinColumn(m, j, n), m[i][j])
  {
    if n > 1 {
      MinColumnBelow(m, j, n - 1, if i == n - 1 then 0 else i);
    }
  }

  lemma {:induction false} MinColumnAttained(m: Dbm, j: nat, n: nat) returns (i: nat)
    requires j < |m| && 1 <= n <= |m|
    ensures i < n && MinColumn(m, j, n) == if i == 0 then LE_ZERO else m[i][j]
  {
    if n == 1 {
      i := 0;
    } else if Lt(m[n - 1][j], MinColumn(m, j, n - 1)) {
      i := n - 1;
    } else {
      i := MinColumnAttained(m, j, n - 1);
    }
  }

  ghost predicate IsDown(m: Dbm, m': Dbm) {
    |m'| == |m| && forall i, j {:trigger m'[i][j]} :: 0 <= i < |m| && 0 <= j < |m| ==>
      m'[i][j] == if i == 0 && j > 0 then MinColumn(m, j, |m|) else m[i][j]
  }

  /** v reaches some point of m by letting time pass. */
  ghost predicate Reaches(v: Valuation, m: Dbm) {
    exists d: real :: d >= 0.0 && InZone(Delay(v, d), m)
  }

  lemma DownIsPast(m: Dbm, m': Dbm, v: Valuation)
    requires Valid(m) && IsDown(m, m') && |v| == |m| && v[0] == 0.0
    ensures InZone(v, m') <==> NonNegative(v) && Reaches(v, m)
  {
    if InZone(v, m') {
      forall j {:trigger v[j]} | 0 <= j < |v| ensures v[j] >= 0.0 {
        if j > 0 {
          MinColumnBelow(m, j, |m|, 0);
          MeetsAt(v, m', 0, j);
          SatLe(v[0] - v[j], m'[0][j], LE_ZERO);
        }
      }
      assert MeetsButRow(v, m, 0) by {
        forall i, j {:trigger m[i][j]} | 0 <= i < |m| && 0 <= j < |m| && i != 0 ensures Sat(v[i] - v[j], m[i][j]) {
          assert m'[i][j] == m[i][j];
        }
      }
      var t := LowerClock(m, v, 0);
      MovedReference(m, v, t);
      assert -t >= 0.0;
    }
    if NonNegative(v) && Reaches(v, m) {
      var d: real :| d >= 0.0 && InZone(Delay(v, d), m);
      var u := Delay(v, d);
      forall i, j {:trigger m'[i][j]} | 0 <= i < |m| && 0 <= j < |m| ensures Sat(v[i] - v[j], m'[i][j]) {
        if i == 0 && j > 0 {
          var x := MinColumnAttained(m, j, |m|);
          if x > 0 {
            MeetsAt(u, m, x, j);
          }
        } else {
          MeetsAt(u, m, i, j);
        }
      }
    }
  }

  lemma DownStaysValid(m: Dbm, m': Dbm)
    requires Valid(m) && IsDown(m, m')
    ensures Valid(m')
  {
    forall p | 0 <= p < |m| ensures Through(m', p) {
      forall i, j {:trigger m'[i][j]} | 0 <= i < |m| && 0 <= j < |m| ensures Le(m'[i][j], Add(m'[i][p], m'[p][j])) {
        DownTriangle(m, m', i, p, j);
      }
    }
    forall i | 0 <= i < |m| ensures m'[i][i] == LE_ZERO {
      assert m[i][i] == LE_ZERO;
    }
    forall j | 0 <= j < |m| ensures Le(m'[0][j], LE_ZERO) {
      if j > 0 {
        MinColumnBelow(m, j, |m|, 0);
      }
    }
  }

  lemma DownTriangle(m: Dbm, m': Dbm, i: nat, p: nat, j: nat)
    requires Valid(m) && IsDown(m, m') && i < |m| && p < |m| && j < |m|
    ensures Le(m'[i][j], Add(m'[i][p], m'[p][j]))
  {
    assert m[0][0] == LE_ZERO && m'[0][0] == m[0][0];
    if i == 0 && j > 0 && p > 0 {
      var x := MinColumnAttained(m, p, |m|);
      if x == 0 {
        MinColumnBelow(m, j, |m|, p);
      } else {
        MinColumnBelow(m, j, |m|, x);
        Triangle(m, x, p, j);
      }
    } else if i == 0 && j == 0 && p > 0 {
      var x := MinColumnAttained(m, p, |m|);
      if x == 0 {
        Triangle(m, 0, p, 0);
        assert Le(m[0][p], LE_ZERO);
      } else {
        Triangle(m, x, p, 0);
        Triangle(m, 0, x, 0);
        assert Le(m[0][x], LE_ZERO);
      }
    } else if i > 0 && p == 0 && j > 0 {
      var x := MinColumnAttained(m, j, |m|);
      Triangle(m, i, 0, j);
      assert Le(m[0][j], LE_ZERO);
      if x > 0 {
        Triangle(m, i, x, j);
        Triangle(m, i, 0, x);
        assert Le(m[0][x], LE_ZERO);
      }
    } else {
      Triangle(m, i, p, j);
    }
  }

  /** When the lower bound of j is "<= 0" already, the closed matrix leaves nothing to lower. */
  lemma NothingToLower(m: Dbm, j: nat)
    requires Valid(m) && 0 < j < |m| && !Lt(m[0][j], LE_ZERO)
    ensures m[0][j] == MinColumn(m, j, |m|)
  {
    var x := MinColumnAttained(m, j, |m|);
    MinColumnBelow(m, j, |m|, 0);
    assert Le(m[0][j], LE_ZERO);
    if x > 0 {
      Triangle(m, 0, x, j);
      assert Le(m[0][x], LE_ZERO);
    }
  }

  /** The lower bounds of the clocks before j are lowered. */
  ghost predicate DownTo(m: Dbm, k: Dbm, j: nat) {
    |k| == |m| && forall x, y {:trigger k[x][y]} :: 0 <= x < |m| && 0 <= y < |m| ==>
      k[x][y] == if x == 0 && 0 < y < j then MinColumn(m, y, |m|) else m[x][y]
  }

  /** A lower bound in the first row never turns infinite. */
  lemma RowStaysFinite(m: Dbm, k: Dbm, j: nat, i: nat)
    requires Valid(m) && DownTo(m, k, j) && i < |m|
    ensures k[0][i].Bound?
  {
    FirstRowFinite(m, i);
    if 0 < i {
      MinColumnBelow(m, i, |m|, 0);
    }
  }

  /** One turn of the loop on j: the lower bound of clock j. */
  method LowerColumn(a: array2<Raw>, j: nat, ghost m: Dbm)
    requires IsSquare(a) && Valid(m) && 0 < j < a.Length0 && DownTo(m, Mat(a), j)
    modifies a
    ensures DownTo(m, Mat(a), j + 1)
  {
    ghost var before := Mat(a);
    assert before[0][j] == a[0, j] && before[0][j] == m[0][j];
    if Lt(a[0, j], LE_ZERO) {
      a[0, j] := LE_ZERO;
      var i := 1;
      while i < a.Length0
        invariant 1 <= i <= a.Length0 && a[0, j] == MinColumn(m, j, i)
        invariant forall x, y {:trigger a[x, y]} :: 0 <= x < a.Length0 && 0 <= y < a.Length0 && !(x == 0 && y == j) ==> a[x, y] == before[x][y]
      {
        RowStaysFinite(m, before, j, i);
        MinColumnBelow(m, j, i, 0);
        assert a[0, i] != Inf && before[i][j] == m[i][j];
        if Lt(a[i, j], a[0, j]) && a[0, i] != Inf {
          a[0, j] := a[i, j];
        }
        i := i + 1;
      }
    } else {
      NothingToLower(m, j);
    }
  }

  /** dbm_downFrom: the clocks before j0 were dealt with. */
  method DownFrom(a: array2<Raw>, j0: nat, ghost m: Dbm)
    requires IsSquare(a) && Valid(m) && 0 < j0 <= a.Length0 && DownTo(m, Mat(a), j0)
    modifies a
    ensures IsDown(m, Mat(a))
  {
    var j := j0;
    while j < a.Length0
      invariant j0 <= j <= a.Length0 && DownTo(m, Mat(a), j)
    {
      LowerColumn(a, j, m);
      j := j + 1;
    }
  }

  /** dbm_down */
  method Down(a: array2<Raw>)
    requires IsSquare(a) && Valid(Mat(a))
    modifies a
    ensures IsDown(old(Mat(a)), Mat(a)) && Valid(Mat(a))
    ensures forall v: Valuation | |v| == a.Length0 && v[0] == 0.0 ::
      InZone(v, Mat(a)) <==> NonNegative(v) && Reaches(v, old(Mat(a)))
  {
    ghost var m := Mat(a);
    DownFrom(a, 1, m);
    ghost var m' := Mat(a);
    DownStaysValid(m, m');
    forall v: Valuation | |v| == |m| && v[0] == 0.0 ensures InZone(v, m') <==> NonNegative(v) && Reaches(v, m) {
      DownIsPast(m, m', v);
    }
  }

  lemma FirstRowFinite(m: Dbm, j: nat)
    requires Valid(m) && j < |m|
    ensures m[0][j].Bound?
  {
    assert Le(m[0][j], LE_ZERO);
  }
}
