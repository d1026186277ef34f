/** Freeing and assigning clocks (src/dbm.c).  None of these routines closes its result: it is closed
    because its argument was.  Each is shown to give exactly the image of the zone. */
module Updates {
  import opened Bounds
  import opened Zones
  import opened Closing
  import opened Images

  /** Where v may have come from when clock k was given a new value: the other clocks did not move. */
  ghost predicate CameFrom(v: Valuation, m: Dbm, k: nat, t: real) {
    k < |v| && InZone(v[k := t], m)
  }

  // ----- dbm_freeUp -----

  ghost predicate IsFreeUp(m: Dbm, k: nat, m': Dbm) {
    |m'| == |m| && forall i, j {:trigger m'[i][j]} :: 0 <= i < |m| && 0 <= j < |m| ==>
      m'[i][j] == if i == k && j != k then Inf else m[i][j]
  }

  lemma FreeUpIsExact(m: Dbm, k: nat, m': Dbm, v: Valuation)
    requires Valid(m) && 0 < k < |m| && IsFreeUp(m, k, m') && |v| == |m|
    ensures InZone(v, m') <==> exists t: real :: t <= v[k] && CameFrom(v, m, k, t)
  {
    if InZone(v, m') {
      assert MeetsButRow(v, m, k) by {
        forall i, j {:trigger m[i][j]} | 0 <= i < |m| && 0 <= j < |m| && i != k ensures Sat(v[i] - v[j], m[i][j]) {
          assert m'[i][j] == m[i][j];
        }
      }
      var t := LowerClock(m, v, k);
      assert CameFrom(v, m, k, t);
    }
    if t: real :| t <= v[k] && CameFrom(v, m, k, t) {
      var u := v[k := t];
      forall i, j {:trigger m'[i][j]} | 0 <= i < |m| && 0 <= j < |m| ensures Sat(v[i] - v[j], m'[i][j]) {
        MeetsAt(u, m, i, j);
      }
    }
  }

  lemma FreeUpStaysValid(m: Dbm, k: nat, m': Dbm)
    requires Valid(m) && 0 < k < |m| && IsFreeUp(m, k, m')
    ensures Valid(m')
  {
    forall p | 0 <= p < |m| ensures Through(m', p) {
      forall i, j {:trigger m'[i][j]} | 0 <= i < |m| && 0 <= j < |m| ensures Le(m'[i][j], Add(m'[i][p], m'[p][j])) {
        Triangle(m, i, p, j);
        assert m[k][k] == LE_ZERO;
      }
    }
    forall i | 0 <= i < |m| ensures m'[i][i] == LE_ZERO {
      assert m[i][i] == LE_ZERO;
    }
  }

  method FreeUp(a: array2<Raw>, k: nat)
    requires IsSquare(a) && Valid(Mat(a)) && 0 < k < a.Length0
    modifies a
    ensures Valid(Mat(a)) && IsFreeUp(old(Mat(a)), k, Mat(a))
    ensures forall v: Valuation | |v| == a.Length0 ::
      InZone(v, Mat(a)) <==> exists t: real :: t <= v[k] && CameFrom(v, old(Mat(a)), k, t)
  {
    ghost var m := Mat(a);
    var j := 0;
    while j < a.Length0
      invariant 0 <= j <= a.Length0
      invariant forall x, y {:trigger a[x, y]} :: 0 <= x < a.Length0 && 0 <= y < a.Length0 ==>
        a[x, y] == if x == k && y < j && y != k then Inf else m[x][y]
    {
      if j != k {
        a[k, j] := Inf;
      }
      j := j + 1;
    }
    ghost var m' := Mat(a);
    assert IsFreeUp(m, k, m');
    FreeUpStaysValid(m, k, m');
    forall v: Valuation | |v| == |m|
      ensures InZone(v, m') <==> exists t: real :: t <= v[k] && CameFrom(v, m, k, t)
    {
      FreeUpIsExact(m, k, m', v);
    }
  }

  // ----- dbm_freeDown -----

  ghost predicate IsFreeDown(m: Dbm, k: nat, m': Dbm) {
    |m'| == |m| && forall i, j {:trigger m'[i][j]} :: 0 <= i < |m| && 0 <= j < |m| ==>
      m'[i][j] == if j == k && i != k then m[i][0] else m[i][j]
  }

  lemma FreeDownIsExact(m: Dbm, k: nat, m': Dbm, v: Valuation)
    requires Valid(m) && 0 < k < |m| && IsFreeDown(m, k, m') && |v| == |m|
    ensures InZone(v, m') <==> v[k] >= 0.0 && exists t: real :: t >= v[k] && CameFrom(v, m, k, t)
  {
    assert m[0][0] == LE_ZERO;
    if InZone(v, m') {
      assert v[k] >= 0.0 by {
        MeetsAt(v, m', 0, k);
      }
      assert MeetsButColumn(v, m, k) by {
        forall i, j {:trigger m[i][j]} | 0 <= i < |m| && 0 <= j < |m| && j != k ensures Sat(v[i] - v[j], m[i][j]) {
          assert m'[i][j] == m[i][j];
        }
      }
      var t := RaiseClock(m, v, k);
      assert CameFrom(v, m, k, t);
    }
    if v[k] >= 0.0 && exists t: real :: t >= v[k] && CameFrom(v, m, k, t) {
      var t: real :| t >= v[k] && CameFrom(v, m, k, t);
      var u := v[k := t];
      forall i, j {:trigger m'[i][j]} | 0 <= i < |m| && 0 <= j < |m| ensures Sat(v[i] - v[j], m'[i][j]) {
        MeetsAt(u, m, i, j);
        MeetsAt(u, m, i, 0);
      }
    }
  }

  lemma FreeDownThrough(m: Dbm, k: nat, m': Dbm, p: nat)
    requires Valid(m) && 0 < k < |m| && IsFreeDown(m, k, m') && p < |m|
    ensures Through(m', p)
  {
    assert m[0][0] == LE_ZERO && m[k][k] == LE_ZERO;
    forall i, j {:trigger m'[i][j]} | 0 <= i < |m| && 0 <= j < |m| ensures Le(m'[i][j], Add(m'[i][p], m'[p][j])) {
      Triangle(m, i, p, j);
      Triangle(m, i, p, 0);
      Triangle(m, i, 0, j);
      Triangle(m, k, 0, j);
      assert Le(m[0][k], LE_ZERO);
      Triangle(m, i, k, 0);
      Triangle(m, i, 0, k);
    }
  }

  lemma FreeDownStaysValid(m: Dbm, k: nat, m': Dbm)
    requires Valid(m) && 0 < k < |m| && IsFreeDown(m, k, m')
    ensures Valid(m')
  {
    forall p | 0 <= p < |m| ensures Through(m', p) {
      FreeDownThrough(m, k, m', p);
    }
    forall i | 0 <= i < |m| ensures m'[i][i] == LE_ZERO {
      assert m[i][i] == LE_ZERO;
    }
  }

  method FreeDown(a: array2<Raw>, k: nat)
    requires IsSquare(a) && Valid(Mat(a)) && 0 < k < a.Length0
    modifies a
    ensures Valid(Mat(a)) && IsFreeDown(old(Mat(a)), k, Mat(a))
    ensures forall v: Valuation | |v| == a.Length0 ::
      InZone(v, Mat(a)) <==> v[k] >= 0.0 && exists t: real :: t >= v[k] && CameFrom(v, old(Mat(a)), k, t)
  {
    ghost var m := Mat(a);
    var i := 0;
    while i < a.Length0
      invariant 0 <= i <= a.Length0
      invariant forall x, y {:trigger a[x, y]} :: 0 <= x < a.Length0 && 0 <= y < a.Length0 ==>
        a[x, y] == if y == k && x < i && x != k then m[x][0] else m[x][y]
    {
      if i != k {
        a[i, k] := a[i, 0];
      }
      i := i + 1;
    }
    ghost var m' := Mat(a);
    assert IsFreeDown(m, k, m');
    FreeDownStaysValid(m, k, m');
    forall v: Valuation | |v| == |m|
      ensures InZone(v, m') <==> v[k] >= 0.0 && exists t: real :: t >= v[k] && CameFrom(v, m, k, t)
    {
      FreeDownIsExact(m, k, m', v);
    }
  }

  // ----- dbm_freeClock -----

  ghost predicate IsFree(m: Dbm, k: nat, m': Dbm) {
    |m'| == |m| && forall i, j {:trigger m'[i][j]} :: 0 <= i < |m| && 0 <= j < |m| ==>
      m'[i][j] == if i == k && j != k then Inf else if j == k && i != k then m[i][0] else m[i][j]
  }

  /** Clock k is free in the rows and columns before the i-th. */
  ghost predicate FreeBefore(m: Dbm, k: nat, i: nat) {
    k < |m| && i <= |m| && forall x {:trigger m[k][x]} {:trigger m[x][k]} :: 0 <= x < i && x != k ==> m[k][x] == Inf && m[x][k] == m[x][0]
  }

  lemma FreeingChangesNothing(m: Dbm, k: nat, m': Dbm)
    requires k < |m| && IsFree(m, k, m')
    ensures m' == m <==> FreeBefore(m, k, |m|)
  {
    if FreeBefore(m, k, |m|) {
      Closure.SameEntries(m', m);
    }
  }

  lemma FreeIsExact(m: Dbm, k: nat, m': Dbm, v: Valuation)
    requires Valid(m) && 0 < k < |m| && IsFree(m, k, m') && |v| == |m|
    ensures InZone(v, m') <==> v[k] >= 0.0 && exists t: real :: CameFrom(v, m, k, t)
  {
    assert m[0][0] == LE_ZERO;
    if InZone(v, m') {
      assert v[k] >= 0.0 by {
        MeetsAt(v, m', 0, k);
      }
      assert MeetsBut(v, m, k) by {
        forall i, j {:trigger m[i][j]} | 0 <= i < |m| && 0 <= j < |m| && i != k && j != k
          ensures Sat(v[i] - v[j], m[i][j])
        {
          assert m'[i][j] == m[i][j];
        }
      }
      var t := PlaceClock(m, v, k);
      assert CameFrom(v, m, k, t);
    }
    if v[k] >= 0.0 && exists t: real :: CameFrom(v, m, k, t) {
      var t: real :| CameFrom(v, m, k, t);
      var u := v[k := t];
      forall i, j {:trigger m'[i][j]} | 0 <= i < |m| && 0 <= j < |m| ensures Sat(v[i] - v[j], m'[i][j]) {
        if i != k && j != k {
          MeetsAt(u, m, i, j);
        } else if i != k {
          MeetsAt(u, m, i, 0);
        } else if j == k {
          assert m[k][k] == LE_ZERO;
        }
      }
    }
  }

  lemma FreeThrough(m: Dbm, k: nat, m': Dbm, p: nat)
    requires Valid(m) && 0 < k < |m| && IsFree(m, k, m') && p < |m|
    ensures Through(m', p)
  {
    assert m[0][0] == LE_ZERO && m[k][k] == LE_ZERO;
    forall i, j {:trigger m'[i][j]} | 0 <= i < |m| && 0 <= j < |m| ensures Le(m'[i][j], Add(m'[i][p], m'[p][j])) {
      Triangle(m, i, p, j);
      Triangle(m, i, p, 0);
    }
  }

  lemma FreeStaysValid(m: Dbm, k: nat, m': Dbm)
    requires Valid(m) && 0 < k < |m| && IsFree(m, k, m')
    ensures Valid(m')
  {
    forall p | 0 <= p < |m| ensures Through(m', p) {
      FreeThrough(m, k, m', p);
    }
    forall i | 0 <= i < |m| ensures m'[i][i] == LE_ZERO {
      assert m[i][i] == LE_ZERO;
    }
  }

  method FreeClock(a: array2<Raw>, k: nat)
    requires IsSquare(a) && Valid(Mat(a)) && 0 < k < a.Length0
    modifies a
    ensures Valid(Mat(a)) && IsFree(old(Mat(a)), k, Mat(a))
    ensures forall v: Valuation | |v| == a.Length0 ::
      InZone(v, Mat(a)) <==> v[k] >= 0.0 && exists t: real :: CameFrom(v, old(Mat(a)), k, t)
  {
    ghost var m := Mat(a);
    var i := 0;
    while i < a.Length0
      invariant 0 <= i <= a.Length0
      invariant forall x, y {:trigger a[x, y]} :: 0 <= x < a.Length0 && 0 <= y < a.Length0 ==>
        a[x, y] == if x == k && y < i && y != k then Inf
                   else if y == k && x < i && x != k then m[x][0] else m[x][y]
    {
      if i != k {
        a[k, i] := Inf;
        a[i, k] := a[i, 0];
      }
      i := i + 1;
    }
    ghost var m' := Mat(a);
    assert IsFree(m, k, m');
    FreeStaysValid(m, k, m');
    forall v: Valuation | |v| == |m|
      ensures InZone(v, m') <==> v[k] >= 0.0 && exists t: real :: CameFrom(v, m, k, t)
    {
      FreeIsExact(m, k, m', v);
    }
  }

  // ----- dbm_updateValue -----

  ghost predicate IsReset(m: Dbm, k: nat, value: int, m': Dbm) {
    |m'| == |m| && forall i, j {:trigger m'[i][j]} :: 0 <= i < |m| && 0 <= j < |m| ==>
      m'[i][j] == if i == k && j == k then LE_ZERO
                  else if i == k then Add(Bound(value, true), m[0][j])
                  else if j == k then Add(m[i][0], Bound(-value, true)) else m[i][j]
  }

  lemma ResetIsExact(m: Dbm, k: nat, value: int, m': Dbm, v: Valuation)
    requires Valid(m) && 0 < k < |m| && IsReset(m, k, value, m') && |v| == |m|
    ensures InZone(v, m') <==> v[k] == value as real && exists t: real :: CameFrom(v, m, k, t)
  {
    assert m[0][0] == LE_ZERO;
    if InZone(v, m') {
      MeetsAt(v, m', 0, k);
      MeetsAt(v, m', k, 0);
      assert v[k] == value as real;
      assert MeetsBut(v, m, k) by {
        forall i, j {:trigger m[i][j]} | 0 <= i < |m| && 0 <= j < |m| && i != k && j != k
          ensures Sat(v[i] - v[j], m[i][j])
        {
          assert m'[i][j] == m[i][j];
        }
      }
      var t := PlaceClock(m, v, k);
      assert CameFrom(v, m, k, t);
    }
    if v[k] == value as real && exists t: real :: CameFrom(v, m, k, t) {
      var t: real :| CameFrom(v, m, k, t);
      var u := v[k := t];
      forall i, j {:trigger m'[i][j]} | 0 <= i < |m| && 0 <= j < |m| ensures Sat(v[i] - v[j], m'[i][j]) {
        if i != k && j != k {
          MeetsAt(u, m, i, j);
        } else if i != k {
          MeetsAt(u, m, i, 0);
          SatAdd(v[i] - v[0], v[0] - v[k], m[i][0], Bound(-value, true));
        } else if j != k {
          MeetsAt(u, m, 0, j);
          SatAdd(v[k] - v[0], v[0] - v[j], Bound(value, true), m[0][j]);
        }
      }
    }
  }

  lemma ResetThrough(m: Dbm, k: nat, value: int, m': Dbm, p: nat)
    requires Valid(m) && value >= 0 && 0 < k < |m| && IsReset(m, k, value, m') && p < |m|
    ensures Through(m', p)
  {
    assert m[0][0] == LE_ZERO && m[k][k] == LE_ZERO;
    forall i, j {:trigger m'[i][j]} | 0 <= i < |m| && 0 <= j < |m| ensures Le(m'[i][j], Add(m'[i][p], m'[p][j])) {
      ResetTriangle(m, k, value, m', i, p, j);
    }
  }

  lemma ResetStaysValid(m: Dbm, k: nat, value: int, m': Dbm)
    requires Valid(m) && value >= 0 && 0 < k < |m| && IsReset(m, k, value, m')
    ensures Valid(m')
  {
    forall p | 0 <= p < |m| ensures Through(m', p) {
      ResetThrough(m, k, value, m', p);
    }
    forall i | 0 <= i < |m| ensures m'[i][i] == LE_ZERO {
      assert m[i][i] == LE_ZERO;
    }
  }

  /** Clock k now stands for the reference clock, `value` later. */
  lemma ResetTriangle(m: Dbm, k: nat, value: int, m': Dbm, i: nat, p: nat, j: nat)
    requires Valid(m) && 0 < k < |m| && IsReset(m, k, value, m') && i < |m| && p < |m| && j < |m|
    ensures Le(m'[i][j], Add(m'[i][p], m'[p][j]))
  {
    var i', p', j' := if i == k then 0 else i, if p == k then 0 else p, if j == k then 0 else j;
    assert m[0][0] == LE_ZERO;
    Triangle(m, i', p', j');
  }

  method UpdateValue(a: array2<Raw>, k: nat, value: int)
    requires IsSquare(a) && Valid(Mat(a)) && 0 < k < a.Length0 && value >= 0
    modifies a
    ensures Valid(Mat(a)) && IsReset(old(Mat(a)), k, value, Mat(a))
    ensures forall v: Valuation | |v| == a.Length0 ::
      InZone(v, Mat(a)) <==> v[k] == value as real && exists t: real :: CameFrom(v, old(Mat(a)), k, t)
  {
    ghost var m := Mat(a);
    assert m[0][0] == LE_ZERO;
    a[k, 0] := Bound(value, true);
    a[0, k] := Bound(-value, true);
    var i := 1;
    while i < a.Length0
      invariant 1 <= i <= a.Length0
      invariant forall x, y {:trigger a[x, y]} :: 0 <= x < a.Length0 && 0 <= y < a.Length0 ==>
        a[x, y] == if x == k && y == k then (if k < i then LE_ZERO else m[x][y])
                   else if x == k && y < i then Add(Bound(value, true), m[0][y])
                   else if y == k && x < i then Add(m[x][0], Bound(-value, true)) else m[x][y]
    {
      a[k, i] := Add(a[k, 0], a[0, i]);
      a[i, k] := Add(a[i, 0], a[0, k]);
      i := i + 1;
    }
    ghost var m' := Mat(a);
    assert IsReset(m, k, value, m');
    ResetStaysValid(m, k, value, m');
    forall v: Valuation | |v| == |m|
      ensures InZone(v, m') <==> v[k] == value as real && exists t: real :: CameFrom(v, m, k, t)
    {
      ResetIsExact(m, k, value, m', v);
    }
  }

  // ----- dbm_update: xi := xj + value -----

  /** dbm_rawInc and dbm_rawDec */
  function Shift(r: Raw, d: int): Raw {
    if r.Inf? then Inf else Bound(r.value + d, r.weak)
  }

  ghost predicate IsUpdate(m: Dbm, i: nat, j: nat, d: int, m': Dbm)
    requires i < |m| && j < |m|
  {
    |m'| == |m| && forall x, y {:trigger m'[x][y]} :: 0 <= x < |m| && 0 <= y < |m| ==>
      m'[x][y] == if x == i && y == i then LE_ZERO
                  else if x == i then Shift(m[j][y], d)
                  else if y == i then Shift(m[x][j], -d) else m[x][y]
  }

  /** v[i] is the value that xj + d had before the assignment. */
  ghost predicate AssignedFrom(v: Valuation, m: Dbm, i: nat, j: nat, d: int, t: real) {
    i < |v| && j < |v| && CameFrom(v, m, i, t) && v[i] == v[i := t][j] + d as real
  }

  lemma UpdateIsExact(m: Dbm, i: nat, j: nat, d: int, m': Dbm, v: Valuation)
    requires Valid(m) && 0 < i < |m| && 0 < j < |m| && IsUpdate(m, i, j, d, m') && |v| == |m|
    ensures InZone(v, m') <==> exists t: real :: AssignedFrom(v, m, i, j, d, t)
  {
    if InZone(v, m') {
      if i == j {
        var t := v[i] - d as real;
        var u := v[i := t];
        forall x, y {:trigger m[x][y]} | 0 <= x < |m| && 0 <= y < |m| ensures Sat(u[x] - u[y], m[x][y]) {
          MeetsAt(v, m', x, y);
          assert m[i][i] == LE_ZERO;
        }
        assert AssignedFrom(v, m, i, j, d, t);
      } else {
        assert m[j][j] == LE_ZERO;
        MeetsAt(v, m', i, j);
        MeetsAt(v, m', j, i);
        assert MeetsBut(v, m, i) by {
          forall x, y {:trigger m[x][y]} | 0 <= x < |m| && 0 <= y < |m| && x != i && y != i
            ensures Sat(v[x] - v[y], m[x][y])
          {
            assert m'[x][y] == m[x][y];
          }
        }
        var t := PlaceClock(m, v, i);
        assert AssignedFrom(v, m, i, j, d, t);
      }
    }
    if t: real :| AssignedFrom(v, m, i, j, d, t) {
      var u := v[i := t];
      forall x, y {:trigger m'[x][y]} | 0 <= x < |m| && 0 <= y < |m| ensures Sat(v[x] - v[y], m'[x][y]) {
        if x != i && y != i {
          MeetsAt(u, m, x, y);
        } else if x != i {
          MeetsAt(u, m, x, j);
        } else if y != i {
          MeetsAt(u, m, j, y);
        }
      }
    }
  }

  lemma UpdateStaysValid(m: Dbm, i: nat, j: nat, d: int, m': Dbm)
    requires Valid(m) && 0 < i < |m| && 0 < j < |m| && IsUpdate(m, i, j, d, m')
    requires d < 0 ==> m[0][j].value <= d
    ensures Valid(m')
  {
    assert m[j][j] == LE_ZERO;
    forall p | 0 <= p < |m| ensures Through(m', p) {
      forall x, y {:trigger m'[x][y]} | 0 <= x < |m| && 0 <= y < |m| ensures Le(m'[x][y], Add(m'[x][p], m'[p][y])) {
        UpdateTriangle(m, i, j, d, m', x, p, y);
      }
    }
    forall x | 0 <= x < |m| ensures m'[x][x] == LE_ZERO {
      assert m[x][x] == LE_ZERO;
    }
    forall y | 0 <= y < |m| ensures Le(m'[0][y], LE_ZERO) {
      assert Le(m[0][y], LE_ZERO) && Le(m[0][j], LE_ZERO);
    }
  }

  lemma UpdateTriangle(m: Dbm, i: nat, j: nat, d: int, m': Dbm, x: nat, p: nat, y: nat)
    requires Valid(m) && i < |m| && j < |m| && IsUpdate(m, i, j, d, m') && x < |m| && p < |m| && y < |m|
    ensures Le(m'[x][y], Add(m'[x][p], m'[p][y]))
  {
    var x', p', y' := if x == i then j else x, if p == i then j else p, if y == i then j else y;
    assert m[j][j] == LE_ZERO;
    Triangle(m, x', p', y');
  }

  method Update(a: array2<Raw>, i: nat, j: nat, d: int)
    requires IsSquare(a) && Valid(Mat(a)) && 0 < i < a.Length0 && 0 < j < a.Length0
    requires d < 0 ==> a[0, j] != Inf && a[0, j].value <= d
    modifies a
    ensures Valid(Mat(a)) && IsUpdate(old(Mat(a)), i, j, d, Mat(a))
    ensures forall v: Valuation | |v| == a.Length0 ::
      InZone(v, Mat(a)) <==> exists t: real :: AssignedFrom(v, old(Mat(a)), i, j, d, t)
  {
    ghost var m := Mat(a);
    var n := a.Length0;
    if i == j {
      UpdateIncrement(a, i, d);
    } else if d == 0 {
      UpdateClock(a, i, j);
    } else {
      var k := 0;
      while k < n
        invariant 0 <= k <= n
        invariant forall x, y {:trigger a[x, y]} :: 0 <= x < n && 0 <= y < n && !(x == i && y == i) ==>
          a[x, y] == if x == i && y < k then Shift(m[j][y], d)
                     else if y == i && x < k then Shift(m[x][j], -d) else m[x][y]
      {
        a[i, k] := Shift(a[j, k], d);
        a[k, i] := Shift(a[k, j], -d);
        k := k + 1;
      }
      a[i, i] := LE_ZERO;
    }
    ghost var m' := Mat(a);
    assert IsUpdate(m, i, j, d, m');
    UpdateStaysValid(m, i, j, d, m');
    forall v: Valuation | |v| == |m|
      ensures InZone(v, m') <==> exists t: real :: AssignedFrom(v, m, i, j, d, t)
    {
      UpdateIsExact(m, i, j, d, m', v);
    }
  }

  /** dbm_updateIncrement */
  method UpdateIncrement(a: array2<Raw>, k: nat, d: int)
    requires IsSquare(a) && k < a.Length0 && ZeroDiagonal(Mat(a))
    modifies a
    ensures IsUpdate(old(Mat(a)), k, k, d, Mat(a))
  {
    ghost var m := Mat(a);
    var n := a.Length0;
    assert m[k][k] == LE_ZERO;
    if d == 0 {
      return;
    }
    var i := 0;
    while i < n
      invariant 0 <= i <= n
      invariant forall x, y {:trigger a[x, y]} :: 0 <= x < n && 0 <= y < n ==>
        a[x, y] == if x == k && y == k then LE_ZERO
                   else if x == k && y < i then Shift(m[k][y], d)
                   else if y == k && x < i then Shift(m[x][k], -d) else m[x][y]
    {
      if a[k, i] != Inf {
        a[k, i] := Shift(a[k, i], d);
      }
      if a[i, k] != Inf {
        a[i, k] := Shift(a[i, k], -d);
      }
      i := i + 1;
    }
  }

  /** dbm_updateClock */
  method UpdateClock(a: array2<Raw>, i: nat, j: nat)
    requires IsSquare(a) && i < a.Length0 && j < a.Length0 && i != j && ZeroDiagonal(Mat(a))
    modifies a
    ensures IsUpdate(old(Mat(a)), i, j, 0, Mat(a))
  {
    ghost var m := Mat(a);
    var n := a.Length0;
    assert m[i][i] == LE_ZERO;
    var k := 0;
    while k < n
      invariant 0 <= k <= n
      invariant forall x, y {:trigger a[x, y]} :: 0 <= x < n && 0 <= y < n ==>
        a[x, y] == if x == i && y == i then LE_ZERO
                   else if x == i && y < k then m[j][y]
                   else if y == i && x < k then m[x][j] else m[x][y]
    {
      if i != k {
        a[i, k] := a[j, k];
        a[k, i] := a[k, j];
      }
      k := k + 1;
    }
  }
}
