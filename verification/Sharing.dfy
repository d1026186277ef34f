/** Matrices that several holders refer to (include/dbm/inline_fed.h), and the operations of src/fed_dbm.cpp that
    look for the first entry to change before they copy: the result is the one of src/dbm.c, other holders notice
    nothing, and a copy is made exactly when something changes. */
module Sharing {
  import opened Bounds
  import opened Zones
  import opened Closing
  import opened Images
  import opened Updates
  import Federations

  /** idbm_t, without its hash */
  class SharedDbm {
    var refCounter: nat
    const matrix: array2<Raw>

    constructor (matrix: array2<Raw>)
      ensures refCounter == 1 && this.matrix == matrix
    {
      refCounter := 1;
      this.matrix := matrix;
    }
  }

  /** A dbm_t that is not empty. */
  class DbmRef {
    var idbm: SharedDbm

    /** A copy refers to the same matrix. */
    constructor CopyOf(arg: DbmRef)
      requires arg.OK()
      modifies arg.idbm
      ensures idbm == arg.idbm && idbm.refCounter == old(arg.idbm.refCounter) + 1 && OK() && Value() == old(arg.Value())
    {
      idbm := arg.idbm;
      new;
      idbm.refCounter := idbm.refCounter + 1;
    }

    ghost predicate OK()
      reads this, idbm, idbm.matrix
    {
      IsSquare(idbm.matrix) && idbm.refCounter >= 1 && Valid(Mat(idbm.matrix))
    }

    ghost function Value(): Dbm
      requires IsSquare(idbm.matrix)
      reads this, idbm, idbm.matrix
    {
      Mat(idbm.matrix)
    }

    /** A matrix with other holders stays what it is.  When there is nothing to change nothing is copied; otherwise
        this holder lets go of it and gets a matrix of its own. */
    twostate predicate CopiedOnWrite(before: SharedDbm)
      requires old(OK()) && before == old(idbm) && IsSquare(idbm.matrix)
      reads this, idbm, idbm.matrix, before, before.matrix
    {
      if old(before.refCounter) == 1 then idbm == before && idbm.refCounter == 1
      else
        Mat(before.matrix) == old(Value()) &&
        if Value() == old(Value()) then idbm == before && idbm.refCounter == old(before.refCounter)
        else fresh(idbm) && fresh(idbm.matrix) && idbm.refCounter == 1 && before.refCounter == old(before.refCounter) - 1
    }

    /** dbm_t::icopy */
    method ICopy()
      requires OK() && idbm.refCounter > 1
      modifies this, idbm
      ensures OK() && fresh(idbm) && fresh(idbm.matrix) && Value() == old(Value()) && idbm.refCounter == 1
      ensures old(idbm).refCounter == old(idbm.refCounter) - 1
    {
      idbm.refCounter := idbm.refCounter - 1;
      var matrix := Federations.CopyOf(Mat(idbm.matrix));
      idbm := new SharedDbm(matrix);
    }

    /** dbm_t::ptr_up */
    method PtrUp()
      requires OK()
      modifies this, idbm, idbm.matrix
      ensures OK() && IsUp(old(Value()), Value()) && CopiedOnWrite(old(idbm))
    {
      if idbm.refCounter == 1 {
        Up(idbm.matrix);
        return;
      }
      ghost var m := Value();
      var i := 1;
      while i < idbm.matrix.Length0 && idbm.matrix[i, 0] == Inf
        invariant UpBefore(m, i)
      {
        i := i + 1;
      }
      if i < idbm.matrix.Length0 {
        assert m[i][0] != Inf;
        ICopy();
        UpFrom(idbm.matrix, i, m);
      }
      UpStaysValid(m, Value());
    }

    /** dbm_t::ptr_down */
    method PtrDown()
      requires OK()
      modifies this, idbm, idbm.matrix
      ensures OK() && IsDown(old(Value()), Value()) && CopiedOnWrite(old(idbm))
    {
      if idbm.refCounter == 1 {
        Down(idbm.matrix);
        return;
      }
      ghost var m := Value();
      var j, min := FirstToLower(idbm.matrix);
      if j < idbm.matrix.Length0 {
        assert m[0][j] != min;
        ICopy();
        LowerFrom(idbm.matrix, j, min, m);
      }
      DownStaysValid(m, Value());
    }

    /** dbm_t::ptr_freeClock */
    method PtrFreeClock(k: nat)
      requires OK() && 0 < k < idbm.matrix.Length0
      modifies this, idbm, idbm.matrix
      ensures OK() && IsFree(old(Value()), k, Value()) && CopiedOnWrite(old(idbm))
    {
      if idbm.refCounter == 1 {
        FreeClock(idbm.matrix, k);
        return;
      }
      ghost var m := Value();
      var i := 0;
      while i < idbm.matrix.Length0 && (i == k || (idbm.matrix[k, i] == Inf && idbm.matrix[i, k] == idbm.matrix[i, 0]))
        invariant FreeBefore(m, k, i)
      {
        i := i + 1;
      }
      if i < idbm.matrix.Length0 {
        assert m[k][i] != Inf || m[i][k] != m[i][0];
        ICopy();
        FreeFrom(idbm.matrix, k, i, m);
      }
      FreeStaysValid(m, k, Value());
    }

    /** dbm_t::ptr_freeDown */
    method PtrFreeDown(k: nat)
      requires OK() && 0 < k < idbm.matrix.Length0
      modifies this, idbm, idbm.matrix
      ensures OK() && IsFreeDown(old(Value()), k, Value()) && CopiedOnWrite(old(idbm))
    {
      if idbm.refCounter == 1 {
        FreeDown(idbm.matrix, k);
        return;
      }
      ghost var m := Value();
      var i := 0;
      while i < idbm.matrix.Length0 && (i == k || idbm.matrix[i, k] == idbm.matrix[i, 0])
        invariant FreeDownBefore(m, k, i)
      {
        i := i + 1;
      }
      if i < idbm.matrix.Length0 {
        assert m[i][k] != m[i][0];
        ICopy();
        FreeDownFrom(idbm.matrix, k, i, m);
      }
      FreeDownStaysValid(m, k, Value());
    }

    /** dbm_t::ptr_freeUp */
    method PtrFreeUp(k: nat)
      requires OK() && 0 < k < idbm.matrix.Length0
      modifies this, idbm, idbm.matrix
      ensures OK() && IsFreeUp(old(Value()), k, Value()) && CopiedOnWrite(old(idbm))
    {
      if idbm.refCounter == 1 {
        FreeUp(idbm.matrix, k);
        return;
      }
      ghost var m := Value();
      var j := 0;
      while j < idbm.matrix.Length0 && (j == k || idbm.matrix[k, j] == Inf)
        invariant FreeUpBefore(m, k, j)
      {
        j := j + 1;
      }
      if j < idbm.matrix.Length0 {
        assert m[k][j] != Inf;
        ICopy();
        FreeUpFrom(idbm.matrix, k, j, m);
      }
      FreeUpStaysValid(m, k, Value());
    }

    /** dbm_t::ptr_updateValue */
    method PtrUpdateValue(k: nat, value: int)
      requires OK() && 0 < k < idbm.matrix.Length0 && value >= 0
      modifies this, idbm, idbm.matrix
      ensures OK() && IsReset(old(Value()), k, value, Value()) && CopiedOnWrite(old(idbm))
    {
      if idbm.refCounter == 1 {
        UpdateValue(idbm.matrix, k, value);
        return;
      }
      ghost var m := Value();
      assert m[0][0] == LE_ZERO && m[k][k] == LE_ZERO;
      var dk0, d0k := Bound(value, true), Bound(-value, true);
      var i := 0;
      while i < idbm.matrix.Length0 &&
        idbm.matrix[k, i] == Add(dk0, idbm.matrix[0, i]) && idbm.matrix[i, k] == Add(idbm.matrix[i, 0], d0k)
        invariant ResetBefore(m, k, value, i)
      {
        i := i + 1;
      }
      if i < idbm.matrix.Length0 {
        ResetNeeded(m, k, value, i);
        ICopy();
        ResetFrom(idbm.matrix, k, value, i, m);
      }
      ResetStaysValid(m, k, value, Value());
    }

    /** dbm_t::ptr_updateClock */
    method PtrUpdateClock(i: nat, j: nat)
      requires OK() && 0 < i < idbm.matrix.Length0 && 0 < j < idbm.matrix.Length0 && i != j
      modifies this, idbm, idbm.matrix
      ensures OK() && IsUpdate(old(Value()), i, j, 0, Value()) && CopiedOnWrite(old(idbm))
    {
      ghost var m := Value();
      if idbm.refCounter == 1 {
        UpdateClock(idbm.matrix, i, j);
        UpdateStaysValid(m, i, j, 0, Value());
        return;
      }
      var k := 0;
      while k < idbm.matrix.Length0 && (i == k || (idbm.matrix[i, k] == idbm.matrix[j, k] && idbm.matrix[k, i] == idbm.matrix[k, j]))
        invariant UpdateBefore(m, i, j, 0, k)
      {
        k := k + 1;
      }
      if k < idbm.matrix.Length0 {
        assert m[i][k] != Shift(m[j][k], 0) || m[k][i] != Shift(m[k][j], 0);
        ICopy();
        UpdateClockFrom(idbm.matrix, i, j, k, m);
      }
      AllUpdated(m, i, j, 0, Value(), k);
      UpdateStaysValid(m, i, j, 0, Value());
    }

    /** dbm_t::ptr_update */
    method PtrUpdate(i: nat, j: nat, v: int)
      requires OK() && 0 < i < idbm.matrix.Length0 && 0 < j < idbm.matrix.Length0 && i != j && v != 0
      requires v < 0 ==> idbm.matrix[0, j] != Inf && idbm.matrix[0, j].value <= v
      modifies this, idbm, idbm.matrix
      ensures OK() && IsUpdate(old(Value()), i, j, v, Value()) && CopiedOnWrite(old(idbm))
    {
      if idbm.refCounter == 1 {
        Update(idbm.matrix, i, j, v);
        return;
      }
      ghost var m := Value();
      assert m[0][j] == idbm.matrix[0, j];
      var k := 0;
      while k < idbm.matrix.Length0 &&
        (i == k || (idbm.matrix[i, k] == Shift(idbm.matrix[j, k], v) && idbm.matrix[k, i] == Shift(idbm.matrix[k, j], -v)))
        invariant UpdateBefore(m, i, j, v, k)
      {
        k := k + 1;
      }
      if k < idbm.matrix.Length0 {
        assert m[i][k] != Shift(m[j][k], v) || m[k][i] != Shift(m[k][j], -v);
        ICopy();
        UpdateFrom(idbm.matrix, i, j, v, k, m);
      }
      AllUpdated(m, i, j, v, Value(), k);
      UpdateStaysValid(m, i, j, v, Value());
    }
  }

  ghost predicate UpBefore(m: Dbm, i: nat) {
    1 <= i <= |m| && forall x {:trigger m[x]} :: 0 < x < i ==> m[x][0] == Inf
  }

  /** "then update from where we are" */
  method UpFrom(a: array2<Raw>, i0: nat, ghost m: Dbm)
    requires IsSquare(a) && Mat(a) == m && UpBefore(m, i0)
    modifies a
    ensures IsUp(m, Mat(a))
  {
    var i := i0;
    while i < a.Length0
      invariant i0 <= i <= a.Length0
      invariant forall x, y {:trigger a[x, y]} :: 0 <= x < a.Length0 && 0 <= y < a.Length0 ==>
        a[x, y] == if 0 < x < i && y == 0 then Inf else m[x][y]
    {
      a[i, 0] := Inf;
      i := i + 1;
    }
  }

  /** Search for the first lower bound that dbm_down lowers. */
  method FirstToLower(a: array2<Raw>) returns (j: nat, min: Raw)
    requires IsSquare(a) && Valid(Mat(a))
    ensures 1 <= j <= a.Length0 && DownTo(Mat(a), Mat(a), j)
    ensures j < a.Length0 ==> min == MinColumn(Mat(a), j, a.Length0) && min != a[0, j]
  {
    j, min := 1, LE_ZERO;
    while j < a.Length0
      invariant 1 <= j <= a.Length0 && DownTo(Mat(a), Mat(a), j)
    {
      if Lt(a[0, j], LE_ZERO) {
        min := ColumnMin(a, j);
        if min != a[0, j] {
          return;
        }
      } else {
        NothingToLower(Mat(a), j);
      }
      assert Mat(a)[0][j] == a[0, j];
      j := j + 1;
    }
  }

  method LowerFrom(a: array2<Raw>, j: nat, min: Raw, ghost m: Dbm)
    requires IsSquare(a) && Mat(a) == m && Valid(m) && 0 < j < |m| && DownTo(m, m, j) && min == MinColumn(m, j, |m|)
    modifies a
    ensures IsDown(m, Mat(a)) && Mat(a)[0][j] == min
  {
    a[0, j] := min;
    DownFrom(a, j + 1, m);
  }

  method ColumnMin(a: array2<Raw>, j: nat) returns (min: Raw)
    requires IsSquare(a) && j < a.Length0
    ensures min == MinColumn(Mat(a), j, a.Length0)
  {
    min := LE_ZERO;
    var i := 1;
    while i < a.Length0
      invariant 1 <= i <= a.Length0 && min == MinColumn(Mat(a), j, i)
    {
      if Lt(a[i, j], min) {
        min := a[i, j];
      }
      i := i + 1;
    }
  }

  method FreeFrom(a: array2<Raw>, k: nat, i0: nat, ghost m: Dbm)
    requires IsSquare(a) && Mat(a) == m && 0 < k && FreeBefore(m, k, i0)
    modifies a
    ensures IsFree(m, k, Mat(a))
  {
    var i := i0;
    while i < a.Length0
      invariant i0 <= i <= a.Length0
      invariant forall x, y {:trigger a[x, y]} :: 0 <= x < a.Length0 && 0 <= y < a.Length0 ==>
        a[x, y] == if x == k && y < i && y != k then Inf
                   else if y == k && x < i && x != k then m[x][0] else m[x][y]
    {
      if i != k {
        a[k, i] := Inf;
        a[i, k] := a[i, 0];
      }
      i := i + 1;
    }
  }

  ghost predicate FreeDownBefore(m: Dbm, k: nat, i: nat) {
    k < |m| && i <= |m| && forall x {:trigger m[x]} :: 0 <= x < i && x != k ==> m[x][k] == m[x][0]
  }

  method FreeDownFrom(a: array2<Raw>, k: nat, i0: nat, ghost m: Dbm)
    requires IsSquare(a) && Mat(a) == m && 0 < k && FreeDownBefore(m, k, i0)
    modifies a
    ensures IsFreeDown(m, k, Mat(a))
  {
    var i := i0;
    while i < a.Length0
      invariant i0 <= i <= a.Length0
      invariant forall x, y {:trigger a[x, y]} :: 0 <= x < a.Length0 && 0 <= y < a.Length0 ==>
        a[x, y] == if y == k && x < i && x != k then m[x][0] else m[x][y]
    {
      if i != k {
        a[i, k] := a[i, 0];
      }
      i := i + 1;
    }
  }

  ghost predicate FreeUpBefore(m: Dbm, k: nat, j: nat) {
    k < |m| && j <= |m| && forall y {:trigger m[k][y]} :: 0 <= y < j && y != k ==> m[k][y] == Inf
  }

  method FreeUpFrom(a: array2<Raw>, k: nat, j0: nat, ghost m: Dbm)
    requires IsSquare(a) && Mat(a) == m && FreeUpBefore(m, k, j0)
    modifies a
    ensures IsFreeUp(m, k, Mat(a))
  {
    var j := j0;
    while j < a.Length0
      invariant j0 <= j <= a.Length0
      invariant forall x, y {:trigger a[x, y]} :: 0 <= x < a.Length0 && 0 <= y < a.Length0 ==>
        a[x, y] == if x == k && y < j && y != k then Inf else m[x][y]
    {
      if j != k {
        a[k, j] := Inf;
      }
      j := j + 1;
    }
  }

  /** Entries (k, x) and (x, k) for x below i already have the values that a reset gives them. */
  ghost predicate ResetBefore(m: Dbm, k: nat, value: int, i: nat) {
    k < |m| && i <= |m| && forall x {:trigger m[k][x]} {:trigger m[x][k]} :: 0 <= x < i ==>
      m[k][x] == Add(Bound(value, true), m[0][x]) && m[x][k] == Add(m[x][0], Bound(-value, true))
  }

  /** The entry on the diagonal never is the first that would have to change. */
  lemma ResetNeeded(m: Dbm, k: nat, value: int, i: nat)
    requires Valid(m) && 0 < k && ResetBefore(m, k, value, i) && i < |m|
    requires m[k][i] != Add(Bound(value, true), m[0][i]) || m[i][k] != Add(m[i][0], Bound(-value, true))
    ensures i != k && forall m': Dbm :: IsReset(m, k, value, m') ==> m' != m
  {
    assert m[0][0] == LE_ZERO && m[k][k] == LE_ZERO;
    if i > 0 {
      assert m[k][0] == Add(Bound(value, true), m[0][0]) && m[0][k] == Add(m[0][0], Bound(-value, true));
    }
    forall m': Dbm | IsReset(m, k, value, m') ensures m' != m {
      assert m'[k][i] != m[k][i] || m'[i][k] != m[i][k];
    }
  }

  method ResetFrom(a: array2<Raw>, k: nat, value: int, i0: nat, ghost m: Dbm)
    requires IsSquare(a) && Mat(a) == m && Valid(m) && 0 < k && ResetBefore(m, k, value, i0) && i0 < a.Length0 && i0 != k
    modifies a
    ensures IsReset(m, k, value, Mat(a))
  {
    var dk0, d0k := Bound(value, true), Bound(-value, true);
    assert m[0][0] == LE_ZERO && m[k][k] == LE_ZERO;
    a[k, i0] := Add(dk0, a[0, i0]);
    a[i0, k] := Add(a[i0, 0], d0k);
    var i := i0 + 1;
    while i < a.Length0
      invariant i0 < i <= a.Length0
      invariant forall x, y {:trigger a[x, y]} :: 0 <= x < a.Length0 && 0 <= y < a.Length0 ==>
        a[x, y] == if x == k && y == k then LE_ZERO
                   else if x == k && y < i then Add(dk0, m[0][y])
                   else if y == k && x < i then Add(m[x][0], d0k) else m[x][y]
    {
      a[k, i] := Add(dk0, a[0, i]);
      a[i, k] := Add(a[i, 0], d0k);
      i := i + 1;
    }
  }

  /** Entries (i, x) and (x, i) for x below k already have the values that the assignment gives them. */
  ghost predicate UpdateBefore(m: Dbm, i: nat, j: nat, v: int, k: nat) {
    i < |m| && j < |m| && k <= |m| && forall x {:trigger m[i][x]} {:trigger m[x][i]} :: 0 <= x < k && x != i ==>
      m[i][x] == Shift(m[j][x], v) && m[x][i] == Shift(m[x][j], -v)
  }

  lemma AllUpdated(m: Dbm, i: nat, j: nat, v: int, m': Dbm, k: nat)
    requires Valid(m) && UpdateBefore(m, i, j, v, k) && if k < |m| then IsUpdate(m, i, j, v, m') else m' == m
    ensures IsUpdate(m, i, j, v, m')
  {
    assert m[i][i] == LE_ZERO;
  }

  method UpdateClockFrom(a: array2<Raw>, i: nat, j: nat, k0: nat, ghost m: Dbm)
    requires IsSquare(a) && Mat(a) == m && Valid(m) && UpdateBefore(m, i, j, 0, k0) && i != j
    modifies a
    ensures IsUpdate(m, i, j, 0, Mat(a))
  {
    assert m[i][i] == LE_ZERO;
    var k := k0;
    while k < a.Length0
      invariant k0 <= k <= a.Length0
      invariant forall x, y {:trigger a[x, y]} :: 0 <= x < a.Length0 && 0 <= y < a.Length0 ==>
        a[x, y] == if x == i && y == i then LE_ZERO
                   else if x == i && y < k then m[j][y]
                   else if y == i && x < k then m[x][j] else m[x][y]
    {
      if i != k {
        a[i, k] := a[j, k];
        a[k, i] := a[k, j];
      }
      k := k + 1;
    }
  }

  method UpdateFrom(a: array2<Raw>, i: nat, j: nat, v: int, k0: nat, ghost m: Dbm)
    requires IsSquare(a) && Mat(a) == m && Valid(m) && UpdateBefore(m, i, j, v, k0) && i != j
    modifies a
    ensures IsUpdate(m, i, j, v, Mat(a))
  {
    assert m[i][i] == LE_ZERO;
    var k := k0;
    while k < a.Length0
      invariant k0 <= k <= a.Length0
      invariant forall x, y {:trigger a[x, y]} :: 0 <= x < a.Length0 && 0 <= y < a.Length0 ==>
        a[x, y] == if x == i && y == i then LE_ZERO
                   else if x == i && y < k then Shift(m[j][y], v)
                   else if y == i && x < k then Shift(m[x][j], -v) else m[x][y]
    {
      if i != k {
        a[i, k] := Shift(a[j, k], v);
        a[k, i] := Shift(a[k, j], -v);
      }
      k := k + 1;
    }
  }
}
