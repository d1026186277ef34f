/** The test whether constraints fit 16 bits: ADD_BITS (src/dbm.h) and dbm_getMaxRange (src/dbm.c).
    base_absNot comes from another library and is not part of this model; as its name says, it is taken to give a
    number itself when it is not negative, and its bitwise complement otherwise. */
module Ranges {
  import opened Bounds
  import opened Zones
  import opened Closing
  import opened Words
  import opened Coding
  import Packed

  function AbsNot(x: int): nat {
    if x >= 0 then x else -x - 1
  }

  /** a | b */
  function Or(a: nat, b: nat): nat
    decreases a + b
  {
    if a == 0 && b == 0 then 0 else (if a % 2 == 1 || b % 2 == 1 then 1 else 0) + 2 * Or(a / 2, b / 2)
  }

  lemma {:induction false} OrIsAbove(a: nat, b: nat)
    ensures Or(a, b) >= a && Or(a, b) >= b
    decreases a + b
  {
    if a > 0 || b > 0 {
      OrIsAbove(a / 2, b / 2);
    }
  }

  /** ADD_BITS(bits, r) */
  function AddBits(bits: nat, r: Raw): nat {
    if r.Inf? then bits else Or(bits, AbsNot(Pack(r)))
  }

  lemma AddBitsBounds(bits: nat, r: Raw)
    requires AddBits(bits, r) < LS_INF16
    ensures bits < LS_INF16 && FitsIn16(r)
  {
    if r.Bound? {
      OrIsAbove(bits, AbsNot(Pack(r)));
    }
  }

  lemma {:induction false} OrBits(a: nat, b: nat, k: nat)
    ensures Bit(Or(a, b), k) <==> Bit(a, k) || Bit(b, k)
    decreases k
  {
    if a == 0 && b == 0 {
      NoBits(a, k);
      NoBits(b, k);
    } else if k > 0 {
      OrBits(a / 2, b / 2, k - 1);
    }
  }

  lemma {:induction false} OrBelow(a: nat, b: nat, n: nat)
    ensures Or(a, b) < Pow2(n) <==> a < Pow2(n) && b < Pow2(n)
    decreases n
  {
    if n > 0 {
      OrBelow(a / 2, b / 2, n - 1);
    } else {
      OrIsAbove(a, b);
    }
  }

  /** The bits of the entries before (i, j), in row order. */
  ghost function BitsTo(m: Dbm, i: nat, j: nat): nat
    requires i <= |m| && j <= |m| && (i == |m| ==> j == 0)
    decreases i, j
  {
    if j > 0 then AddBits(BitsTo(m, i, j - 1), m[i][j - 1])
    else if i > 0 then BitsTo(m, i - 1, |m|)
    else 0
  }

  lemma {:induction false} BitsBound(m: Dbm, i: nat, j: nat, x: nat, y: nat)
    requires i <= |m| && j <= |m| && (i == |m| ==> j == 0) && y < |m| && Before(x, y, i, j)
    requires BitsTo(m, i, j) < LS_INF16
    ensures x < |m| && FitsIn16(m[x][y])
    decreases i, j
  {
    if j > 0 {
      AddBitsBounds(BitsTo(m, i, j - 1), m[i][j - 1]);
      if !(x == i && y == j - 1) {
        BitsBound(m, i, j - 1, x, y);
      }
    } else if i > 0 {
      BitsBound(m, i - 1, |m|, x, y);
    }
  }

  /** dbm_getMaxRange looks at two entries at a time: with an odd dimension the last one, which is on the diagonal,
      is left out. */
  ghost function MaxRange(m: Dbm): nat {
    BitsTo(m, |m| - 1, if |m| % 2 == 1 then |m| - 1 else |m|)
  }

  // ----- What the test accepts, exactly -----

  /** Bit k counts for the entry. */
  predicate HasBit(r: Raw, k: nat) {
    r.Bound? && Bit(AbsNot(Pack(r)), k)
  }

  /** The number that counts for the entry has at most n bits. */
  predicate HasAtMost(r: Raw, n: nat) {
    r.Bound? ==> AbsNot(Pack(r)) < Pow2(n)
  }

  lemma AddBitsHas(bits: nat, r: Raw, k: nat, n: nat)
    ensures Bit(AddBits(bits, r), k) <==> Bit(bits, k) || HasBit(r, k)
    ensures AddBits(bits, r) < Pow2(n) <==> bits < Pow2(n) && HasAtMost(r, n)
  {
    if r.Bound? {
      OrBits(bits, AbsNot(Pack(r)), k);
      OrBelow(bits, AbsNot(Pack(r)), n);
    }
  }

  /** No entry before (i, j) has bit k. */
  ghost predicate NoneHas(m: Dbm, k: nat, i: nat, j: nat) {
    forall x, y {:trigger m[x][y]} :: 0 <= x < |m| && 0 <= y < |m| && Before(x, y, i, j) ==> !HasBit(m[x][y], k)
  }

  ghost predicate AllHaveAtMost(m: Dbm, n: nat, i: nat, j: nat) {
    forall x, y {:trigger m[x][y]} :: 0 <= x < |m| && 0 <= y < |m| && Before(x, y, i, j) ==> HasAtMost(m[x][y], n)
  }

  lemma {:induction false} BitsToExactly(m: Dbm, k: nat, n: nat, i: nat, j: nat)
    requires i <= |m| && j <= |m| && (i == |m| ==> j == 0)
    ensures !Bit(BitsTo(m, i, j), k) <==> NoneHas(m, k, i, j)
    ensures BitsTo(m, i, j) < Pow2(n) <==> AllHaveAtMost(m, n, i, j)
    decreases i, j
  {
    if j > 0 {
      BitsToExactly(m, k, n, i, j - 1);
      AddBitsHas(BitsTo(m, i, j - 1), m[i][j - 1], k, n);
    } else if i > 0 {
      BitsToExactly(m, k, n, i - 1, |m|);
    } else {
      NoBits(BitsTo(m, i, j), k);
      Pow2Positive(n);
    }
  }

  lemma {:induction false} Pow2Positive(n: nat)
    ensures Pow2(n) > 0
  {
    if n > 0 {
      Pow2Positive(n - 1);
    }
  }

  /** A number of n bits is all ones unless some bit is not set. */
  lemma {:induction false} AllOnes(w: nat, n: nat) returns (k: nat)
    requires w < Pow2(n)
    ensures w + 1 < Pow2(n) ==> k < n && !Bit(w, k)
    ensures w + 1 == Pow2(n) ==> forall l: nat {:trigger Bit(w, l)} :: l < n ==> Bit(w, l)
  {
    k := 0;
    if n > 0 {
      var rest := AllOnes(w / 2, n - 1);
      if w % 2 == 1 {
        k := rest + 1;
      }
      forall l: nat {:trigger Bit(w, l)} | w + 1 == Pow2(n) && l < n ensures Bit(w, l) {
        if l > 0 {
          assert Bit(w / 2, l - 1);
        }
      }
    }
  }

  /** dbm_LS_INF16 and the number after it are those of n + 1 bits with all bits set but perhaps the lowest. */
  lemma BelowInf16(w: nat, n: nat)
    requires n == 14
    ensures w < LS_INF16 <==> w < Pow2(n + 1) && exists k: nat {:trigger Bit(w, k)} :: 1 <= k <= n && !Bit(w, k)
  {
    Pow2Of14(n);
    if w < Pow2(n + 1) {
      var k := AllOnes(w / 2, n);
      var l := k + 1;
      assert Bit(w, l) <==> Bit(w / 2, k);
      forall l: nat {:trigger Bit(w, l)} | w >= LS_INF16 && 1 <= l <= n ensures Bit(w, l) {
        assert Bit(w / 2, l - 1);
      }
    }
  }

  lemma FourMoreBits(n: nat)
    ensures Pow2(n + 4) == 16 * Pow2(n)
  {
    assert Pow2(n + 2) == 4 * Pow2(n);
    assert Pow2(n + 4) == 4 * Pow2(n + 2);
  }

  lemma Pow2Of14(n: nat)
    requires n == 14
    ensures Pow2(n) == 0x4000 && Pow2(n + 1) == 0x8000
  {
    FourMoreBits(n - 12);
    FourMoreBits(n - 8);
    FourMoreBits(n - 4);
    assert Pow2(n - 12) == 4;
  }

  /** What decides whether 16 bits are enough: no finite entry needs more than 15 bits, and there is a bit above the
      lowest that none of them uses. */
  ghost predicate FewBits(m: Dbm) {
    AllHaveAtMost(m, 15, |m|, 0) && exists k: nat {:trigger NoneHas(m, k, |m|, 0)} :: 1 <= k <= 14 && NoneHas(m, k, |m|, 0)
  }

  /** In particular entries of 14 bits are enough. */
  lemma NarrowHasFewBits(m: Dbm)
    requires forall x, y {:trigger m[x][y]} :: 0 <= x < |m| && 0 <= y < |m| && m[x][y].Bound? ==> -0x4000 <= Pack(m[x][y]) < 0x4000
    ensures FewBits(m)
  {
    var n: nat := 14;
    Pow2Of14(n);
    forall x, y {:trigger m[x][y]} | 0 <= x < |m| && 0 <= y < |m| ensures HasAtMost(m[x][y], n + 1) && !HasBit(m[x][y], n) {
      if m[x][y].Bound? {
        NoHighBits(AbsNot(Pack(m[x][y])), n, n);
      }
    }
    assert NoneHas(m, n, |m|, 0) && AllHaveAtMost(m, n + 1, |m|, 0);
  }

  /** The entry that the scan leaves out in odd dimensions uses the lowest bit only. */
  lemma LastEntryHasNothing(m: Dbm, k: nat, n: nat, i: nat, j: nat)
    requires i == |m| - 1 && m[i][i] == LE_ZERO && k > 0 && n > 0 && i <= j <= |m|
    ensures NoneHas(m, k, i, j) <==> NoneHas(m, k, |m|, 0)
    ensures AllHaveAtMost(m, n, i, j) <==> AllHaveAtMost(m, n, |m|, 0)
  {
    var w := AbsNot(Pack(m[i][i]));
    assert Bit(w, k) <==> Bit(w / 2, k - 1);
    NoBits(w / 2, k - 1);
    Pow2Positive(n - 1);
    assert !HasBit(m[i][i], k) && HasAtMost(m[i][i], n);
    forall x, y {:trigger m[x][y]} | 0 <= x < |m| && 0 <= y < |m| && Before(x, y, |m|, 0) ensures Before(x, y, i, j) || m[x][y] == m[i][i] {
    }
  }

  lemma RangeHas(m: Dbm, k: nat, n: nat)
    requires m[|m| - 1][|m| - 1] == LE_ZERO && k > 0 && n > 0
    ensures !Bit(MaxRange(m), k) <==> NoneHas(m, k, |m|, 0)
    ensures MaxRange(m) < Pow2(n) <==> AllHaveAtMost(m, n, |m|, 0)
  {
    var i: nat, j: nat := |m| - 1, if |m| % 2 == 1 then |m| - 1 else |m|;
    BitsToExactly(m, k, n, i, j);
    LastEntryHasNothing(m, k, n, i, j);
  }

  /** The scan finds out exactly that. */
  lemma RangeIsSmallExactly(m: Dbm)
    requires m[|m| - 1][|m| - 1] == LE_ZERO
    ensures MaxRange(m) < LS_INF16 <==> FewBits(m)
  {
    var w, n: nat := MaxRange(m), 14;
    BelowInf16(w, n);
    RangeHas(m, n, n + 1);
    if w < LS_INF16 {
      var k: nat :| 1 <= k <= n && !Bit(w, k);
      RangeHas(m, k, n + 1);
    }
    if FewBits(m) {
      var k: nat :| 1 <= k <= n && NoneHas(m, k, |m|, 0);
      RangeHas(m, k, n + 1);
    }
  }

  /** What passes the test can be saved on 16 bits. */
  lemma SmallRangeFits(m: Dbm)
    requires m[|m| - 1][|m| - 1] == LE_ZERO && Packed.CodableMatrix(m, false) && MaxRange(m) < LS_INF16
    ensures Packed.CodableMatrix(m, true)
  {
    forall x, y {:trigger m[x][y]} | 0 <= x < |m| && 0 <= y < |m| ensures Codable(m[x][y], true) {
      if !(x == |m| - 1 && y == |m| - 1) {
        BitsBound(m, |m| - 1, if |m| % 2 == 1 then |m| - 1 else |m|, x, y);
      }
    }
  }

  lemma CellsParity(n: nat)
    ensures Cells(n) % 2 == n % 2
  {
    RowsIsProduct(n, n);
    var k := n / 2;
    if n % 2 == 1 {
      assert n * n == 2 * (2 * k * k + 2 * k) + 1;
    } else {
      assert n * n == 2 * (2 * k * k);
    }
  }

  /** Where a scan by pairs of entries stops. */
  lemma ScanEnd(n: nat, i: nat, j: nat)
    requires n > 0 && i <= n && j < n && Flat(n, i, j) == 2 * (Cells(n) / 2)
    ensures if n % 2 == 1 then i == n - 1 && j == n - 1 else i == n && j == 0
  {
    CellsParity(n);
    if n % 2 == 1 {
      assert Cells(n) == Flat(n, n - 1, n - 1) + 1;
      FlatInjective(n, i, j, n - 1, n - 1);
    } else {
      FlatInjective(n, i, j, n, 0);
    }
  }

  lemma InsideScan(n: nat, i: nat, j: nat)
    requires j < n && i <= n && Flat(n, i, j) < Cells(n)
    ensures i < n
  {
  }

  /** dbm_getMaxRange */
  method GetMaxRange(dbm: array2<Raw>) returns (max: nat)
    requires IsSquare(dbm)
    ensures max == MaxRange(Mat(dbm))
  {
    ghost var m := Mat(dbm);
    var n := dbm.Length0;
    max := 0;
    var i, j, left := 0, 0, Cells(n) / 2;
    while left != 0
      invariant left >= 0 && 0 <= i <= n && 0 <= j < n && (i == n ==> j == 0) && max == BitsTo(m, i, j)
      invariant Flat(n, i, j) + 2 * left == 2 * (Cells(n) / 2)
    {
      i, j, max := AddEntry(dbm, i, j, max);
      i, j, max := AddEntry(dbm, i, j, max);
      left := left - 1;
    }
    ScanEnd(n, i, j);
  }

  /** ADD_BITS(max, *dbm++) */
  method AddEntry(dbm: array2<Raw>, i0: nat, j0: nat, max0: nat) returns (i: nat, j: nat, max: nat)
    requires IsSquare(dbm) && j0 < dbm.Length0 && i0 <= dbm.Length0 && (i0 == dbm.Length0 ==> j0 == 0)
    requires Flat(dbm.Length0, i0, j0) < Cells(dbm.Length0) && max0 == BitsTo(Mat(dbm), i0, j0)
    ensures i <= dbm.Length0 && j < dbm.Length0 && (i == dbm.Length0 ==> j == 0)
    ensures Flat(dbm.Length0, i, j) == Flat(dbm.Length0, i0, j0) + 1 && max == BitsTo(Mat(dbm), i, j)
  {
    InsideScan(dbm.Length0, i0, j0);
    max := AddBits(max0, dbm[i0, j0]);
    ghost var m := Mat(dbm);
    assert max == BitsTo(m, i0, j0 + 1);
    i, j := i0, j0 + 1;
    if j == dbm.Length0 {
      i, j := i + 1, 0;
    }
  }

  /** The test of mingraph_writeMinDBMDim2 on the two entries off the diagonal. */
  function RangeOfTwo(m: Dbm): nat
    requires |m| == 2
  {
    AddBits(AddBits(0, m[0][1]), m[1][0])
  }

  lemma SmallRangeOfTwo(m: Dbm)
    requires |m| == 2 && ZeroDiagonal(m) && Packed.CodableMatrix(m, false) && RangeOfTwo(m) < LS_INF16
    ensures Packed.CodableMatrix(m, true)
  {
    AddBitsBounds(AddBits(0, m[0][1]), m[1][0]);
    AddBitsBounds(0, m[0][1]);
    assert m[0][0] == LE_ZERO && m[1][1] == LE_ZERO;
  }

  /** With two clocks the test on the two entries off the diagonal finds out the same. */
  lemma RangeOfTwoIsSmallExactly(m: Dbm)
    requires |m| == 2 && ZeroDiagonal(m)
    ensures RangeOfTwo(m) < LS_INF16 <==> FewBits(m)
  {
    RangeIsSmallExactly(m);
    SameAsTwo(m);
  }

  /** The entries on the diagonal only add the lowest bit. */
  lemma SameAsTwo(m: Dbm)
    requires |m| == 2 && ZeroDiagonal(m)
    ensures RangeOfTwo(m) < LS_INF16 <==> MaxRange(m) < LS_INF16
  {
    var w, w', n: nat := RangeOfTwo(m), MaxRange(m), 14;
    BelowInf16(w, n);
    BelowInf16(w', n);
    TwoHave(m, n, n + 1);
    if w < LS_INF16 {
      var k: nat :| 1 <= k <= n && !Bit(w, k);
      TwoHave(m, k, n + 1);
    }
    if w' < LS_INF16 {
      var k: nat :| 1 <= k <= n && !Bit(w', k);
      TwoHave(m, k, n + 1);
    }
  }

  lemma TwoHave(m: Dbm, k: nat, n: nat)
    requires |m| == 2 && ZeroDiagonal(m) && k > 0 && n > 0
    ensures Bit(MaxRange(m), k) <==> Bit(RangeOfTwo(m), k)
    ensures MaxRange(m) < Pow2(n) <==> RangeOfTwo(m) < Pow2(n)
  {
    var zero: nat := 0;
    BitsToExactly(m, k, n, 1, 2);
    AddBitsHas(AddBits(zero, m[0][1]), m[1][0], k, n);
    AddBitsHas(zero, m[0][1], k, n);
    NoBits(zero, k);
    Pow2Positive(n);
    LastEntryHasNothing(m, k, n, 1, 1);
    LastEntryHasNothing(m, k, n, 1, 2);
    assert m[0][0] == LE_ZERO == m[1][1];
    var w := AbsNot(Pack(LE_ZERO));
    assert Bit(w, k) <==> Bit(w / 2, k - 1);
    NoBits(w / 2, k - 1);
    Pow2Positive(n - 1);
  }
}
