/** 32-bit words and bit tables, as src/mingraph_coding.h reads and writes them.

    A word is an unsigned integer below 2^32; w / 2 is w >> 1 and w % 2 is w & 1. */
module Words {
  import Zones

  const WORD: nat := 0x1_0000_0000

  type Word = w: int | 0 <= w < WORD witness 0

  /** Bit k of w. */
  function Bit(w: nat, k: nat): bool {
    if k == 0 then w % 2 == 1 else Bit(w / 2, k - 1)
  }

  /** w | (1 << k) */
  function SetBit(w: nat, k: nat): nat {
    if k == 0 then w / 2 * 2 + 1 else SetBit(w / 2, k - 1) * 2 + w % 2
  }

  /** 2^k */
  function Pow2(k: nat): nat {
    if k == 0 then 1 else 2 * Pow2(k - 1)
  }

  lemma {:induction false} SetBitBits(w: nat, k: nat, l: nat)
    ensures Bit(SetBit(w, k), l) <==> l == k || Bit(w, l)
  {
    if k > 0 && l > 0 {
      SetBitBits(w / 2, k - 1, l - 1);
    }
  }

  lemma {:induction false} SetBitFits(w: nat, k: nat, n: nat)
    requires k < n && w < Pow2(n)
    ensures SetBit(w, k) < Pow2(n)
  {
    Halve(w, Pow2(n - 1));
    if k > 0 {
      SetBitFits(w / 2, k - 1, n - 1);
    }
  }

  lemma Halve(w: nat, half: nat)
    requires w < 2 * half
    ensures w / 2 < half && w / 2 * 2 + 1 < 2 * half
  {
  }

  lemma {:induction false} NoBits(w: nat, k: nat)
    requires w == 0
    ensures !Bit(w, k)
  {
    if k > 0 {
      NoBits(w / 2, k - 1);
    }
  }

  lemma {:induction false} NoHighBits(w: nat, n: nat, k: nat)
    requires w < Pow2(n) && n <= k
    ensures !Bit(w, k)
  {
    if k > 0 {
      NoHighBits(w / 2, if n > 0 then n - 1 else 0, k - 1);
    }
  }

  lemma WordHas32Bits(w: Word, k: nat)
    requires k >= 32
    ensures !Bit(w, k)
  {
    Pow2Of32();
    NoHighBits(w, 32, k);
  }

  lemma Pow2Of32()
    ensures Pow2(32) == WORD
  {
    assert Pow2(8) == 256;
    assert Pow2(16) == 65536 by {
      assert Pow2(12) == 16 * Pow2(8);
      assert Pow2(16) == 16 * Pow2(12);
    }
    assert Pow2(20) == 16 * Pow2(16);
    assert Pow2(24) == 16 * Pow2(20);
    assert Pow2(28) == 16 * Pow2(24);
    assert Pow2(32) == 16 * Pow2(28);
  }

  // ----- Bit tables -----

  /** bits2intsize: the number of words that hold n bits. */
  function WordsFor(n: nat): nat {
    (n + 31) / 32
  }

  /** base_getOneBit */
  predicate BitAt(s: seq<Word>, f: nat)
    requires f < 32 * |s|
  {
    Bit(s[f / 32], f % 32)
  }

  /** mingraph_ngetAndSetBit: set a bit, return the negation of what it was. */
  method NGetAndSetBit(bits: array<Word>, f: nat) returns (nbit: nat)
    requires f < 32 * bits.Length
    modifies bits
    ensures nbit == if old(BitAt(bits[..], f)) then 0 else 1
    ensures forall g: nat {:trigger BitAt(bits[..], g)} :: g < 32 * bits.Length ==>
      (BitAt(bits[..], g) <==> g == f || old(BitAt(bits[..], g)))
  {
    ghost var s := bits[..];
    nbit := if Bit(bits[f / 32], f % 32) then 0 else 1;
    Pow2Of32();
    SetBitFits(bits[f / 32], f % 32, 32);
    bits[f / 32] := SetBit(bits[f / 32], f % 32);
    forall g: nat {:trigger BitAt(bits[..], g)} | g < 32 * bits.Length
      ensures BitAt(bits[..], g) <==> g == f || BitAt(s, g)
    {
      if g / 32 == f / 32 {
        SetBitBits(s[f / 32], f % 32, g % 32);
      }
    }
  }

  // ----- Matrix positions as bit numbers -----

  /** i * dim, by adding up rows. */
  function Rows(n: nat, i: nat): nat {
    if i == 0 then 0 else n + Rows(n, i - 1)
  }

  /** i * dim + j */
  function Flat(n: nat, i: nat, j: nat): nat {
    Rows(n, i) + j
  }

  /** dim * dim */
  function Cells(n: nat): nat {
    Rows(n, n)
  }

  lemma {:induction false} RowsIsProduct(n: nat, i: nat)
    ensures Rows(n, i) == i * n
  {
    if i > 0 {
      RowsIsProduct(n, i - 1);
      assert i * n == (i - 1) * n + n;
    }
  }

  lemma {:induction false} RowsMonotone(n: nat, i: nat, x: nat)
    requires i <= x
    ensures Rows(n, i) <= Rows(n, x)
    decreases x
  {
    if i < x {
      RowsMonotone(n, i, x - 1);
    }
  }

  lemma FlatInRange(n: nat, i: nat, j: nat)
    requires i < n && j < n
    ensures Flat(n, i, j) < Cells(n)
    ensures Flat(n, i, j) < 32 * WordsFor(Cells(n))
  {
    RowsMonotone(n, i + 1, n);
  }

  /** Row order is the order of positions. */
  lemma FlatOrder(n: nat, x: nat, y: nat, i: nat, j: nat)
    requires y < n && j <= n
    ensures Zones.Before(x, y, i, j) <==> Flat(n, x, y) < Flat(n, i, j)
  {
    if x < i {
      RowsMonotone(n, x + 1, i);
    } else if i < x {
      RowsMonotone(n, i + 1, x);
    }
  }

  lemma FlatInjective(n: nat, i: nat, j: nat, x: nat, y: nat)
    requires j < n && y < n && Flat(n, i, j) == Flat(n, x, y)
    ensures i == x && j == y
  {
    FlatOrder(n, i, j, x, y);
    FlatOrder(n, x, y, i, j);
  }
}
