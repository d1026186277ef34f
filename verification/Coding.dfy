/** The primitives of src/mingraph_coding.h: the header word, constraints on 16 or 32 bits, and indices
    packed on 4, 8 or 16 bits.  Words are 32-bit unsigned; a 16-bit view of memory is little-endian. */
module Coding {
  import opened Bounds
  import opened Words

  // ----- Constraints on 32 and on 16 bits -----

  /** The int32_t x as it lies in memory, and back. */
  function ToWord(x: int): Word
    requires -0x8000_0000 <= x < 0x8000_0000
  {
    if x >= 0 then x else x + WORD
  }

  function Signed(w: Word): int {
    if w >= 0x8000_0000 then w - WORD else w
  }

  const LS_INF16: int := 32766

  /** The asserts of the source ask for a little more, -LS_INF16 < Pack(r), but the test that chooses 16 bits does not. */
  predicate FitsIn16(r: Raw) {
    r.Bound? ==> -LS_INF16 <= Pack(r) < LS_INF16
  }

  /** mingraph_raw32to16; the 16 bits are read as an unsigned number here. */
  function Raw32To16(r: Raw): (x: nat)
    requires FitsIn16(r)
    ensures x < 0x1_0000
  {
    var s := if r.Inf? then LS_INF16 else Pack(r);
    if s >= 0 then s else s + 0x1_0000
  }

  /** mingraph_raw16to32: (raw16 & 0x7fff) - (raw16 & 0x8000), but for the infinity of 16 bits. */
  function Raw16To32(x: nat): Raw
    requires x < 0x1_0000
  {
    var s := x % 0x8000 - (if x >= 0x8000 then 0x8000 else 0);
    if s == LS_INF16 then Inf else Unpack(s)
  }

  lemma Raw16RoundTrip(r: Raw)
    requires FitsIn16(r)
    ensures Raw16To32(Raw32To16(r)) == r
  {
  }

  lemma Raw32RoundTrip(r: Raw)
    requires InRange(r)
    ensures -0x8000_0000 <= Pack(r) < 0x8000_0000 && Unpack(Signed(ToWord(Pack(r)))) == r
  {
    UnpackInvertsPack(r);
  }

  function Half(w: Word, h: nat): (x: nat)
    requires h < 2
    ensures x < 0x1_0000
  {
    if h == 0 then w % 0x1_0000 else w / 0x1_0000
  }

  function WithHalf(w: Word, h: nat, x: nat): (w': Word)
    requires h < 2 && x < 0x1_0000
    ensures Half(w', h) == x && Half(w', 1 - h) == Half(w, 1 - h)
  {
    if h == 0 then w / 0x1_0000 * 0x1_0000 + x else w % 0x1_0000 + x * 0x1_0000
  }

  /** The word that holds constraint k of the area that starts at c0. */
  function Slot(c0: nat, k: nat, coded16: bool): nat {
    if coded16 then c0 + k / 2 else c0 + k
  }

  /** Constraint k of the area that starts at word c0. */
  function Stored(s: seq<Word>, c0: nat, k: nat, coded16: bool): Raw
    requires Slot(c0, k, coded16) < |s|
  {
    if coded16 then Raw16To32(Half(s[Slot(c0, k, true)], k % 2)) else Unpack(Signed(s[c0 + k]))
  }

  predicate Codable(r: Raw, coded16: bool) {
    InRange(r) && (coded16 ==> FitsIn16(r))
  }

  method PutRaw(mem: array<Word>, c0: nat, k: nat, coded16: bool, r: Raw)
    requires Slot(c0, k, coded16) < mem.Length && Codable(r, coded16)
    modifies mem
    ensures Stored(mem[..], c0, k, coded16) == r
    ensures forall x {:trigger mem[x]} :: 0 <= x < mem.Length && x != Slot(c0, k, coded16) ==> mem[x] == old(mem[x])
    ensures forall k': nat {:trigger Stored(mem[..], c0, k', coded16)} :: k' != k && Slot(c0, k', coded16) < mem.Length ==>
      Stored(mem[..], c0, k', coded16) == old(Stored(mem[..], c0, k', coded16))
  {
    var x := Slot(c0, k, coded16);
    if coded16 {
      Raw16RoundTrip(r);
      mem[x] := WithHalf(mem[x], k % 2, Raw32To16(r));
    } else {
      Raw32RoundTrip(r);
      mem[x] := ToWord(Pack(r));
    }
  }

  /** (cnt + coded16) >> coded16: the words taken by cnt constraints. */
  function AreaSize(cnt: nat, coded16: bool): nat {
    if coded16 then (cnt + 1) / 2 else cnt
  }

  lemma SlotInArea(c0: nat, k: nat, cnt: nat, coded16: bool)
    requires k < cnt
    ensures c0 <= Slot(c0, k, coded16) < c0 + AreaSize(cnt, coded16)
  {
  }

  // ----- The header -----

  function Flag(b: bool): nat {
    if b then 1 else 0
  }

  predicate IsHeader(dim: nat, code: nat, nb: nat) {
    dim < 0x1_0000 && code < 4 && nb <= 0x3ff
  }

  /** Layout of the type information word. */
  function Header(dim: nat, coded16: bool, codedIJ: bool, minimal: bool, code: nat, many: bool, nb: nat): (w: Word)
    requires IsHeader(dim, code, nb)
  {
    dim + 0x1_0000 * (Flag(coded16) + 2 * (Flag(codedIJ) + 2 * (Flag(minimal) + 2 * (code + 4 * (Flag(many) + 2 * nb)))))
  }

  function ReadDim(w: Word): nat { w % 0x1_0000 }
  function IsCoded16(w: Word): bool { w / 0x1_0000 % 2 == 1 }
  function IsCodedIJ(w: Word): bool { w / 0x2_0000 % 2 == 1 }
  function IsMinimal(w: Word): bool { w / 0x4_0000 % 2 == 1 }
  function TypeOfIJ(w: Word): nat { w / 0x8_0000 % 4 }
  function IsMany(w: Word): bool { w / 0x20_0000 % 2 == 1 }

  /** What the type information word says, but for the number of constraints. */
  datatype Head = Head(dim: nat, coded16: bool, codedIJ: bool, minimal: bool, code: nat, many: bool)

  function ReadHead(w: Word): Head {
    Head(ReadDim(w), IsCoded16(w), IsCodedIJ(w), IsMinimal(w), TypeOfIJ(w), IsMany(w))
  }

  lemma HeaderFields(dim: nat, coded16: bool, codedIJ: bool, minimal: bool, code: nat, many: bool, nb: nat)
    requires IsHeader(dim, code, nb)
    ensures ReadHead(Header(dim, coded16, codedIJ, minimal, code, many, nb)) == Head(dim, coded16, codedIJ, minimal, code, many)
    ensures Header(dim, coded16, codedIJ, minimal, code, many, nb) / 0x40_0000 == nb
  {
    var w := Header(dim, coded16, codedIJ, minimal, code, many, nb);
    var w21 := Flag(many) + 2 * nb;
    var w19 := code + 4 * w21;
    var w18 := Flag(minimal) + 2 * w19;
    var w17 := Flag(codedIJ) + 2 * w18;
    var w16 := Flag(coded16) + 2 * w17;
    assert w == dim + 0x1_0000 * w16;
    SplitWord(w, dim, w16);
    Shifts(w);
    SplitBit(w16, Flag(coded16), w17);
    SplitBit(w17, Flag(codedIJ), w18);
    SplitBit(w18, Flag(minimal), w19);
    SplitTwoBits(w19, code, w21);
    SplitBit(w21, Flag(many), nb);
  }

  lemma SplitWord(w: nat, low: nat, high: nat)
    requires w == low + 0x1_0000 * high && low < 0x1_0000
    ensures w % 0x1_0000 == low && w / 0x1_0000 == high
  {
  }

  lemma SplitBit(w: nat, low: nat, high: nat)
    requires w == low + 2 * high && low < 2
    ensures w % 2 == low && w / 2 == high
  {
  }

  lemma SplitTwoBits(w: nat, low: nat, high: nat)
    requires w == low + 4 * high && low < 4
    ensures w % 4 == low && w / 4 == high
  {
  }

  /** Shifting by 17, 18, ... bits is shifting by 16 bits and then some. */
  lemma Shifts(w: nat)
    ensures w / 0x2_0000 == w / 0x1_0000 / 2
    ensures w / 0x4_0000 == w / 0x2_0000 / 2
    ensures w / 0x8_0000 == w / 0x4_0000 / 2
    ensures w / 0x20_0000 == w / 0x8_0000 / 4
    ensures w / 0x40_0000 == w / 0x20_0000 / 2
  {
  }

  /** (size_t)x for an int32_t x that lies in memory as w: a 64-bit size_t sign-extends. */
  function SizeT(w: Word): nat {
    if w >= 0x8000_0000 then w + 0xffff_ffff_0000_0000 else w
  }

  /** mingraph_getNbConstraints */
  function NbConstraints(s: seq<Word>): nat
    requires |s| >= 1 && (IsMany(s[0]) ==> |s| >= 2)
  {
    if IsMany(s[0]) then SizeT(s[1]) else SizeT(s[0]) / 0x40_0000
  }

  /** How the writers record the number of constraints: in the header up to 0x3ff, else in the next word. */
  ghost predicate CountRecorded(s: seq<Word>, cnt: nat, many: bool) {
    |s| >= 1 && if many then |s| >= 2 && s[1] == cnt else s[0] / 0x40_0000 == cnt
  }

  predicate CountIsRead(cnt: nat) {
    cnt < 512 || cnt > 1023
  }

  /** A count is read back as it was written exactly when it lies outside 512..1023: in that range the
      count reaches the sign bit of the header word, and the conversion of the word to size_t sign-extends it. */
  lemma CountReadBack(s: seq<Word>, cnt: nat)
    requires |s| >= 1 && CountRecorded(s, cnt, IsMany(s[0])) && IsMany(s[0]) == (cnt > 0x3ff) && cnt < 0x8000_0000
    ensures NbConstraints(s) == cnt <==> CountIsRead(cnt)
  {
  }

  // ----- Indices packed in words -----

  /** The base of indices on 4, 8 or 16 bits, and how many fit a word. */
  function Base(code: nat): nat { if code == 0 then 16 else if code == 1 then 256 else 65536 }
  function PerWord(code: nat): nat { if code == 0 then 8 else if code == 1 then 4 else 2 }

  /** base^t */
  function Power(base: nat, t: nat): nat { if t == 0 then 1 else base * Power(base, t - 1) }

  /** The t-th index packed in w: (w >> (t * bitSize)) & mask. */
  function Field(w: nat, code: nat, t: nat): nat {
    if t == 0 then w % Base(code) else Field(w / Base(code), code, t - 1)
  }

  /** val_ij |= x << shift, when shift is t * bitSize and the indices from t on are still 0. */
  lemma {:induction false} PutField(w: nat, code: nat, t: nat, x: nat, l: nat)
    requires w < Power(Base(code), t) && x < Base(code)
    ensures w + x * Power(Base(code), t) < Power(Base(code), t + 1)
    ensures l < t ==> Field(w + x * Power(Base(code), t), code, l) == Field(w, code, l)
    ensures l == t ==> Field(w + x * Power(Base(code), t), code, l) == x
  {
    var B := Base(code);
    if t == 0 {
      assert Power(B, 1) == B * Power(B, 0);
    } else {
      var p := Power(B, t - 1);
      var q := x * p;
      assert Power(B, t) == B * p && Power(B, t + 1) == B * Power(B, t);
      Regroup(x, B, p);
      DivideStep(w, code, q, p);
      PutField(w / B, code, t - 1, x, if l == 0 then 0 else l - 1);
      BelowStep(w, code, q, Power(B, t));
    }
  }

  lemma Regroup(x: nat, b: nat, p: nat)
    ensures x * (b * p) == b * (x * p)
  {
  }

  lemma DivideStep(w: nat, code: nat, q: nat, p: nat)
    ensures (w + Base(code) * q) / Base(code) == w / Base(code) + q && (w + Base(code) * q) % Base(code) == w % Base(code)
    ensures w < Base(code) * p ==> w / Base(code) < p
  {
    if code == 0 {
    } else if code == 1 {
    } else {
    }
  }

  lemma BelowStep(w: nat, code: nat, q: nat, p: nat)
    requires w / Base(code) + q < p
    ensures w + Base(code) * q < Base(code) * p
  {
    if code == 0 {
    } else if code == 1 {
    } else {
    }
  }

  lemma PowerFillsWord(code: nat)
    ensures Power(Base(code), PerWord(code)) == WORD
  {
    if code == 0 {
      assert Power(16, 2) == 256;
      assert Power(16, 4) == 256 * Power(16, 2);
      assert Power(16, 6) == 256 * Power(16, 4);
      assert Power(16, 8) == 256 * Power(16, 6);
    } else if code == 1 {
      assert Power(256, 2) == 65536;
      assert Power(256, 4) == 65536 * Power(256, 2);
    } else {
      assert Power(65536, 2) == 65536 * Power(65536, 1);
    }
  }
}
