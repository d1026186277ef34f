/** Which packed form is chosen: mingraph_encode and dbm_writeToMinDBMWithOffset (src/mingraph_write.c). */
module Encoding {
  import opened Bounds
  import opened Zones
  import opened Closing
  import MinimalGraph
  import opened Words
  import opened Analysis
  import opened Restoring
  import opened Coding
  import opened Positions
  import opened Packed
  import opened Writing
  import opened Ranges

  function CopyHead(n: nat, coded16: bool): Head {
    Head(n, coded16, false, false, 0, false)
  }

  function TableHead(n: nat, coded16: bool, cnt: nat): Head {
    Head(n, coded16, false, true, 0, cnt > 0x3ff)
  }

  /** Indices take 4, 8 or 16 bits, whichever the dimension allows. */
  function CodeFor(n: nat): nat {
    if n <= 16 then 0 else if n <= 256 then 1 else 2
  }

  function CouplesHead(n: nat, coded16: bool, cnt: nat): Head {
    Head(n, coded16, true, true, CodeFor(n), cnt > 0x3ff)
  }

  /** No constraint to save: the header says so by itself. */
  function NothingHead(n: nat): Head {
    Head(n, false, true, true, 0, false)
  }

  method NewCopy(dbm: array2<Raw>, coded16: bool) returns (mem: array<Word>)
    requires IsSquare(dbm) && dbm.Length0 < 0x1_0000 && CodableMatrix(Mat(dbm), coded16)
    ensures fresh(mem) && Encodes(mem[..], Mat(dbm))
    ensures mem.Length == PackedSize(CopyHead(dbm.Length0, coded16), 0) && ReadHead(mem[0]) == CopyHead(dbm.Length0, coded16)
  {
    ghost var m := Mat(dbm);
    var n := dbm.Length0;
    var h := CopyHead(n, coded16);
    var w := HeaderWord(h, 0);
    mem := new Word[1 + AreaSize(n * (n - 1), coded16)];
    WriteCopy(mem, dbm, coded16, w);
    PackedIsComplete(mem[..], m, h, w);
  }

  method NewBitMatrix(dbm: array2<Raw>, bits: seq<Word>, cnt: nat, coded16: bool) returns (mem: array<Word>)
    requires IsSquare(dbm) && dbm.Length0 < 0x1_0000 && CodableMatrix(Mat(dbm), coded16)
    requires MarksPairs(bits, dbm.Length0, SavedBits(Mat(dbm))) && cnt == |SavedBits(Mat(dbm))| && 0 < cnt < 0x8000_0000
    ensures fresh(mem) && Encodes(mem[..], Mat(dbm))
    ensures mem.Length == PackedSize(TableHead(dbm.Length0, coded16, cnt), cnt) && ReadHead(mem[0]) == TableHead(dbm.Length0, coded16, cnt)
  {
    ghost var m := Mat(dbm);
    SavedPairsBelow(m);
    var h := TableHead(dbm.Length0, coded16, cnt);
    var w := HeaderWord(h, cnt);
    mem := new Word[1 + Flag(h.many) + AreaSize(cnt, coded16) + |bits|];
    WriteMinBitMatrix(mem, dbm, bits, cnt, SavedBits(m), h, w);
    PackedIsComplete(mem[..], m, h, w);
  }

  method NewCouples(dbm: array2<Raw>, bits: seq<Word>, cnt: nat, coded16: bool) returns (mem: array<Word>)
    requires IsSquare(dbm) && dbm.Length0 < 0x1_0000 && CodableMatrix(Mat(dbm), coded16)
    requires MarksPairs(bits, dbm.Length0, SavedBits(Mat(dbm))) && cnt == |SavedBits(Mat(dbm))| && 0 < cnt < 0x8000_0000
    ensures fresh(mem) && Encodes(mem[..], Mat(dbm))
    ensures mem.Length == PackedSize(CouplesHead(dbm.Length0, coded16, cnt), cnt) && ReadHead(mem[0]) == CouplesHead(dbm.Length0, coded16, cnt)
  {
    ghost var m := Mat(dbm);
    SavedPairsBelow(m);
    var h := CouplesHead(dbm.Length0, coded16, cnt);
    var w := HeaderWord(h, cnt);
    mem := new Word[1 + Flag(h.many) + AreaSize(cnt, coded16) + CouplesSize(cnt, h.code)];
    WriteMinCouplesij(mem, dbm, bits, cnt, SavedBits(m), h, w);
    PackedIsComplete(mem[..], m, h, w);
  }

  /** mem is as small as any of the three forms. */
  ghost predicate IsCheapest(size: nat, n: nat, cnt: nat, coded16: bool) {
    size <= PackedSize(CopyHead(n, coded16), cnt) && size <= PackedSize(TableHead(n, coded16, cnt), cnt) &&
    size <= PackedSize(CouplesHead(n, coded16, cnt), cnt)
  }

  /** Every index of the dimension can be written in the width that the header gives. */
  predicate IndicesFit(h: Head, n: nat) {
    h.codedIJ ==> n <= Base(h.code)
  }

  /** No packed form of m with constraints of this width, and indices for its whole dimension, is smaller. */
  ghost predicate IsLeast(size: nat, m: Dbm, coded16: bool) {
    forall s: seq<Word> {:trigger Encodes(s, m)} ::
      Encodes(s, m) && ReadHead(s[0]).coded16 == coded16 && IndicesFit(ReadHead(s[0]), |m|) ==> size <= |s|
  }

  lemma CheapestIsLeast(size: nat, m: Dbm, coded16: bool)
    requires IsCheapest(size, |m|, |SavedBits(m)|, coded16) && |SavedBits(m)| > 0
    ensures IsLeast(size, m, coded16)
  {
    forall s: seq<Word> {:trigger Encodes(s, m)} | Encodes(s, m) && ReadHead(s[0]).coded16 == coded16 && IndicesFit(ReadHead(s[0]), |m|)
      ensures size <= |s|
    {
      var h, cnt := ReadHead(s[0]), |SavedBits(m)|;
      if h.codedIJ {
        WiderIsLarger(cnt, CodeFor(|m|), h.code);
      }
    }
  }

  /** More bits for the indices take no less room. */
  lemma WiderIsLarger(cnt: nat, code: nat, code': nat)
    requires code <= code' < 3
    ensures CouplesSize(cnt, code) <= CouplesSize(cnt, code')
  {
  }

  /** The cheapest form, and in case of a tie the copy before the bit table before the couples. */
  function ChosenHead(n: nat, coded16: bool, cnt: nat): Head {
    var sizeIfCopy := PackedSize(CopyHead(n, coded16), cnt);
    var sizeIfBitMatrix := PackedSize(TableHead(n, coded16, cnt), cnt);
    var sizeIfCouplesij := PackedSize(CouplesHead(n, coded16, cnt), cnt);
    if sizeIfCopy <= sizeIfBitMatrix && sizeIfCopy <= sizeIfCouplesij then CopyHead(n, coded16)
    else if sizeIfBitMatrix <= sizeIfCouplesij then TableHead(n, coded16, cnt)
    else CouplesHead(n, coded16, cnt)
  }

  /** mingraph_encode */
  method Encode(dbm: array2<Raw>, bits: seq<Word>, cnt: nat, coded16: bool) returns (mem: array<Word>)
    requires IsSquare(dbm) && dbm.Length0 < 0x1_0000 && CodableMatrix(Mat(dbm), coded16)
    requires MarksPairs(bits, dbm.Length0, SavedBits(Mat(dbm))) && cnt == |SavedBits(Mat(dbm))| && 0 < cnt < 0x8000_0000
    ensures fresh(mem) && Encodes(mem[..], Mat(dbm)) && IsLeast(mem.Length, Mat(dbm), coded16)
    ensures ReadHead(mem[0]) == ChosenHead(dbm.Length0, coded16, cnt)
  {
    mem := EncodeCheapest(dbm, bits, cnt, coded16);
    CheapestIsLeast(mem.Length, Mat(dbm), coded16);
  }

  /** "Choose cheapest" */
  method EncodeCheapest(dbm: array2<Raw>, bits: seq<Word>, cnt: nat, coded16: bool) returns (mem: array<Word>)
    requires IsSquare(dbm) && dbm.Length0 < 0x1_0000 && CodableMatrix(Mat(dbm), coded16)
    requires MarksPairs(bits, dbm.Length0, SavedBits(Mat(dbm))) && cnt == |SavedBits(Mat(dbm))| && 0 < cnt < 0x8000_0000
    ensures fresh(mem) && Encodes(mem[..], Mat(dbm))
    ensures IsCheapest(mem.Length, dbm.Length0, cnt, coded16) && ReadHead(mem[0]) == ChosenHead(dbm.Length0, coded16, cnt)
  {
    var n := dbm.Length0;
    var sizeIfCopy := PackedSize(CopyHead(n, coded16), cnt);
    var sizeIfBitMatrix := PackedSize(TableHead(n, coded16, cnt), cnt);
    var sizeIfCouplesij := PackedSize(CouplesHead(n, coded16, cnt), cnt);
    if sizeIfCopy <= sizeIfBitMatrix {
      if sizeIfCopy <= sizeIfCouplesij {
        mem := NewCopy(dbm, coded16);
        return;
      }
    } else {
      if sizeIfCouplesij >= sizeIfBitMatrix {
        mem := NewBitMatrix(dbm, bits, cnt, coded16);
        return;
      }
    }
    mem := NewCouples(dbm, bits, cnt, coded16);
  }

  /** The header of a matrix without saved constraints. */
  method NewNothing(dbm: array2<Raw>) returns (mem: array<Word>)
    requires IsSquare(dbm) && dbm.Length0 < 0x1_0000 && |SavedBits(Mat(dbm))| == 0
    ensures fresh(mem) && Encodes(mem[..], Mat(dbm)) && mem.Length == 1 && ReadHead(mem[0]) == NothingHead(dbm.Length0)
  {
    ghost var m := Mat(dbm);
    var h := NothingHead(dbm.Length0);
    var w := HeaderWord(h, 0);
    mem := new Word[1];
    mem[0] := w;
    NothingEncodes(mem[..], m, h);
    PackedIsComplete(mem[..], m, h, w);
  }

  lemma NothingEncodes(s: seq<Word>, m: Dbm, h: Head)
    requires |SavedBits(m)| == 0 && h == NothingHead(|m|)
    ensures EncodesMinimal(s, m, SavedBits(m), h) && PackedSize(h, 0) == 1
  {
    var S := SavedBits(m);
    assert IsListing([], S);
    ListOfIs([], S);
    assert CouplesAt(s, 1, 0, |S|) == [];
  }

  /** With two clocks and no bound but x1 >= 0 nothing is saved. */
  lemma NothingSaved(m: Dbm)
    requires Canonical(m) && |m| == 2 && m[0][1] == LE_ZERO && m[1][0] == Inf
    ensures |SavedBits(m)| == 0
  {
    forall e | e in SavedBits(m) ensures false {
      var i, j := e.0, e.1;
      assert (i, j) in SavedBits(m);
      MinimalGraph.KeptIsOffDiagonal(m, i, j);
    }
    assert SavedBits(m) == {};
  }

  /** mingraph_writeMinDBMDim2 */
  method WriteDim2(dbm: array2<Raw>) returns (mem: array<Word>)
    requires IsSquare(dbm) && Canonical(Mat(dbm)) && dbm.Length0 <= 2 && CodableMatrix(Mat(dbm), false)
    ensures fresh(mem) && Encodes(mem[..], Mat(dbm)) && ReadHead(mem[0]) == HeadOfDim2(Mat(dbm))
  {
    ghost var m := Mat(dbm);
    if dbm.Length0 == 1 {
      mem := NewCopy(dbm, false);
      return;
    }
    assert m[0][1] == dbm[0, 1] && m[1][0] == dbm[1, 0];
    if dbm[0, 1] == LE_ZERO && dbm[1, 0] == Inf {
      NothingSaved(m);
      mem := NewNothing(dbm);
      return;
    }
    var maxBits := AddBits(AddBits(0, dbm[0, 1]), dbm[1, 0]);
    if maxBits < LS_INF16 {
      SmallRangeOfTwo(m);
    }
    mem := NewCopy(dbm, maxBits < LS_INF16);
  }

  ghost function HeadOfDim2(m: Dbm): Head
    requires |m| <= 2
  {
    if |m| == 1 then CopyHead(1, false)
    else if m[0][1] == LE_ZERO && m[1][0] == Inf then NothingHead(2)
    else CopyHead(2, RangeOfTwo(m) < LS_INF16)
  }

  /** The form that is written for a matrix, for all values of the flags. */
  ghost function WrittenHead(m: Dbm, minimizeGraph: bool, tryConstraints16: bool): Head {
    var coded16 := tryConstraints16 && MaxRange(m) < LS_INF16;
    if |m| <= 2 then HeadOfDim2(m)
    else if minimizeGraph then HeadOfMinimal(m, coded16)
    else CopyHead(|m|, coded16)
  }

  ghost function HeadOfMinimal(m: Dbm, coded16: bool): Head {
    if |SavedBits(m)| == 0 then NothingHead(|m|) else ChosenHead(|m|, coded16, |SavedBits(m)|)
  }

  /** Some constraint is written. */
  ghost predicate WritesConstraints(m: Dbm, minimizeGraph: bool) {
    if |m| == 2 then !(m[0][1] == LE_ZERO && m[1][0] == Inf)
    else |m| > 2 && (minimizeGraph ==> |SavedBits(m)| > 0)
  }

  /** Constraints are written on 16 bits exactly when that is asked for, or not up to the caller, and few bits do. */
  lemma WrittenWidth(m: Dbm, minimizeGraph: bool, tryConstraints16: bool)
    requires Canonical(m)
    ensures WrittenHead(m, minimizeGraph, tryConstraints16).coded16 <==>
      WritesConstraints(m, minimizeGraph) && (|m| == 2 || tryConstraints16) && FewBits(m)
  {
    if |m| == 2 {
      RangeOfTwoIsSmallExactly(m);
    } else {
      assert m[|m| - 1][|m| - 1] == LE_ZERO;
      RangeIsSmallExactly(m);
    }
  }

  /** dbm_writeToMinDBMWithOffset, at offset 0: the result is always a packed form of the matrix, whatever the
      flags ask for. */
  method WriteToMinDBM(dbm: array2<Raw>, minimizeGraph: bool, tryConstraints16: bool) returns (mem: array<Word>)
    requires IsSquare(dbm) && Canonical(Mat(dbm)) && dbm.Length0 < 0x1_0000 && |SavedBits(Mat(dbm))| < 0x8000_0000
    requires CodableMatrix(Mat(dbm), false)
    ensures fresh(mem) && Encodes(mem[..], Mat(dbm)) && ReadHead(mem[0]) == WrittenHead(Mat(dbm), minimizeGraph, tryConstraints16)
    ensures ReadHead(mem[0]).coded16 <==>
      WritesConstraints(Mat(dbm), minimizeGraph) && (dbm.Length0 == 2 || tryConstraints16) && FewBits(Mat(dbm))
  {
    WrittenWidth(Mat(dbm), minimizeGraph, tryConstraints16);
    if dbm.Length0 <= 2 {
      mem := WriteDim2(dbm);
      return;
    }
    var coded16 := false;
    if tryConstraints16 {
      var max := GetMaxRange(dbm);
      coded16 := max < LS_INF16;
    }
    if coded16 {
      assert Mat(dbm)[dbm.Length0 - 1][dbm.Length0 - 1] == LE_ZERO;
      SmallRangeFits(Mat(dbm));
    }
    if minimizeGraph {
      mem := WriteMinimal(dbm, coded16);
    } else {
      mem := NewCopy(dbm, coded16);
    }
  }

  method WriteMinimal(dbm: array2<Raw>, coded16: bool) returns (mem: array<Word>)
    requires IsSquare(dbm) && Canonical(Mat(dbm)) && 2 < dbm.Length0 < 0x1_0000 && |SavedBits(Mat(dbm))| < 0x8000_0000
    requires CodableMatrix(Mat(dbm), false) && CodableMatrix(Mat(dbm), coded16)
    ensures fresh(mem) && Encodes(mem[..], Mat(dbm)) && ReadHead(mem[0]) == HeadOfMinimal(Mat(dbm), coded16)
    ensures |SavedBits(Mat(dbm))| > 0 ==> IsLeast(mem.Length, Mat(dbm), coded16)
  {
    ghost var m := Mat(dbm);
    var bits := new Word[WordsFor(Cells(dbm.Length0))];
    assert dbm as object != bits as object;
    var cnt := Analyze(dbm, bits);
    cnt := CleanBitMatrix(dbm, bits, cnt);
    assert Mat(dbm) == m;
    if cnt == 0 {
      mem := NewNothing(dbm);
    } else {
      mem := Encode(dbm, bits[..], cnt, coded16);
    }
  }
}
