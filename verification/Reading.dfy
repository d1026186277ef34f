/** Unpacking: dbm_readFromMinDBM and its readers (src/mingraph_read.c), and dbm_getSizeOfMinDBM (src/mingraph.c). */
module Reading {
  import opened Bounds
  import opened Zones
  import opened Closure
  import opened Closing
  import opened Words
  import opened Restoring
  import opened Coding
  import opened Positions
  import opened Packed
  import opened Writing
  import opened Encoding

  // ----- The size of a packed form -----

  /** dbm_getSizeOfMinDBM; the words of header and constraints are summed up on 32 bits. */
  function SizeOfMinDBM(s: seq<Word>): nat
    requires |s| >= 1 && (IsMany(s[0]) ==> |s| >= 2)
  {
    var h := ReadHead(s[0]);
    if h.minimal then SizeFor(h, NbConstraints(s)) else PackedSize(h, 0)
  }

  function SizeFor(h: Head, nb: nat): nat {
    (1 + Flag(h.many) + AreaSize(nb, h.coded16)) % WORD + (if h.codedIJ then CouplesSize(nb, h.code) else WordsFor(Cells(h.dim)))
  }

  /** The size computed from a packed form is the size that was allocated for it, exactly when the number
      of saved constraints lies outside 512..1023. */
  lemma SizeIsRecovered(s: seq<Word>, m: Dbm)
    requires Encodes(s, m) && |SavedBits(m)| < 0x4000_0000
    ensures SizeOfMinDBM(s) == |s| <==> (ReadHead(s[0]).minimal ==> CountIsRead(|SavedBits(m)|))
  {
    var h, cnt := ReadHead(s[0]), |SavedBits(m)|;
    if h.minimal {
      RecoverSize(s, h, cnt);
    }
  }

  lemma RecoverSize(s: seq<Word>, h: Head, cnt: nat)
    requires |s| >= 1 && ReadHead(s[0]) == h && h.minimal && h.many == (cnt > 0x3ff) && CountRecorded(s, cnt, h.many)
    requires cnt < 0x4000_0000 && |s| == PackedSize(h, cnt)
    ensures SizeOfMinDBM(s) == |s| <==> CountIsRead(cnt)
  {
    CountReadBack(s, cnt);
    assert SizeOfMinDBM(s) == SizeFor(h, NbConstraints(s));
    if CountIsRead(cnt) {
      GoodSize(h, cnt);
    } else {
      MisreadCount(s, cnt);
      MisreadSize(h, cnt);
    }
  }

  lemma GoodSize(h: Head, cnt: nat)
    requires h.minimal && cnt < 0x4000_0000
    ensures SizeFor(h, cnt) == PackedSize(h, cnt)
  {
  }

  lemma MisreadCount(s: seq<Word>, cnt: nat)
    requires |s| >= 1 && !IsMany(s[0]) && s[0] / 0x40_0000 == cnt && 512 <= cnt <= 1023
    ensures NbConstraints(s) == cnt + 0x3ff_ffff_fc00
  {
  }

  lemma MisreadSize(h: Head, cnt: nat)
    requires h.minimal && !h.many && 512 <= cnt <= 1023
    ensures SizeFor(h, cnt + 0x3ff_ffff_fc00) != PackedSize(h, cnt)
  {
    if h.coded16 {
      assert AreaSize(cnt + 0x3ff_ffff_fc00, true) == AreaSize(cnt, true) + 0x1ff_ffff_fe00;
    }
  }

  // ----- Reading a copy -----

  /** The entries before (i, j) are those of m. */
  ghost predicate CopiedTo(m: Dbm, k: Dbm, i: nat, j: nat) {
    |k| == |m| && forall x, y {:trigger k[x][y]} :: 0 <= x < |m| && 0 <= y < |m| && Before(x, y, i, j) ==> k[x][y] == m[x][y]
  }

  /** The entries off the diagonal that are in their place. */
  ghost function InPlace(s: seq<Word>, m: Dbm, coded16: bool): (held: set<(nat, nat)>) {
    set e | e in OffDiagonal(|m|) && HoldsConstraint(s, 1, m, OffDiagonal(|m|), coded16, e.0, e.1)
  }

  lemma AllInPlace(s: seq<Word>, m: Dbm, coded16: bool)
    requires HoldsConstraints(s, 1, m, OffDiagonal(|m|), coded16)
    ensures InPlace(s, m, coded16) == OffDiagonal(|m|)
  {
    forall e | e in OffDiagonal(|m|) ensures HoldsConstraint(s, 1, m, OffDiagonal(|m|), coded16, e.0, e.1) {
      assert (e.0, e.1) in OffDiagonal(|m|);
    }
  }

  /** Constraint number k is entry (i, j). */
  lemma CopiedConstraint(s: seq<Word>, m: Dbm, coded16: bool, i: nat, j: nat)
    requires InPlace(s, m, coded16) == OffDiagonal(|m|) && i < |m| && j < |m| && i != j
    ensures var k := Index(OffDiagonal(|m|), i, j); Slot(1, k, coded16) < |s| && Stored(s, 1, k, coded16) == m[i][j]
  {
    assert (i, j) in InPlace(s, m, coded16);
  }

  /** The next entry of the copy: the diagonal is not saved. */
  method SavedEntry(s: seq<Word>, coded16: bool, i: nat, j: nat, k: nat, ghost m: Dbm) returns (c: Raw, k': nat)
    requires ZeroDiagonal(m) && i < |m| && j < |m| && k == CopyIndex(|m|, i, j)
    requires InPlace(s, m, coded16) == OffDiagonal(|m|)
    ensures c == m[i][j] && k' == CopyIndex(|m|, i, j + 1)
  {
    if i == j {
      assert m[i][i] == LE_ZERO;
      return LE_ZERO, k;
    }
    CopyIndexIs(|m|, i, j);
    CopiedConstraint(s, m, coded16, i, j);
    return Stored(s, 1, k, coded16), k + 1;
  }

  /** One entry of the copy; k constraints were read so far. */
  method ReadCopyEntry(dbm: array2<Raw>, s: seq<Word>, coded16: bool, i: nat, j: nat, k: nat, ghost m: Dbm) returns (k': nat)
    requires IsSquare(dbm) && dbm.Length0 == |m| && ZeroDiagonal(m) && i < |m| && j < |m|
    requires InPlace(s, m, coded16) == OffDiagonal(|m|)
    requires k == CopyIndex(|m|, i, j) && CopiedTo(m, Mat(dbm), i, j)
    modifies dbm
    ensures k' == CopyIndex(|m|, i, j + 1) && CopiedTo(m, Mat(dbm), i, j + 1)
  {
    var c;
    c, k' := SavedEntry(s, coded16, i, j, k, m);
    dbm[i, j] := c;
  }

  /** One row of the copy. */
  method ReadCopyRow(dbm: array2<Raw>, s: seq<Word>, coded16: bool, i: nat, k0: nat, ghost m: Dbm) returns (k: nat)
    requires IsSquare(dbm) && dbm.Length0 == |m| && ZeroDiagonal(m) && i < |m|
    requires InPlace(s, m, coded16) == OffDiagonal(|m|)
    requires k0 == CopyIndex(|m|, i, 0) && Mat(dbm)[..i] == m[..i]
    modifies dbm
    ensures k == CopyIndex(|m|, i + 1, 0) && Mat(dbm)[..i + 1] == m[..i + 1]
  {
    k := k0;
    var j := 0;
    FirstInRow(m, Mat(dbm), i);
    while j < dbm.Length0
      invariant 0 <= j <= |m| && k == CopyIndex(|m|, i, j) && CopiedTo(m, Mat(dbm), i, j)
    {
      k := ReadCopyEntry(dbm, s, coded16, i, j, k, m);
      j := j + 1;
    }
    assert j == |m|;
    NextRowCopied(m, Mat(dbm), i, j);
  }

  /** mingraph_readFromCopy32 and mingraph_readFromCopy16 */
  method ReadCopy(dbm: array2<Raw>, s: seq<Word>, coded16: bool, ghost m: Dbm)
    requires IsSquare(dbm) && dbm.Length0 == |m| && ZeroDiagonal(m)
    requires InPlace(s, m, coded16) == OffDiagonal(|m|)
    modifies dbm
    ensures Mat(dbm) == m
  {
    var k := 0;
    var i := 0;
    while i < dbm.Length0
      invariant 0 <= i <= |m| && k == CopyIndex(|m|, i, 0) && Mat(dbm)[..i] == m[..i]
    {
      k := ReadCopyRow(dbm, s, coded16, i, k, m);
      i := i + 1;
    }
    assert Mat(dbm)[..i] == Mat(dbm) && m[..i] == m;
  }

  lemma FirstInRow(m: Dbm, k: Dbm, i: nat)
    requires |k| == |m| && i <= |m| && k[..i] == m[..i]
    ensures CopiedTo(m, k, i, 0)
  {
    forall x, y {:trigger k[x][y]} | 0 <= x < |m| && 0 <= y < |m| && Before(x, y, i, 0) ensures k[x][y] == m[x][y] {
      assert k[..i][x] == m[..i][x];
    }
  }

  lemma NextRowCopied(m: Dbm, k: Dbm, i: nat, j: nat)
    requires i < |m| == j && CopiedTo(m, k, i, j)
    ensures k[..i + 1] == m[..i + 1]
  {
    forall x | 0 <= x < i + 1 ensures k[x] == m[x] {
      forall y | 0 <= y < |m| ensures k[x][y] == m[x][y] {
        assert Before(x, y, i, |m|);
      }
    }
  }

  // ----- Decoding couples -----

  /** What is left of w after t indices were shifted out. */
  ghost predicate ShiftedOut(w: nat, code: nat, t: nat, val: nat) {
    forall l: nat {:trigger Field(val, code, l)} :: Field(val, code, l) == Field(w, code, t + l)
  }

  /** i = val_ij & bitMask; val_ij >>= bitSize */
  lemma ShiftOut(w: nat, code: nat, t: nat, val: nat)
    requires ShiftedOut(w, code, t, val)
    ensures val % Base(code) == Field(w, code, t) && ShiftedOut(w, code, t + 1, val / Base(code))
  {
    assert Field(val, code, 0) == Field(w, code, t + 0);
    forall l: nat {:trigger Field(val / Base(code), code, l)} ensures Field(val / Base(code), code, l) == Field(w, code, t + 1 + l) {
      assert Field(val, code, l + 1) == Field(w, code, t + (l + 1));
    }
  }

  /** The decompression loop of mingraph_readFromMinCouplesij32 and mingraph_readFromMinCouplesij16. */
  method DecodeCouples(s: seq<Word>, start: nat, code: nat, cnt: nat) returns (L: seq<(nat, nat)>)
    requires cnt > 0 && start + CouplesSize(cnt, code) <= |s|
    ensures L == CouplesAt(s, start, code, cnt)
  {
    L := [];
    CoupleWordInRange(cnt, code, 0);
    var out, consumed := start, 0;
    var val: nat := s[start];
    ghost var n := 0;
    while true
      invariant |L| < cnt && 2 * |L| == n + consumed && consumed < PerWord(code) && n % PerWord(code) == 0
      invariant out == start + n / PerWord(code) < |s| && ShiftedOut(s[out], code, consumed, val)
      invariant L == CouplesAt(s, start, code, |L|)
      decreases cnt - |L|
    {
      DecodeOne(s, start, code, n, consumed, |L|, val);
      var i := val % Base(code);
      val := val / Base(code);
      var j := val % Base(code);
      val := val / Base(code);
      L := L + [(i, j)];
      consumed := consumed + 2;
      if |L| == cnt {
        return;
      }
      if consumed == PerWord(code) {
        WordOfIndex(code, n, 0);
        n := n + consumed;
        CoupleWordInRange(cnt, code, n);
        out, consumed := out + 1, 0;
        val := s[out];
      }
    }
  }

  /** Two shifts give the next couple. */
  lemma DecodeOne(s: seq<Word>, start: nat, code: nat, n: nat, t: nat, k: nat, val: nat)
    requires 2 * k == n + t && t < PerWord(code) && n % PerWord(code) == 0 && start + n / PerWord(code) < |s|
    requires ShiftedOut(s[start + n / PerWord(code)], code, t, val)
    ensures var w, B := s[start + n / PerWord(code)], Base(code);
      t + 2 <= PerWord(code) && ShiftedOut(w, code, t + 2, val / B / B) &&
      CouplesAt(s, start, code, k + 1) == CouplesAt(s, start, code, k) + [(val % B, val / B % B)]
  {
    var w := s[start + n / PerWord(code)];
    EvenRoom(code, n, t, k);
    ShiftOut(w, code, t, val);
    ShiftOut(w, code, t + 1, val / Base(code));
    OneMoreCouple(s, start, code, n, t, k + 1);
  }

  /** The k-th couple of the area is made of the indices number t and t + 1 of its word. */
  lemma OneMoreCouple(s: seq<Word>, start: nat, code: nat, n: nat, t: nat, k: nat)
    requires k > 0 && 2 * k == n + t + 2 && t + 2 <= PerWord(code) && n % PerWord(code) == 0 && start + n / PerWord(code) < |s|
    ensures var w := s[start + n / PerWord(code)];
      CouplesAt(s, start, code, k) == CouplesAt(s, start, code, k - 1) + [(Field(w, code, t), Field(w, code, t + 1))]
  {
    WordOfIndex(code, n, t);
    WordOfIndex(code, n, t + 1);
  }

  // ----- Writing what was saved over dbm_init -----

  lemma InitIsRestored(m: Dbm, k: Dbm, L: seq<(nat, nat)>)
    requires |k| == |m| && IsInit(k)
    ensures IsRestored(m, Listed(L, 0), k) && Touches(Listed(L, 0), {})
  {
  }

  lemma RestoreOne(m: Dbm, S: set<(nat, nat)>, k: Dbm, k': Dbm, i: nat, j: nat)
    requires IsRestored(m, S, k) && i < |m| && j < |m| && |k'| == |k|
    requires forall x, y {:trigger k'[x][y]} :: 0 <= x < |m| && 0 <= y < |m| ==>
      k'[x][y] == if x == i && y == j then m[i][j] else k[x][y]
    ensures IsRestored(m, S + {(i, j)}, k')
  {
  }

  lemma TouchOne(S: set<(nat, nat)>, T: set<int>, i: nat, j: nat)
    requires Touches(S, T)
    ensures Touches(S + {(i, j)}, if i > 0 then T + {i, j} else T)
  {
    var S', T' := S + {(i, j)}, if i > 0 then T + {i, j} else T;
    assert (i, j) in S';
    forall p: nat ensures p in T' <==> exists x: nat, y: nat {:trigger (x, y) in S'} :: (x, y) in S' && x > 0 && (p == x || p == y) {
      if p in T {
        var x: nat, y: nat :| (x, y) in S && x > 0 && (p == x || p == y);
        assert (x, y) in S';
      }
      if x: nat, y: nat :| (x, y) in S' && x > 0 && (p == x || p == y) {
        assert (x, y) in S || (x == i && y == j);
      }
    }
  }

  /** Write the constraints of the list over a fresh matrix, and note the clocks they touch. */
  method RestoreListed(dbm: array2<Raw>, s: seq<Word>, c0: nat, coded16: bool, L: seq<(nat, nat)>, ghost m: Dbm, ghost S: set<(nat, nat)>)
    returns (touched: set<int>)
    requires IsSquare(dbm) && dbm.Length0 == |m| && IsInit(Mat(dbm))
    requires HoldsConstraints(s, c0, m, S, coded16) && IsListing(L, S)
    modifies dbm
    ensures IsRestored(m, S, Mat(dbm)) && Touches(S, touched)
  {
    touched := {};
    InitIsRestored(m, Mat(dbm), L);
    var k := 0;
    while k < |L|
      invariant 0 <= k <= |L| && IsRestored(m, Listed(L, k), Mat(dbm)) && Touches(Listed(L, k), touched)
    {
      ListedInRange(L, S, |m|, k);
      var (i, j) := L[k];
      assert HoldsConstraint(s, c0, m, S, coded16, i, j);
      ghost var before := Mat(dbm);
      dbm[i, j] := Stored(s, c0, k, coded16);
      RestoreOne(m, Listed(L, k), before, Mat(dbm), i, j);
      TouchOne(Listed(L, k), touched, i, j);
      ListedOneMore(L, k);
      if i > 0 {
        touched := touched + {i, j};
      }
      k := k + 1;
    }
    AllListed(L, S);
  }

  lemma RestoredHasPoint(m: Dbm, k: Dbm)
    requires Valid(m) && IsRestored(m, SavedBits(m), k)
    ensures !EmptyZone(k)
  {
    var v := CanonicalHasPoint(m);
    RestoredMeets(m, k, v);
    assert InZone(v, k);
  }

  lemma {:induction false} NothingToClose(m: Dbm, T: set<int>, k: nat)
    requires k <= |m| && T == {}
    ensures CloseOver(m, T, k) == m
  {
    if k != 0 {
      NothingToClose(m, T, k - 1);
    }
  }

  /** Read the couples or scan the bit table. */
  method ReadSelection(s: seq<Word>, start: nat, h: Head, cnt: nat, ghost S: set<(nat, nat)>) returns (L: seq<(nat, nat)>)
    requires HoldsSelection(s, start, h.dim, S, h) && PairsBelow(S, h.dim) && cnt == |S| && h.dim > 0
    requires cnt > 0 && (h.codedIJ ==> start + CouplesSize(cnt, h.code) <= |s|)
    ensures IsListing(L, S)
  {
    if h.codedIJ {
      L := DecodeCouples(s, start, h.code, cnt);
      ListOfLists(S, h.dim);
    } else {
      L := ListPairs(s[start..], h.dim, cnt, S);
    }
  }

  lemma SelectionFits(s: seq<Word>, m: Dbm, S: set<(nat, nat)>, h: Head, start: nat)
    requires EncodesMinimal(s, m, S, h) && |s| == PackedSize(h, |S|) && h.minimal && |m| == h.dim
    requires start == 1 + Flag(h.many) + AreaSize(|S|, h.coded16)
    ensures HoldsSelection(s, start, h.dim, S, h) && (h.codedIJ ==> start + CouplesSize(|S|, h.code) <= |s|)
  {
  }

  /** The list of the saved constraints. */
  method ReadList(s: seq<Word>, h: Head, cnt: nat, ghost m: Dbm) returns (L: seq<(nat, nat)>)
    requires EncodesMinimal(s, m, SavedBits(m), h) && |s| == PackedSize(h, cnt) && h.minimal && |m| == h.dim && cnt == |SavedBits(m)| > 0
    ensures IsListing(L, SavedBits(m))
  {
    var start := 1 + Flag(h.many) + AreaSize(cnt, h.coded16);
    SavedPairsBelow(m);
    SelectionFits(s, m, SavedBits(m), h, start);
    L := ReadSelection(s, start, h, cnt, SavedBits(m));
  }

  /** The readers of the minimal forms. */
  method ReadMinimal(dbm: array2<Raw>, s: seq<Word>, h: Head, cnt: nat, ghost m: Dbm)
    requires IsSquare(dbm) && dbm.Length0 == |m| == h.dim && Valid(m) && cnt == |SavedBits(m)|
    requires EncodesMinimal(s, m, SavedBits(m), h) && |s| == PackedSize(h, cnt) && h.minimal && (cnt == 0 ==> h.codedIJ)
    modifies dbm
    ensures Mat(dbm) == m
  {
    ghost var S := SavedBits(m);
    SavedPairsBelow(m);
    Init(dbm);
    if cnt == 0 {
      InitRestores(m, Mat(dbm));
      return;
    }
    var L := ReadList(s, h, cnt, m);
    var touched := RestoreListed(dbm, s, 1 + Flag(h.many), h.coded16, L, m, S);
    FinishReading(dbm, touched, m);
  }

  /** Close over the touched clocks. */
  method FinishReading(dbm: array2<Raw>, touched: set<int>, ghost m: Dbm)
    requires IsSquare(dbm) && dbm.Length0 == |m| && Valid(m)
    requires IsRestored(m, SavedBits(m), Mat(dbm)) && Touches(SavedBits(m), touched)
    modifies dbm
    ensures Mat(dbm) == m
  {
    RestoreIsExact(m, Mat(dbm), touched);
    RestoredHasPoint(m, Mat(dbm));
    var ok := CloseTouched(dbm, touched);
  }

  lemma InitRestores(m: Dbm, k: Dbm)
    requires Valid(m) && |k| == |m| && |SavedBits(m)| == 0 && IsInit(k)
    ensures k == m
  {
    assert SavedBits(m) == {};
    RestoreIsExact(m, k, {});
    NothingToClose(k, {}, |k|);
  }

  /** dbm_readFromMinDBM.  Whatever encoding was used, the matrix that was packed comes back, when the reader
      gets the number of constraints right (see CountReadBack). */
  method ReadFromMinDBM(dbm: array2<Raw>, s: seq<Word>, ghost m: Dbm)
    requires Encodes(s, m) && Valid(m) && IsSquare(dbm) && dbm.Length0 == |m|
    requires |SavedBits(m)| < 0x8000_0000 && (ReadHead(s[0]).minimal ==> CountIsRead(|SavedBits(m)|))
    modifies dbm
    ensures Mat(dbm) == m
  {
    var h := ReadHead(s[0]);
    if h.minimal {
      CountReadBack(s, |SavedBits(m)|);
      var cnt := NbConstraints(s);
      ReadMinimal(dbm, s, h, cnt, m);
    } else {
      AllInPlace(s, m, h.coded16);
      ReadCopy(dbm, s, h.coded16, m);
    }
  }

  /** Pack and unpack: the identity for all flags, unless a minimal form with a count in 512..1023 is written. */
  method PackUnpack(dbm: array2<Raw>, minimizeGraph: bool, tryConstraints16: bool, dst: array2<Raw>)
    requires IsSquare(dbm) && Valid(Mat(dbm)) && dbm.Length0 < 0x1_0000 && CodableMatrix(Mat(dbm), false)
    requires IsSquare(dst) && dst.Length0 == dbm.Length0 && dst != dbm && |SavedBits(Mat(dbm))| < 0x8000_0000
    requires WrittenHead(Mat(dbm), minimizeGraph, tryConstraints16).minimal ==> CountIsRead(|SavedBits(Mat(dbm))|)
    modifies dst
    ensures Mat(dst) == Mat(dbm) == old(Mat(dbm))
  {
    var mem := WriteToMinDBM(dbm, minimizeGraph, tryConstraints16);
    ReadFromMinDBM(dst, mem[..], Mat(dbm));
  }
}
