/** Packing a closed matrix: mingraph_encode and the writers of src/mingraph_write.c.  Each pair of writers
    for 16 and 32 bits is one method here with the width as a parameter. */
module Writing {
  import opened Bounds
  import Zones
  import opened Closing
  import opened Words
  import opened Analysis
  import Restoring
  import opened Coding
  import opened Positions
  import opened Packed

  // ----- Saving constraints in order -----

  /** Only the words of the constraint area, which starts at c0, may differ. */
  ghost predicate SameOutside(s: seq<Word>, s': seq<Word>, c0: nat, size: nat) {
    |s| == |s'| && forall x {:trigger s'[x]} :: 0 <= x < |s| && !(c0 <= x < c0 + size) ==> s'[x] == s[x]
  }

  /** The constraints of the first k listed pairs are in place. */
  ghost predicate SavedTo(s: seq<Word>, c0: nat, m: Zones.Dbm, S: set<(nat, nat)>, coded16: bool, L: seq<(nat, nat)>, k: nat) {
    k <= |L| && forall t {:trigger L[t]} :: 0 <= t < k ==> HoldsConstraint(s, c0, m, S, coded16, L[t].0, L[t].1)
  }

  lemma SavedAll(s: seq<Word>, c0: nat, m: Zones.Dbm, S: set<(nat, nat)>, coded16: bool, L: seq<(nat, nat)>)
    requires IsListing(L, S) && PairsBelow(S, |m|) && SavedTo(s, c0, m, S, coded16, L, |L|)
    ensures HoldsConstraints(s, c0, m, S, coded16)
  {
    forall i: nat, j: nat {:trigger (i, j) in S} | (i, j) in S ensures HoldsConstraint(s, c0, m, S, coded16, i, j) {
      ListedAt(L, S, i, j);
    }
  }

  lemma ListedInRange(L: seq<(nat, nat)>, S: set<(nat, nat)>, n: nat, k: nat)
    requires IsListing(L, S) && PairsBelow(S, n) && k < |L|
    ensures L[k].0 < n && L[k].1 < n && L[k] in S && Index(S, L[k].0, L[k].1) == k
  {
    assert (L[k].0, L[k].1) in S;
  }

  /** *constraints++ = *dbm, for the k-th listed pair. */
  method SaveListed(mem: array<Word>, c0: nat, r: Raw, coded16: bool, k: nat, ghost m: Zones.Dbm, ghost S: set<(nat, nat)>, ghost L: seq<(nat, nat)>)
    requires IsListing(L, S) && PairsBelow(S, |m|) && k < |L|
    requires L[k].0 < |m| && L[k].1 < |m| && r == m[L[k].0][L[k].1] && Codable(r, coded16)
    requires c0 + AreaSize(|S|, coded16) <= mem.Length && SavedTo(mem[..], c0, m, S, coded16, L, k)
    modifies mem
    ensures SavedTo(mem[..], c0, m, S, coded16, L, k + 1)
    ensures SameOutside(old(mem[..]), mem[..], c0, AreaSize(|S|, coded16))
  {
    ghost var s := mem[..];
    SlotInArea(c0, k, |S|, coded16);
    PutRaw(mem, c0, k, coded16, r);
    forall t {:trigger L[t]} | 0 <= t < k + 1 ensures HoldsConstraint(mem[..], c0, m, S, coded16, L[t].0, L[t].1) {
      ListedInRange(L, S, |m|, t);
      if t < k {
        assert HoldsConstraint(s, c0, m, S, coded16, L[t].0, L[t].1);
      }
    }
  }

  /** The loop that saves the constraints marked in the table. */
  method SaveMarked(mem: array<Word>, c0: nat, dbm: array2<Raw>, L: seq<(nat, nat)>, coded16: bool, ghost S: set<(nat, nat)>)
    requires IsSquare(dbm) && CodableMatrix(Mat(dbm), coded16) && IsListing(L, S) && PairsBelow(S, dbm.Length0)
    requires c0 + AreaSize(|S|, coded16) <= mem.Length
    modifies mem
    ensures HoldsConstraints(mem[..], c0, Mat(dbm), S, coded16)
    ensures SameOutside(old(mem[..]), mem[..], c0, AreaSize(|S|, coded16))
  {
    ghost var m := Mat(dbm);
    assert dbm as object != mem as object;
    var k := 0;
    while k < |L|
      invariant unchanged(dbm)
      invariant k <= |L| && SavedTo(mem[..], c0, m, S, coded16, L, k)
      invariant SameOutside(old(mem[..]), mem[..], c0, AreaSize(|S|, coded16))
    {
      ListedInRange(L, S, |m|, k);
      var r := dbm[L[k].0, L[k].1];
      assert r == m[L[k].0][L[k].1];
      SaveListed(mem, c0, r, coded16, k, m, S, L);
      k := k + 1;
    }
    SavedAll(mem[..], c0, m, S, coded16, L);
  }

  // ----- Headers -----

  /** The header word w and, for many constraints, a word for their number. */
  ghost predicate StartsWith(s: seq<Word>, w: Word, many: bool, cnt: nat) {
    |s| >= 1 + Flag(many) && s[0] == w && (many ==> s[1] == cnt)
  }

  lemma StartIsKept(s: seq<Word>, s': seq<Word>, w: Word, many: bool, cnt: nat)
    requires StartsWith(s, w, many, cnt) && 1 + Flag(many) <= |s'| && s'[..1 + Flag(many)] == s[..1 + Flag(many)]
    ensures StartsWith(s', w, many, cnt)
  {
    assert s'[0] == s'[..1 + Flag(many)][0] && s[0] == s[..1 + Flag(many)][0];
    if many {
      assert s'[1] == s'[..2][1] && s[1] == s[..2][1];
    }
  }

  /** The type information word. */
  function HeaderWord(h: Head, cnt: nat): Word
    requires h.dim < 0x1_0000 && h.code < 4 && (h.minimal && !h.many ==> cnt <= 0x3ff)
  {
    Header(h.dim, h.coded16, h.codedIJ, h.minimal, h.code, h.many, if h.minimal && !h.many then cnt else 0)
  }

  /** A packed form is complete once the header is right. */
  lemma PackedIsComplete(s: seq<Word>, m: Zones.Dbm, h: Head, w: Word)
    requires h.dim < 0x1_0000 && HeadFits(h, |m|, |Restoring.SavedBits(m)|) && w == HeaderWord(h, |Restoring.SavedBits(m)|)
    requires StartsWith(s, w, h.many, |Restoring.SavedBits(m)|) && EncodesWith(s, m, h) && |s| == PackedSize(h, |Restoring.SavedBits(m)|)
    ensures Encodes(s, m) && ReadHead(s[0]) == h
  {
    var nb := if h.minimal && !h.many then |Restoring.SavedBits(m)| else 0;
    HeaderFields(h.dim, h.coded16, h.codedIJ, h.minimal, h.code, h.many, nb);
  }

  // ----- Copy without the diagonal -----

  /** mingraph_writeCopy32 and mingraph_writeCopy16 */
  method WriteCopy(mem: array<Word>, dbm: array2<Raw>, coded16: bool, w: Word)
    requires IsSquare(dbm) && CodableMatrix(Mat(dbm), coded16)
    requires mem.Length == 1 + AreaSize(dbm.Length0 * (dbm.Length0 - 1), coded16)
    modifies mem
    ensures StartsWith(mem[..], w, false, 0)
    ensures HoldsConstraints(mem[..], 1, Mat(dbm), OffDiagonal(dbm.Length0), coded16)
  {
    var n := dbm.Length0;
    assert dbm as object != mem as object;
    mem[0] := w;
    ghost var before := mem[..];
    var L := ListOffDiagonal(n);
    OffDiagonalSize(n);
    SaveMarked(mem, 1, dbm, L, coded16, OffDiagonal(n));
    OutsideIsKept(before, mem[..], 1, AreaSize(n * (n - 1), coded16));
    StartIsKept(before, mem[..], w, false, 0);
  }

  // ----- The constraints of a minimal graph -----

  /** When an odd number of 16-bit constraints is saved, the other half of the last word is reset. */
  method ResetLast16(mem: array<Word>, c0: nat, cnt: nat, coded16: bool, ghost m: Zones.Dbm, ghost S: set<(nat, nat)>)
    requires HoldsConstraints(mem[..], c0, m, S, coded16) && cnt == |S| > 0 && c0 + AreaSize(cnt, coded16) <= mem.Length
    modifies mem
    ensures HoldsConstraints(mem[..], c0, m, S, coded16)
    ensures SameOutside(old(mem[..]), mem[..], c0, AreaSize(cnt, coded16))
    ensures coded16 && cnt % 2 == 1 ==> Half(mem[c0 + cnt / 2], 1) == 0
  {
    if coded16 && cnt % 2 == 1 {
      ghost var s := mem[..];
      mem[c0 + cnt / 2] := WithHalf(mem[c0 + cnt / 2], 1, 0);
      forall i: nat, j: nat {:trigger (i, j) in S} | (i, j) in S ensures HoldsConstraint(mem[..], c0, m, S, coded16, i, j) {
        assert HoldsConstraint(s, c0, m, S, coded16, i, j);
        IndexBelow(S, i, j);
      }
    }
  }

  lemma OutsideIsKept(s: seq<Word>, s': seq<Word>, c0: nat, size: nat)
    requires SameOutside(s, s', c0, size) && c0 + size <= |s|
    ensures s'[..c0] == s[..c0] && s'[c0 + size..] == s[c0 + size..]
  {
  }

  /** The constraint area and the reset of its last half word; nothing else is written. */
  method SaveArea(mem: array<Word>, c0: nat, dbm: array2<Raw>, bits: seq<Word>, cnt: nat, coded16: bool, ghost S: set<(nat, nat)>)
    returns (L: seq<(nat, nat)>)
    requires IsSquare(dbm) && CodableMatrix(Mat(dbm), coded16)
    requires MarksPairs(bits, dbm.Length0, S) && PairsBelow(S, dbm.Length0) && cnt == |S| > 0
    requires c0 + AreaSize(cnt, coded16) <= mem.Length
    modifies mem
    ensures HoldsConstraints(mem[..], c0, Mat(dbm), S, coded16) && IsListing(L, S)
    ensures mem[..c0] == old(mem[..c0]) && mem[c0 + AreaSize(cnt, coded16)..] == old(mem[c0 + AreaSize(cnt, coded16)..])
    ensures coded16 && cnt % 2 == 1 ==> Half(mem[c0 + cnt / 2], 1) == 0
  {
    ghost var m, size := Mat(dbm), AreaSize(cnt, coded16);
    assert dbm as object != mem as object;
    ghost var before := mem[..];
    L := ListPairs(bits, dbm.Length0, cnt, S);
    SaveMarked(mem, c0, dbm, L, coded16, S);
    OutsideIsKept(before, mem[..], c0, size);
    before := mem[..];
    ResetLast16(mem, c0, cnt, coded16, m, S);
    OutsideIsKept(before, mem[..], c0, size);
  }

  /** Header and constraints, common to the two minimal forms. */
  method WriteConstraints(mem: array<Word>, dbm: array2<Raw>, bits: seq<Word>, cnt: nat, ghost S: set<(nat, nat)>, h: Head, w: Word)
    returns (start: nat, L: seq<(nat, nat)>)
    requires IsSquare(dbm) && CodableMatrix(Mat(dbm), h.coded16)
    requires MarksPairs(bits, dbm.Length0, S) && PairsBelow(S, dbm.Length0) && cnt == |S| && 0 < cnt < 0x8000_0000
    requires 1 + Flag(h.many) + AreaSize(cnt, h.coded16) <= mem.Length
    modifies mem
    ensures start == 1 + Flag(h.many) + AreaSize(cnt, h.coded16)
    ensures StartsWith(mem[..], w, h.many, cnt) && IsListing(L, S)
    ensures HoldsConstraints(mem[..], 1 + Flag(h.many), Mat(dbm), S, h.coded16)
  {
    assert dbm as object != mem as object;
    var c0 := 1 + Flag(h.many);
    mem[0] := w;
    if h.many {
      mem[1] := cnt;
    }
    ghost var before := mem[..];
    L := SaveArea(mem, c0, dbm, bits, cnt, h.coded16, S);
    StartIsKept(before, mem[..], w, h.many, cnt);
    start := c0 + AreaSize(cnt, h.coded16);
  }

  /** What is written from start on leaves header and constraints alone. */
  lemma ConstraintsKept(s: seq<Word>, s': seq<Word>, start: nat, m: Zones.Dbm, S: set<(nat, nat)>, h: Head)
    requires start == 1 + Flag(h.many) + AreaSize(|S|, h.coded16) <= |s| && |s'| == |s| && s'[..start] == s[..start]
    requires HoldsConstraints(s, 1 + Flag(h.many), m, S, h.coded16)
    ensures HoldsConstraints(s', 1 + Flag(h.many), m, S, h.coded16)
    ensures forall w: Word :: StartsWith(s, w, h.many, |S|) ==> StartsWith(s', w, h.many, |S|)
  {
    var c0 := 1 + Flag(h.many);
    forall x | 0 <= x < start ensures s'[x] == s[x] {
      assert s'[x] == s'[..start][x] && s[x] == s[..start][x];
    }
    forall i: nat, j: nat {:trigger (i, j) in S} | (i, j) in S ensures HoldsConstraint(s', c0, m, S, h.coded16, i, j) {
      assert HoldsConstraint(s, c0, m, S, h.coded16, i, j);
      IndexBelow(S, i, j);
      SlotInArea(c0, Index(S, i, j), |S|, h.coded16);
    }
  }

  // ----- Minimal graph with a bit matrix -----

  /** memcpy(constraints + cnt, bitMatrix, ...) */
  method CopyTable(mem: array<Word>, start: nat, bits: seq<Word>)
    requires mem.Length == start + |bits|
    modifies mem
    ensures mem[start..] == bits && mem[..start] == old(mem[..start])
  {
    var w := 0;
    while w < |bits|
      invariant 0 <= w <= |bits|
      invariant mem[start..start + w] == bits[..w] && mem[..start] == old(mem[..start])
    {
      mem[start + w] := bits[w];
      assert mem[start..start + w + 1] == mem[start..start + w] + [bits[w]];
      w := w + 1;
    }
    assert mem[start..] == mem[start..start + w] && bits[..w] == bits;
  }

  /** mingraph_writeMinBitMatrix32 and mingraph_writeMinBitMatrix16 */
  method WriteMinBitMatrix(mem: array<Word>, dbm: array2<Raw>, bits: seq<Word>, cnt: nat, ghost S: set<(nat, nat)>, h: Head, w: Word)
    requires IsSquare(dbm) && CodableMatrix(Mat(dbm), h.coded16) && !h.codedIJ
    requires MarksPairs(bits, dbm.Length0, S) && PairsBelow(S, dbm.Length0) && cnt == |S| && 0 < cnt < 0x8000_0000
    requires mem.Length == 1 + Flag(h.many) + AreaSize(cnt, h.coded16) + |bits|
    modifies mem
    ensures StartsWith(mem[..], w, h.many, cnt) && EncodesMinimal(mem[..], Mat(dbm), S, h)
  {
    assert dbm as object != mem as object;
    var start, L := WriteConstraints(mem, dbm, bits, cnt, S, h, w);
    ghost var before := mem[..];
    CopyTable(mem, start, bits);
    TableFollows(before, mem[..], start, Mat(dbm), bits, S, h, w);
  }

  lemma TableFollows(s: seq<Word>, s': seq<Word>, start: nat, m: Zones.Dbm, bits: seq<Word>, S: set<(nat, nat)>, h: Head, w: Word)
    requires start == 1 + Flag(h.many) + AreaSize(|S|, h.coded16) <= |s| && |s'| == |s| && s'[..start] == s[..start]
    requires StartsWith(s, w, h.many, |S|) && HoldsConstraints(s, 1 + Flag(h.many), m, S, h.coded16)
    requires s'[start..] == bits && MarksPairs(bits, |m|, S) && !h.codedIJ
    ensures StartsWith(s', w, h.many, |S|) && EncodesMinimal(s', m, S, h)
  {
    ConstraintsKept(s, s', start, m, S, h);
  }

  // ----- Minimal graph with couples of indices -----

  /** The indices of a list of couples, in the order in which they are packed. */
  function Flattened(L: seq<(nat, nat)>, t: nat): nat
    requires t / 2 < |L|
  {
    if t % 2 == 0 then L[t / 2].0 else L[t / 2].1
  }

  ghost predicate IndexHeld(s: seq<Word>, start: nat, code: nat, L: seq<(nat, nat)>, t: nat)
    requires t / 2 < |L|
  {
    start + t / PerWord(code) < |s| && IndexAt(s, start, code, t) == Flattened(L, t)
  }

  /** The first n indices are in place. */
  ghost predicate IndicesTo(s: seq<Word>, start: nat, code: nat, L: seq<(nat, nat)>, n: nat) {
    n <= 2 * |L| && forall t: nat {:trigger IndexHeld(s, start, code, L, t)} :: t < n ==> IndexHeld(s, start, code, L, t)
  }

  lemma CoupleHeld(s: seq<Word>, start: nat, code: nat, L: seq<(nat, nat)>, k: nat)
    requires k < |L| && IndicesTo(s, start, code, L, 2 * |L|)
    ensures IndexAt(s, start, code, 2 * k) == L[k].0 && IndexAt(s, start, code, 2 * k + 1) == L[k].1
  {
    assert (2 * k) / 2 == k && (2 * k) % 2 == 0 && (2 * k + 1) / 2 == k && (2 * k + 1) % 2 == 1;
    assert IndexHeld(s, start, code, L, 2 * k) && IndexHeld(s, start, code, L, 2 * k + 1);
  }

  lemma {:induction false} IndicesAreCouples(s: seq<Word>, start: nat, code: nat, L: seq<(nat, nat)>, k: nat)
    requires k <= |L| && IndicesTo(s, start, code, L, 2 * |L|)
    ensures CouplesAt(s, start, code, k) == L[..k]
  {
    if k > 0 {
      IndicesAreCouples(s, start, code, L, k - 1);
      CoupleHeld(s, start, code, L, k - 1);
      assert L[..k] == L[..k - 1] + [L[k - 1]];
    }
  }

  /** val_ij holds the t indices that follow the first n. */
  ghost predicate InHand(code: nat, L: seq<(nat, nat)>, n: nat, val: nat, t: nat) {
    n + t <= 2 * |L| && n % PerWord(code) == 0 && t <= PerWord(code) && val < Power(Base(code), t) &&
    forall l: nat {:trigger Field(val, code, l)} :: l < t ==> Field(val, code, l) == Flattened(L, n + l)
  }

  /** val_ij |= x << shift; shift += bitSize */
  function PutIndex(val: nat, code: nat, t: nat, x: nat): nat {
    val + x * Power(Base(code), t)
  }

  lemma PutIndexInHand(code: nat, L: seq<(nat, nat)>, n: nat, val: nat, t: nat, x: nat)
    requires InHand(code, L, n, val, t) && t < PerWord(code) && n + t < 2 * |L|
    requires x == Flattened(L, n + t) && x < Base(code)
    ensures InHand(code, L, n, PutIndex(val, code, t, x), t + 1)
  {
    var val' := PutIndex(val, code, t, x);
    PutField(val, code, t, x, t);
    forall l: nat {:trigger Field(val', code, l)} | l < t + 1 ensures Field(val', code, l) == Flattened(L, n + l) {
      PutField(val, code, t, x, l);
    }
  }

  lemma WordOfIndex(code: nat, n: nat, l: nat)
    requires n % PerWord(code) == 0 && l < PerWord(code)
    ensures (n + l) / PerWord(code) == n / PerWord(code) && (n + l) % PerWord(code) == l
    ensures (n + PerWord(code)) / PerWord(code) == n / PerWord(code) + 1 && (n + PerWord(code)) % PerWord(code) == 0
  {
    if code == 0 {
    } else if code == 1 {
    } else {
    }
  }

  lemma FitsWord(code: nat, val: nat, t: nat)
    requires val < Power(Base(code), t) && t <= PerWord(code)
    ensures val < WORD
  {
    PowerMonotone(Base(code), t, PerWord(code));
    PowerFillsWord(code);
  }

  lemma {:induction false} PowerMonotone(b: nat, t: nat, t': nat)
    requires b > 0 && t <= t'
    ensures Power(b, t) <= Power(b, t')
  {
    if t < t' {
      PowerMonotone(b, t, t' - 1);
      assert Power(b, t') == b * Power(b, t' - 1);
      TimesGrows(b, Power(b, t' - 1));
    }
  }

  lemma TimesGrows(b: nat, x: nat)
    requires b > 0
    ensures x <= b * x
  {
  }

  /** *couplesij = val_ij */
  method Flush(mem: array<Word>, start: nat, code: nat, ghost L: seq<(nat, nat)>, out: nat, ghost n: nat, val: nat, ghost t: nat)
    requires start <= out < mem.Length && out == start + n / PerWord(code)
    requires IndicesTo(mem[..], start, code, L, n) && InHand(code, L, n, val, t)
    modifies mem
    ensures IndicesTo(mem[..], start, code, L, n + t) && mem[..start] == old(mem[..start])
  {
    ghost var s := mem[..];
    FitsWord(code, val, t);
    mem[out] := val;
    forall u: nat {:trigger IndexHeld(mem[..], start, code, L, u)} | u < n + t ensures IndexHeld(mem[..], start, code, L, u) {
      if u < n {
        assert IndexHeld(s, start, code, L, u);
        EarlierWord(code, u, n);
      } else {
        WordOfIndex(code, n, u - n);
        assert Field(val, code, u - n) == Flattened(L, u);
      }
    }
  }

  lemma EarlierWord(code: nat, u: nat, n: nat)
    requires u < n && n % PerWord(code) == 0
    ensures u / PerWord(code) < n / PerWord(code)
  {
    if code == 0 {
    } else if code == 1 {
    } else {
    }
  }

  lemma CoupleWordInRange(cnt: nat, code: nat, n: nat)
    requires n < 2 * cnt
    ensures n / PerWord(code) < CouplesSize(cnt, code)
  {
    if code == 0 {
    } else if code == 1 {
    } else {
    }
  }

  /** The couples after the constraints: indices are collected in val_ij, which is written out when it is
      full and after the last couple. */
  method WriteCouples(mem: array<Word>, start: nat, code: nat, L: seq<(nat, nat)>)
    requires |L| > 0 && forall k {:trigger L[k]} :: 0 <= k < |L| ==> L[k].0 < Base(code) && L[k].1 < Base(code)
    requires mem.Length == start + CouplesSize(|L|, code)
    modifies mem
    ensures CouplesAt(mem[..], start, code, |L|) == L && mem[..start] == old(mem[..start])
  {
    var out, val, t := start, 0, 0;
    ghost var n := 0;
    var k := 0;
    while true
      invariant k < |L| && 2 * k == n + t && t < PerWord(code) && out == start + n / PerWord(code)
      invariant IndicesTo(mem[..], start, code, L, n) && InHand(code, L, n, val, t)
      invariant mem[..start] == old(mem[..start])
      decreases |L| - k
    {
      EvenRoom(code, n, t, k);
      val := PutCouple(code, L, n, val, t, k);
      t := t + 2;
      CoupleWordInRange(|L|, code, n);
      k := k + 1;
      if k == |L| {
        Flush(mem, start, code, L, out, n, val, t);
        IndicesAreCouples(mem[..], start, code, L, |L|);
        return;
      }
      if t == PerWord(code) {
        Flush(mem, start, code, L, out, n, val, t);
        WordOfIndex(code, n, 0);
        n := n + t;
        out, val, t := out + 1, 0, 0;
      }
    }
  }

  lemma EvenRoom(code: nat, n: nat, t: nat, k: nat)
    requires n % PerWord(code) == 0 && n + t == 2 * k && t < PerWord(code)
    ensures t + 2 <= PerWord(code)
  {
    if code == 0 {
    } else if code == 1 {
    } else {
    }
  }

  /** Couple k goes into val_ij, first i and then j. */
  method PutCouple(code: nat, L: seq<(nat, nat)>, ghost n: nat, val0: nat, t: nat, k: nat) returns (val: nat)
    requires k < |L| && 2 * k == n + t && t + 2 <= PerWord(code) && L[k].0 < Base(code) && L[k].1 < Base(code)
    requires InHand(code, L, n, val0, t)
    ensures InHand(code, L, n, val, t + 2)
  {
    assert (n + t) / 2 == k && (n + t) % 2 == 0 && (n + t + 1) / 2 == k && (n + t + 1) % 2 == 1;
    PutIndexInHand(code, L, n, val0, t, L[k].0);
    val := PutIndex(val0, code, t, L[k].0);
    PutIndexInHand(code, L, n, val, t + 1, L[k].1);
    val := PutIndex(val, code, t + 1, L[k].1);
  }

  /** mingraph_writeMinCouplesij32 and mingraph_writeMinCouplesij16.  The source writes a couple right after
      its constraint; here all couples follow all constraints, in the same order. */
  method WriteMinCouplesij(mem: array<Word>, dbm: array2<Raw>, bits: seq<Word>, cnt: nat, ghost S: set<(nat, nat)>, h: Head, w: Word)
    requires IsSquare(dbm) && CodableMatrix(Mat(dbm), h.coded16) && h.codedIJ && dbm.Length0 <= Base(h.code)
    requires MarksPairs(bits, dbm.Length0, S) && PairsBelow(S, dbm.Length0) && cnt == |S| && 0 < cnt < 0x8000_0000
    requires mem.Length == 1 + Flag(h.many) + AreaSize(cnt, h.coded16) + CouplesSize(cnt, h.code)
    modifies mem
    ensures StartsWith(mem[..], w, h.many, cnt) && EncodesMinimal(mem[..], Mat(dbm), S, h)
  {
    assert dbm as object != mem as object;
    var start, L := WriteConstraints(mem, dbm, bits, cnt, S, h, w);
    ghost var before := mem[..];
    forall k {:trigger L[k]} | 0 <= k < |L| ensures L[k].0 < Base(h.code) && L[k].1 < Base(h.code) {
      ListedInRange(L, S, dbm.Length0, k);
    }
    WriteCouples(mem, start, h.code, L);
    ConstraintsKept(before, mem[..], start, Mat(dbm), S, h);
    ListOfIs(L, S);
  }
}
