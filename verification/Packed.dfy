/** What the packed forms of src/mingraph_coding.h hold, and that a packed form determines its matrix. */
module Packed {
  import opened Bounds
  import opened Zones
  import opened Closure
  import opened MinimalGraph
  import opened Words
  import opened Analysis
  import opened Restoring
  import opened Coding
  import opened Positions

  ghost predicate CodableMatrix(m: Dbm, coded16: bool) {
    forall i, j {:trigger m[i][j]} :: 0 <= i < |m| && 0 <= j < |m| ==> Codable(m[i][j], coded16)
  }

  /** Words from c0 on hold the constraints of m selected by S, in row order. */
  ghost predicate HoldsConstraints(s: seq<Word>, c0: nat, m: Dbm, S: set<(nat, nat)>, coded16: bool) {
    PairsBelow(S, |m|) && forall i: nat, j: nat {:trigger (i, j) in S} :: (i, j) in S ==>
      HoldsConstraint(s, c0, m, S, coded16, i, j)
  }

  ghost predicate HoldsConstraint(s: seq<Word>, c0: nat, m: Dbm, S: set<(nat, nat)>, coded16: bool, i: nat, j: nat) {
    i < |m| && j < |m| &&
    var k := Index(S, i, j);
    Slot(c0, k, coded16) < |s| && Stored(s, c0, k, coded16) == m[i][j]
  }

  /** The t-th index of the area that starts at word start. */
  function IndexAt(s: seq<Word>, start: nat, code: nat, t: nat): nat {
    if start + t / PerWord(code) < |s| then Field(s[start + t / PerWord(code)], code, t % PerWord(code)) else 0
  }

  /** The first n couples (i, j) packed in the words from start on. */
  function CouplesAt(s: seq<Word>, start: nat, code: nat, n: nat): (L: seq<(nat, nat)>)
    ensures |L| == n
  {
    if n == 0 then []
    else CouplesAt(s, start, code, n - 1) + [(IndexAt(s, start, code, 2 * n - 2), IndexAt(s, start, code, 2 * n - 1))]
  }

  /** bits2intsize(cnt << (code + 3)) */
  function CouplesSize(cnt: nat, code: nat): nat {
    WordsFor(if code == 0 then 8 * cnt else if code == 1 then 16 * cnt else 32 * cnt)
  }

  /** k words have room for cnt constraints, or for cnt couples of indices, exactly when the computed sizes are at most k. */
  lemma NoWordToSpare(cnt: nat, coded16: bool, code: nat, k: nat)
    requires code < 3
    ensures cnt * (if coded16 then 16 else 32) <= 32 * k <==> AreaSize(cnt, coded16) <= k
    ensures 2 * cnt * (if code == 0 then 4 else if code == 1 then 8 else 16) <= 32 * k <==> CouplesSize(cnt, code) <= k
  {
    var bits := 2 * (if code == 0 then 4 else if code == 1 then 8 else 16);
    assert CouplesSize(cnt, code) == WordsFor(bits * cnt);
  }

  /** dbm_getSizeOfMinDBM, once the header and the number cnt of saved constraints are known. */
  function PackedSize(h: Head, cnt: nat): nat {
    if h.minimal then
      1 + Flag(h.many) + AreaSize(cnt, h.coded16) + (if h.codedIJ then CouplesSize(cnt, h.code) else WordsFor(Cells(h.dim)))
    else if h.dim == 0 then 1
    else 1 + AreaSize(h.dim * (h.dim - 1), h.coded16)
  }

  /** Which constraints are saved: couples in row order, or a bit table. */
  ghost predicate HoldsSelection(s: seq<Word>, start: nat, n: nat, S: set<(nat, nat)>, h: Head) {
    if h.codedIJ then CouplesAt(s, start, h.code, |S|) == ListOf(S) else start <= |s| && MarksPairs(s[start..], n, S)
  }

  /** The words after the header, for the selection S of constraints. */
  ghost predicate EncodesMinimal(s: seq<Word>, m: Dbm, S: set<(nat, nat)>, h: Head) {
    HoldsConstraints(s, 1 + Flag(h.many), m, S, h.coded16) &&
    HoldsSelection(s, 1 + Flag(h.many) + AreaSize(|S|, h.coded16), |m|, S, h)
  }

  ghost predicate EncodesWith(s: seq<Word>, m: Dbm, h: Head) {
    if h.minimal then EncodesMinimal(s, m, SavedBits(m), h) else HoldsConstraints(s, 1, m, OffDiagonal(|m|), h.coded16)
  }

  /** The combinations of header fields that occur. */
  ghost predicate HeadFits(h: Head, n: nat, cnt: nat) {
    h.dim == n && h.code < 3 && (h.minimal ==> h.many == (cnt > 0x3ff)) &&
    (!h.minimal ==> !h.codedIJ && !h.many) && (h.minimal && !h.codedIJ ==> cnt > 0)
  }

  /** s is a packed form of m. */
  ghost predicate Encodes(s: seq<Word>, m: Dbm) {
    |s| >= 1 &&
    var h, cnt := ReadHead(s[0]), |SavedBits(m)|;
    HeadFits(h, |m|, cnt) && (h.minimal ==> CountRecorded(s, cnt, h.many)) && EncodesWith(s, m, h) && |s| == PackedSize(h, cnt)
  }

  lemma SavedPairsBelow(m: Dbm)
    ensures PairsBelow(SavedBits(m), |m|)
  {
    forall i: nat, j: nat {:trigger (i, j) in SavedBits(m)} | (i, j) in SavedBits(m) ensures i < |m| && j < |m| && i != j {
      KeptIsOffDiagonal(m, i, j);
    }
  }

  // ----- A packed form determines its matrix -----

  lemma ConstraintsDetermineEntries(s: seq<Word>, c0: nat, m: Dbm, m': Dbm, S: set<(nat, nat)>, coded16: bool, i: nat, j: nat)
    requires HoldsConstraints(s, c0, m, S, coded16) && HoldsConstraints(s, c0, m', S, coded16) && (i, j) in S
    ensures i < |m| && j < |m| && i < |m'| && j < |m'| && m[i][j] == m'[i][j]
  {
    assert HoldsConstraint(s, c0, m, S, coded16, i, j) && HoldsConstraint(s, c0, m', S, coded16, i, j);
  }

  /** No two valid matrices have a packed form in common, whichever of the encodings it uses. */
  lemma PackedFormDeterminesMatrix(s: seq<Word>, m: Dbm, m': Dbm)
    requires Valid(m) && Valid(m') && Encodes(s, m) && Encodes(s, m')
    ensures m == m'
  {
    var h := ReadHead(s[0]);
    if h.minimal {
      MinimalDetermines(s, m, m', h);
    } else {
      CopyDetermines(s, m, m', h.coded16);
    }
  }

  lemma CopyDetermines(s: seq<Word>, m: Dbm, m': Dbm, coded16: bool)
    requires ZeroDiagonal(m) && ZeroDiagonal(m') && |m| == |m'|
    requires HoldsConstraints(s, 1, m, OffDiagonal(|m|), coded16) && HoldsConstraints(s, 1, m', OffDiagonal(|m|), coded16)
    ensures m == m'
  {
    forall i, j {:trigger m[i][j]} | 0 <= i < |m| && 0 <= j < |m| ensures m[i][j] == m'[i][j] {
      if i != j {
        assert (i as nat, j as nat) in OffDiagonal(|m|);
        ConstraintsDetermineEntries(s, 1, m, m', OffDiagonal(|m|), coded16, i, j);
      }
    }
    SameEntries(m, m');
  }

  lemma MinimalDetermines(s: seq<Word>, m: Dbm, m': Dbm, h: Head)
    requires Valid(m) && Valid(m') && |m| == |m'| && |SavedBits(m)| == |SavedBits(m')|
    requires EncodesMinimal(s, m, SavedBits(m), h) && EncodesMinimal(s, m', SavedBits(m'), h)
    ensures m == m'
  {
    SameSelection(s, 1 + Flag(h.many) + AreaSize(|SavedBits(m)|, h.coded16), |m|, SavedBits(m), SavedBits(m'), h);
    SavedDetermines(s, m, m', h);
  }

  lemma SameSelection(s: seq<Word>, start: nat, n: nat, S: set<(nat, nat)>, S': set<(nat, nat)>, h: Head)
    requires |S| == |S'| && PairsBelow(S, n) && PairsBelow(S', n)
    requires HoldsSelection(s, start, n, S, h) && HoldsSelection(s, start, n, S', h)
    ensures S == S'
  {
    if h.codedIJ {
      ListOfInjective(S, S', n);
    }
  }

  lemma SavedDetermines(s: seq<Word>, m: Dbm, m': Dbm, h: Head)
    requires Valid(m) && Valid(m') && |m| == |m'|
    requires HoldsConstraints(s, 1 + Flag(h.many), m, SavedBits(m), h.coded16) && SavedBits(m) == SavedBits(m')
    requires HoldsConstraints(s, 1 + Flag(h.many), m', SavedBits(m'), h.coded16)
    ensures m == m'
  {
    forall v: Valuation ensures InZone(v, m) <==> InZone(v, m') {
      SavedDetermineZone(s, 1 + Flag(h.many), m, m', h.coded16, v);
    }
    CanonicalUnique(m, m');
  }

  /** A valuation meets m exactly when it meets the saved constraints and no clock is negative. */
  ghost predicate MeetsSaved(v: Valuation, m: Dbm) {
    |v| == |m| &&
    (forall i: nat, j: nat {:trigger (i, j) in SavedBits(m)} :: (i, j) in SavedBits(m) && i < |m| && j < |m| ==>
      Sat(v[i] - v[j], m[i][j])) &&
    forall j :: 0 <= j < |m| ==> v[0] <= v[j]
  }

  lemma SavedSuffice(m: Dbm, v: Valuation)
    requires Valid(m)
    ensures MeetsSaved(v, m) <==> Meets(v, m)
  {
    if MeetsSaved(v, m) {
      forall i: nat, j: nat {:trigger Kept(m, i, j)} | i < |m| && j < |m| && Kept(m, i, j) ensures Sat(v[i] - v[j], m[i][j]) {
        assert (i, j) in KeptBits(m);
        if (i, j) !in SavedBits(m) {
          SatLe(v[0] - v[j], LE_ZERO, m[0][j]);
        }
      }
      KeptSuffice(m, v);
    }
    if Meets(v, m) {
      forall j | 0 <= j < |m| ensures v[0] <= v[j] {
        MeetsAt(v, m, 0, j);
        SatLe(v[0] - v[j], m[0][j], LE_ZERO);
      }
    }
  }

  lemma SavedDetermineZone(s: seq<Word>, c0: nat, m: Dbm, m': Dbm, coded16: bool, v: Valuation)
    requires Valid(m) && Valid(m') && |m| == |m'| && SavedBits(m) == SavedBits(m')
    requires HoldsConstraints(s, c0, m, SavedBits(m), coded16) && HoldsConstraints(s, c0, m', SavedBits(m'), coded16)
    ensures Meets(v, m) <==> Meets(v, m')
  {
    SavedSuffice(m, v);
    SavedSuffice(m', v);
    forall i: nat, j: nat {:trigger (i, j) in SavedBits(m)} | (i, j) in SavedBits(m)
      ensures i < |m| && j < |m| && m[i][j] == m'[i][j]
    {
      ConstraintsDetermineEntries(s, c0, m, m', SavedBits(m), coded16, i, j);
    }
  }
}
