/** The bit table of the minimal graph, recovered from a packed form (mingraph_addMissingConstraints and
    dbm_getBitMatrixFromMinDBM, src/mingraph_read.c): it is the one the analysis gives on the matrix itself,
    although constraints that only say that a clock is not negative were not saved. */
module Recovering {
  import opened Bounds
  import opened Zones
  import Closure
  import opened Closing
  import opened MinimalGraph
  import opened Words
  import opened Analysis
  import opened Restoring
  import opened Coding
  import opened Positions
  import opened Packed
  import Writing
  import opened Reading

  /** Only kept constraints are marked: those that were saved, and the kept lower bounds of the first t representatives. */
  ghost predicate AddedTo(m: Dbm, first: seq<nat>, S: set<(nat, nat)>, t: nat) {
    SavedBits(m) <= S <= KeptBits(m) &&
    forall u {:trigger first[u]} :: 0 < u < t && u < |first| && first[u] < |m| && Kept(m, 0, first[u]) ==> (0, first[u]) in S
  }

  lemma FirstIsZero(m: Dbm, first: seq<nat>)
    requires RepsBelow(m, first, |m|)
    ensures |first| > 0 && first[0] == 0
  {
    assert IsRep(m, 0);
    assert 0 in first;
    var t :| 0 <= t < |first| && first[t] == 0;
    assert forall u {:trigger first[u]} :: 0 < u < |first| ==> first[0] < first[u];
  }

  /** A lower bound of a representative is kept exactly when no third representative implies it. */
  lemma LowerBoundKept(m: Dbm, q: nat)
    requires 0 < q < |m| && IsRep(m, q)
    ensures Kept(m, 0, q) <==> KeptBetween(m, 0, q)
  {
    assert Tied(m, 0, q) <==> Tied(m, q, 0);
  }

  lemma AddOne(m: Dbm, first: seq<nat>, S: set<(nat, nat)>, t: nat)
    requires Valid(m) && AddedTo(m, first, S, t) && 0 < t < |first| && first[t] < |m| && IsRep(m, first[t]) && first[t] > 0
    ensures AddedTo(m, first, if KeptBetween(m, 0, first[t]) && m[0][first[t]] == LE_ZERO then S + {(0, first[t])} else S, t + 1)
  {
    var q := first[t];
    LowerBoundKept(m, q);
    assert Le(m[0][q], LE_ZERO);
    if Kept(m, 0, q) {
      assert (0, q) in KeptBits(m);
    }
  }

  /** One turn of the loop on the representatives. */
  method AddLowerBound(dbm: array2<Raw>, first: seq<nat>, t: nat, bits: array<Word>, nb: nat, ghost S: set<(nat, nat)>)
    returns (nb': nat, ghost S': set<(nat, nat)>)
    requires IsSquare(dbm) && Valid(Mat(dbm)) && RepsBelow(Mat(dbm), first, dbm.Length0) && 0 < t < |first|
    requires MarksPairs(bits[..], dbm.Length0, S) && nb == |S| && AddedTo(Mat(dbm), first, S, t)
    modifies bits
    ensures MarksPairs(bits[..], dbm.Length0, S') && nb' == |S'| && AddedTo(Mat(dbm), first, S', t + 1)
  {
    ghost var m := Mat(dbm);
    assert dbm as object != bits as object;
    var q, n := first[t], dbm.Length0;
    FirstIsZero(m, first);
    assert first[0] < q;
    AddOne(m, first, S, t);
    nb', S' := nb, S;
    FlatInRange(n, 0, q);
    assert Marked(bits[..], n, 0, q) <==> (0, q) in S;
    assert m[0][q] == dbm[0, q] && IsRep(m, 0);
    if dbm[0, q] == LE_ZERO && !Bit(bits[Flat(n, 0, q) / 32], Flat(n, 0, q) % 32) {
      var redundant := HasDetour(dbm, first, 0, q);
      if !redundant {
        nb' := Mark(bits, n, 0, q, nb, S);
        S' := S + {(0, q)};
      }
    } else if dbm[0, q] == LE_ZERO {
      assert S + {(0, q)} == S;
    }
  }

  lemma AllAdded(m: Dbm, first: seq<nat>, S: set<(nat, nat)>)
    requires Valid(m) && RepsBelow(m, first, |m|) && AddedTo(m, first, S, |first|)
    requires forall j: nat :: j < |m| && IsNext(m, 0, j) ==> (0, j) in S
    ensures S == KeptBits(m)
  {
    forall i: nat, j: nat {:trigger (i, j) in KeptBits(m)} | (i, j) in KeptBits(m) ensures (i, j) in S {
      if (i, j) !in SavedBits(m) && !IsNext(m, 0, j) {
        KeptIsOffDiagonal(m, i, j);
        assert KeptBetween(m, 0, j);
        assert j in first;
        FirstIsZero(m, first);
      }
    }
    forall e | e in KeptBits(m) ensures e in S {
      assert (e.0, e.1) in KeptBits(m);
    }
  }

  /** mingraph_addMissingConstraints */
  method AddMissingConstraints(dbm: array2<Raw>, bits: array<Word>, nb0: nat) returns (nb: nat)
    requires IsSquare(dbm) && Valid(Mat(dbm)) && dbm.Length0 <= NONE
    requires MarksPairs(bits[..], dbm.Length0, SavedBits(Mat(dbm))) && nb0 == |SavedBits(Mat(dbm))|
    modifies bits
    ensures MarksPairs(bits[..], dbm.Length0, KeptBits(Mat(dbm))) && nb == |KeptBits(Mat(dbm))|
  {
    ghost var m := Mat(dbm);
    var n := dbm.Length0;
    assert dbm as object != bits as object;
    var first, next := new nat[n](_ => 0), new nat[n](_ => 0);
    assert dbm as object != first && dbm as object != next && bits as object != first && bits as object != next;
    var end := FindClasses(dbm, first, next);
    var reps := first[..end];
    ghost var S := SavedBits(m);
    nb := nb0;
    var t := 1;
    FirstIsZero(m, reps);
    while t < end
      invariant 1 <= t <= end && reps == first[..end] && Mat(dbm) == m && NextsBelow(m, next[..], n)
      invariant MarksPairs(bits[..], n, S) && nb == |S| && AddedTo(m, reps, S, t)
    {
      nb, S := AddLowerBound(dbm, reps, t, bits, nb, S);
      t := t + 1;
    }
    nb, S := AddCycleStart(m, n, next[0], bits, nb, S, reps, next[..]);
    AllAdded(m, reps, S);
  }

  /** if (~next[0]): the constraint from the reference to the next clock of its class */
  method AddCycleStart(ghost m: Dbm, n: nat, next0: nat, bits: array<Word>, nb: nat, ghost S: set<(nat, nat)>, ghost reps: seq<nat>, ghost nx: seq<nat>)
    returns (nb': nat, ghost S': set<(nat, nat)>)
    requires Valid(m) && n == |m| && NextsBelow(m, nx, n) && next0 == nx[0]
    requires MarksPairs(bits[..], n, S) && nb == |S| && AddedTo(m, reps, S, |reps|)
    modifies bits
    ensures MarksPairs(bits[..], n, S') && nb' == |S'| && AddedTo(m, reps, S', |reps|)
    ensures forall j: nat :: j < n && IsNext(m, 0, j) ==> (0, j) in S'
  {
    NextOfZero(m, nx);
    nb', S' := nb, S;
    if next0 != NONE {
      nb' := Mark(bits, n, 0, next0, nb, S);
      S' := S + {(0, next0)};
      assert Kept(m, 0, next0);
      assert (0, next0) in KeptBits(m);
    }
  }

  lemma NextOfZero(m: Dbm, nx: seq<nat>)
    requires Valid(m) && NextsBelow(m, nx, |m|)
    ensures if nx[0] == NONE then (forall j: nat :: j < |m| ==> !IsNext(m, 0, j))
            else nx[0] < |m| && IsNext(m, 0, nx[0]) && forall j: nat :: j < |m| && IsNext(m, 0, j) ==> j == nx[0]
  {
    TiedReflexive(m, 0);
    assert Visited(m, 0, |m|);
    assert NextCorrect(m, 0, nx[0]);
  }

  // ----- From the packed forms -----

  /** The matrix while the first k listed constraints are written: the unpacked one throughout, or what they give. */
  ghost predicate WrittenTo(m: Dbm, L: seq<(nat, nat)>, k: nat, isUnpacked: bool, d: Dbm) {
    k <= |L| && if isUnpacked then d == m else IsRestored(m, Listed(L, k), d)
  }

  /** Write one constraint over the matrix; it is there already when the matrix is the unpacked one. */
  method WriteOne(dbm: array2<Raw>, s: seq<Word>, c0: nat, coded16: bool, L: seq<(nat, nat)>, k: nat, isUnpacked: bool, ghost m: Dbm, ghost S: set<(nat, nat)>)
    requires IsSquare(dbm) && dbm.Length0 == |m| && HoldsConstraints(s, c0, m, S, coded16) && IsListing(L, S)
    requires k < |L| && L[k].0 < |m| && L[k].1 < |m| && WrittenTo(m, L, k, isUnpacked, Mat(dbm))
    modifies dbm
    ensures WrittenTo(m, L, k + 1, isUnpacked, Mat(dbm))
  {
    var (i, j) := L[k];
    ListedAt(L, S, i, j);
    assert HoldsConstraint(s, c0, m, S, coded16, i, j);
    ghost var before := Mat(dbm);
    dbm[i, j] := Stored(s, c0, k, coded16);
    if isUnpacked {
      Closure.SameEntries(Mat(dbm), m);
    } else {
      RestoreOne(m, Listed(L, k), before, Mat(dbm), i, j);
      ListedOneMore(L, k);
    }
  }

  /** The loop of mingraph_bitMatrixFromCouplesij32 and ...16: write the constraints and set their bits. */
  method WriteAndMark(dbm: array2<Raw>, s: seq<Word>, c0: nat, coded16: bool, L: seq<(nat, nat)>, isUnpacked: bool, ghost m: Dbm, ghost S: set<(nat, nat)>)
    returns (bits: array<Word>)
    requires IsSquare(dbm) && dbm.Length0 == |m| && (if isUnpacked then Mat(dbm) == m else IsInit(Mat(dbm)))
    requires HoldsConstraints(s, c0, m, S, coded16) && IsListing(L, S)
    modifies dbm
    ensures fresh(bits) && MarksPairs(bits[..], |m|, S) && WrittenTo(m, L, |L|, isUnpacked, Mat(dbm))
  {
    var n := dbm.Length0;
    bits := new Word[WordsFor(Cells(n))](_ => 0);
    assert dbm as object != bits as object;
    NothingMarked(bits[..], n);
    NothingWritten(m, L, isUnpacked, Mat(dbm));
    var k, cnt := 0, 0;
    while k < |L|
      invariant 0 <= k <= |L| && MarksPairs(bits[..], n, Listed(L, k)) && cnt == |Listed(L, k)|
      invariant WrittenTo(m, L, k, isUnpacked, Mat(dbm))
    {
      Writing.ListedInRange(L, S, n, k);
      ListedOneMore(L, k);
      WriteOne(dbm, s, c0, coded16, L, k, isUnpacked, m, S);
      cnt := Mark(bits, n, L[k].0, L[k].1, cnt, Listed(L, k));
      assert (L[k].0, L[k].1) == L[k];
      k := k + 1;
    }
    AllListed(L, S);
  }

  lemma NothingWritten(m: Dbm, L: seq<(nat, nat)>, isUnpacked: bool, d: Dbm)
    requires |d| == |m| && if isUnpacked then d == m else IsInit(d)
    ensures Listed(L, 0) == {} && WrittenTo(m, L, 0, isUnpacked, d)
  {
    if !isUnpacked {
      InitIsRestored(m, d, L);
    }
  }

  /** Closing what was saved over all clocks gives the matrix back, as closing over the touched clocks does. */
  method CloseRestored(dbm: array2<Raw>, ghost m: Dbm)
    requires IsSquare(dbm) && Valid(m) && IsRestored(m, SavedBits(m), Mat(dbm))
    modifies dbm
    ensures Mat(dbm) == m
  {
    ghost var k := Mat(dbm);
    RestoredDiagonal(m, k);
    RestoredHasPoint(m, k);
    var ok := Close(dbm);
    RestoredSameZone(m, k);
    Closure.CanonicalUnique(m, Mat(dbm));
  }

  lemma RestoredDiagonal(m: Dbm, k: Dbm)
    requires Valid(m) && IsRestored(m, SavedBits(m), k)
    ensures ZeroDiagonal(k)
  {
    forall i {:trigger k[i][i]} | 0 <= i < |k| ensures k[i][i] == LE_ZERO {
      if (i, i) in KeptBits(m) {
        KeptIsOffDiagonal(m, i, i);
      }
    }
  }

  lemma RestoredSameZone(m: Dbm, k: Dbm)
    requires Valid(m) && IsRestored(m, SavedBits(m), k)
    ensures SameZone(k, m)
  {
    forall v: Valuation ensures InZone(v, k) <==> InZone(v, m) {
      RestoredMeets(m, k, v);
    }
  }

  /** With nothing saved the matrix is that of dbm_init, and its lower bounds are the minimal graph. */
  lemma NothingSavedKept(m: Dbm, i: nat, j: nat)
    requires Valid(m) && |SavedBits(m)| == 0
    ensures (i, j) in KeptBits(m) <==> i == 0 && 0 < j < |m|
  {
    assert SavedBits(m) == {};
    var k := Closure.Build(|m|, (x, y) requires 0 <= x < |m| && 0 <= y < |m| => InitEntry(x, y));
    assert IsInit(k);
    InitRestores(m, k);
    if (i, j) in KeptBits(m) {
      KeptIsOffDiagonal(m, i, j);
      assert (i, j) !in SavedBits(m);
    }
    if i == 0 && 0 < j < |m| {
      forall x: nat | x < |m| && x != j ensures !Tied(m, x, j) {
        assert m[j][x] == InitEntry(j, x) && m[x][j] == InitEntry(x, j);
      }
      assert IsRep(m, 0) && IsRep(m, j);
      forall r: nat | r < |m| && r != 0 && r != j ensures !Implied(m, 0, r, j) {
        assert m[r][j] == InitEntry(r, j);
      }
      assert KeptBetween(m, 0, j);
    }
  }

  /** The lower bounds of the clocks below i. */
  ghost predicate LowerPairs(S: set<(nat, nat)>, i: nat) {
    forall x: nat, y: nat {:trigger (x, y) in S} :: (x, y) in S <==> x == 0 && 0 < y < i
  }

  lemma OneMoreLower(S: set<(nat, nat)>, i: nat)
    requires LowerPairs(S, i) && i > 0
    ensures LowerPairs(S + {(0, i)}, i + 1)
  {
  }

  lemma AllLower(m: Dbm, S: set<(nat, nat)>)
    requires Valid(m) && |SavedBits(m)| == 0 && LowerPairs(S, |m|)
    ensures S == KeptBits(m)
  {
    forall e: (nat, nat) ensures e in S <==> e in KeptBits(m) {
      NothingSavedKept(m, e.0, e.1);
      assert e == (e.0, e.1);
    }
  }

  /** All bits (0, i) for i > 0 */
  method MarkLowerBounds(n: nat, ghost m: Dbm) returns (bits: array<Word>, nb: nat)
    requires Valid(m) && n == |m| && |SavedBits(m)| == 0
    ensures fresh(bits) && MarksPairs(bits[..], n, KeptBits(m)) && nb == |KeptBits(m)|
  {
    bits := new Word[WordsFor(Cells(n))](_ => 0);
    NothingMarked(bits[..], n);
    ghost var S: set<(nat, nat)> := {};
    nb := 0;
    var i := 1;
    while i < n
      invariant 1 <= i <= n && MarksPairs(bits[..], n, S) && nb == |S| && LowerPairs(S, i)
    {
      OneMoreLower(S, i);
      nb := Mark(bits, n, 0, i, nb, S);
      S := S + {(0, i)};
      i := i + 1;
    }
    AllLower(m, S);
  }

  /** dbm_getBitMatrixFromMinDBM.  The buffer holds the unpacked matrix when it returns; with isUnpacked it did so
      from the start. */
  method BitMatrixFromMinDBM(s: seq<Word>, isUnpacked: bool, buffer: array2<Raw>, ghost m: Dbm) returns (bits: array<Word>, nb: nat)
    requires Encodes(s, m) && Valid(m) && IsSquare(buffer) && buffer.Length0 == |m| <= NONE && (isUnpacked ==> Mat(buffer) == m)
    requires |SavedBits(m)| < 0x8000_0000 && (ReadHead(s[0]).minimal ==> CountIsRead(|SavedBits(m)|))
    modifies buffer
    ensures Mat(buffer) == m && MarksPairs(bits[..], |m|, KeptBits(m)) && nb == |KeptBits(m)|
  {
    var h := ReadHead(s[0]);
    if h.minimal {
      CountReadBack(s, |SavedBits(m)|);
      if h.codedIJ {
        bits, nb := BitMatrixFromCouples(s, h, NbConstraints(s), isUnpacked, buffer, m);
      } else {
        bits, nb := BitMatrixFromTable(s, h, NbConstraints(s), isUnpacked, buffer, m);
      }
    } else {
      if !isUnpacked {
        ReadFromMinDBM(buffer, s, m);
      }
      bits := new Word[WordsFor(Cells(buffer.Length0))];
      assert buffer as object != bits as object;
      nb := AnalyzeForMinDBM(buffer, bits);
    }
  }

  /** mingraph_bitMatrixFromBitMatrix32 and ...16 */
  method BitMatrixFromTable(s: seq<Word>, h: Head, cnt: nat, isUnpacked: bool, buffer: array2<Raw>, ghost m: Dbm) returns (bits: array<Word>, nb: nat)
    requires IsSquare(buffer) && buffer.Length0 == |m| == h.dim <= NONE && Valid(m) && (isUnpacked ==> Mat(buffer) == m)
    requires EncodesMinimal(s, m, SavedBits(m), h) && |s| == PackedSize(h, cnt) && h.minimal && !h.codedIJ && cnt == |SavedBits(m)| > 0
    modifies buffer
    ensures fresh(bits) && Mat(buffer) == m && MarksPairs(bits[..], |m|, KeptBits(m)) && nb == |KeptBits(m)|
  {
    var start := 1 + Flag(h.many) + AreaSize(cnt, h.coded16);
    SelectionFits(s, m, SavedBits(m), h, start);
    bits := CopyOfTable(s, start, h, |m|, SavedBits(m));
    assert buffer as object != bits as object;
    if !isUnpacked {
      ReadMinimal(buffer, s, h, cnt, m);
    }
    nb := AddMissingConstraints(buffer, bits, cnt);
  }

  /** memcpy(matrix, minMatrix, ...) */
  method CopyOfTable(s: seq<Word>, start: nat, h: Head, ghost n: nat, ghost S: set<(nat, nat)>) returns (bits: array<Word>)
    requires HoldsSelection(s, start, n, S, h) && !h.codedIJ
    ensures fresh(bits) && MarksPairs(bits[..], n, S)
  {
    bits := CopyOfWords(s[start..]);
  }

  method CopyOfWords(s: seq<Word>) returns (a: array<Word>)
    ensures fresh(a) && a[..] == s
  {
    a := new Word[|s|](w requires 0 <= w < |s| => s[w]);
    assert a[..] == s;
  }

  /** mingraph_bitMatrixFromCouplesij32 and ...16 */
  method BitMatrixFromCouples(s: seq<Word>, h: Head, cnt: nat, isUnpacked: bool, buffer: array2<Raw>, ghost m: Dbm) returns (bits: array<Word>, nb: nat)
    requires IsSquare(buffer) && buffer.Length0 == |m| == h.dim <= NONE && Valid(m) && (isUnpacked ==> Mat(buffer) == m)
    requires EncodesMinimal(s, m, SavedBits(m), h) && |s| == PackedSize(h, cnt) && h.minimal && h.codedIJ && cnt == |SavedBits(m)|
    modifies buffer
    ensures fresh(bits) && Mat(buffer) == m && MarksPairs(bits[..], |m|, KeptBits(m)) && nb == |KeptBits(m)|
  {
    if !isUnpacked {
      Init(buffer);
    }
    if cnt == 0 {
      bits, nb := MarkLowerBounds(h.dim, m);
      if !isUnpacked {
        InitRestores(m, Mat(buffer));
      }
      return;
    }
    var L := ReadList(s, h, cnt, m);
    bits, nb := BitMatrixFromListed(s, h, cnt, L, isUnpacked, buffer, m);
  }

  method BitMatrixFromListed(s: seq<Word>, h: Head, cnt: nat, L: seq<(nat, nat)>, isUnpacked: bool, buffer: array2<Raw>, ghost m: Dbm)
    returns (bits: array<Word>, nb: nat)
    requires IsSquare(buffer) && buffer.Length0 == |m| <= NONE && Valid(m) && (if isUnpacked then Mat(buffer) == m else IsInit(Mat(buffer)))
    requires HoldsConstraints(s, 1 + Flag(h.many), m, SavedBits(m), h.coded16) && IsListing(L, SavedBits(m)) && cnt == |SavedBits(m)|
    modifies buffer
    ensures fresh(bits) && Mat(buffer) == m && MarksPairs(bits[..], |m|, KeptBits(m)) && nb == |KeptBits(m)|
  {
    bits := WriteAndMark(buffer, s, 1 + Flag(h.many), h.coded16, L, isUnpacked, m, SavedBits(m));
    AllListed(L, SavedBits(m));
    if !isUnpacked {
      CloseRestored(buffer, m);
    }
    assert buffer as object != bits as object;
    nb := AddMissingConstraints(buffer, bits, cnt);
  }
}
