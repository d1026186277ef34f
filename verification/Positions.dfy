/** The order in which constraints are saved: row by row, and scanning a bit table in that order
    (the loops with FIX_IJ of src/mingraph_write.c, src/mingraph_read.c and src/mingraph.c). */
module Positions {
  import opened Zones
  import opened Words
  import opened Analysis

  /** Pairs of distinct clocks below n. */
  ghost predicate PairsBelow(S: set<(nat, nat)>, n: nat) {
    forall i: nat, j: nat {:trigger (i, j) in S} :: (i, j) in S ==> i < n && j < n && i != j
  }

  ghost function Earlier(S: set<(nat, nat)>, i: nat, j: nat): set<(nat, nat)> {
    set e | e in S && Before(e.0, e.1, i, j)
  }

  /** How many pairs of S come before (i, j). */
  ghost function Index(S: set<(nat, nat)>, i: nat, j: nat): nat {
    |Earlier(S, i, j)|
  }

  lemma NothingEarlier(S: set<(nat, nat)>)
    ensures Index(S, 0, 0) == 0
  {
    assert Earlier(S, 0, 0) == {};
  }

  lemma AllEarlier(S: set<(nat, nat)>, n: nat)
    requires PairsBelow(S, n)
    ensures Index(S, n, 0) == |S|
  {
    assert Earlier(S, n, 0) == S by {
      forall e | e in S ensures e in Earlier(S, n, 0) {
        assert (e.0, e.1) in S;
      }
    }
  }

  lemma IndexOfNext(S: set<(nat, nat)>, i: nat, j: nat)
    ensures Index(S, i, j + 1) == Index(S, i, j) + (if (i, j) in S then 1 else 0)
  {
    var before, after := Earlier(S, i, j), Earlier(S, i, j + 1);
    forall e: (nat, nat) ensures e in after <==> e in before || (e == (i, j) && e in S) {
    }
    if (i, j) in S {
      assert after == before + {(i, j)};
    } else {
      assert after == before;
    }
  }

  lemma IndexOfNextRow(S: set<(nat, nat)>, n: nat, i: nat)
    requires PairsBelow(S, n)
    ensures Index(S, i + 1, 0) == Index(S, i, n)
  {
    forall e | e in S ensures Before(e.0, e.1, i + 1, 0) <==> Before(e.0, e.1, i, n) {
      assert (e.0, e.1) in S;
    }
    assert Earlier(S, i + 1, 0) == Earlier(S, i, n);
  }

  lemma IndexBelow(S: set<(nat, nat)>, i: nat, j: nat)
    requires (i, j) in S
    ensures Index(S, i, j) < |S|
  {
    var before := Earlier(S, i, j);
    assert before <= S - {(i, j)};
    SubsetSize(before, S - {(i, j)});
  }

  lemma SubsetSize<T>(a: set<T>, b: set<T>)
    requires a <= b
    ensures |a| <= |b|
  {
    assert b == a + (b - a);
  }

  /** Different pairs have different indices, in row order. */
  lemma IndexOrder(S: set<(nat, nat)>, i: nat, j: nat, x: nat, y: nat)
    requires (i, j) in S && Before(i, j, x, y)
    ensures Index(S, i, j) < Index(S, x, y)
  {
    var e := (i, j);
    assert Earlier(S, i, j) + {e} <= Earlier(S, x, y);
    assert e !in Earlier(S, i, j);
    SubsetSize(Earlier(S, i, j) + {e}, Earlier(S, x, y));
  }

  lemma IndexInjective(S: set<(nat, nat)>, i: nat, j: nat, x: nat, y: nat)
    requires (i, j) in S && (x, y) in S && Index(S, i, j) == Index(S, x, y)
    ensures i == x && j == y
  {
    if Before(i, j, x, y) {
      IndexOrder(S, i, j, x, y);
    } else if Before(x, y, i, j) {
      IndexOrder(S, x, y, i, j);
    }
  }

  /** While pairs remain to be counted, one of them is not before (i, j). */
  lemma SomePairLeft(S: set<(nat, nat)>, i: nat, j: nat) returns (x: nat, y: nat)
    requires Index(S, i, j) < |S|
    ensures (x, y) in S && !Before(x, y, i, j)
  {
    if S <= Earlier(S, i, j) {
      SubsetSize(S, Earlier(S, i, j));
    }
    var e :| e in S && e !in Earlier(S, i, j);
    x, y := e.0, e.1;
    assert e == (x, y);
  }

  // ----- Scanning a bit table -----

  /** The loop variables of a scan: the next word to load, what is left of the current one and how many
      bits that is, and the coordinates, with j not yet brought below n. */
  datatype Cursor = Cursor(word: nat, b: nat, count: nat, i: nat, j: nat)

  ghost function Position(c: Cursor): int {
    32 * c.word - c.count
  }

  ghost predicate CursorOK(bits: seq<Word>, n: nat, c: Cursor) {
    c.word <= |bits| && c.count <= 32 && c.count <= 32 * c.word &&
    Flat(n, c.i, c.j) == Position(c) &&
    forall t: nat {:trigger Bit(c.b, t)} :: Bit(c.b, t) <==> t < c.count && BitAt(bits, (Position(c) + t) as nat)
  }

  lemma {:induction false} SomeBit(b: nat)
    requires b > 0
    ensures exists t: nat :: Bit(b, t)
  {
    if b % 2 == 1 {
      assert Bit(b, 0);
    } else {
      SomeBit(b / 2);
      var t: nat :| Bit(b / 2, t);
      assert Bit(b, t + 1);
    }
  }

  /** ++j, --count, b >>= 1 */
  function Advance(c: Cursor): Cursor
    requires c.count > 0
  {
    Cursor(c.word, c.b / 2, c.count - 1, c.i, c.j + 1)
  }

  lemma AdvanceOK(bits: seq<Word>, n: nat, c: Cursor)
    requires CursorOK(bits, n, c) && c.count > 0
    ensures CursorOK(bits, n, Advance(c)) && Position(Advance(c)) == Position(c) + 1
  {
    var c' := Advance(c);
    forall t: nat {:trigger Bit(c'.b, t)}
      ensures Bit(c'.b, t) <==> t < c'.count && BitAt(bits, (Position(c') + t) as nat)
    {
      assert Bit(c.b, t + 1) <==> Bit(c'.b, t);
    }
  }

  /** j += count, then load the next word. */
  lemma LoadOK(bits: seq<Word>, n: nat, c: Cursor)
    requires CursorOK(bits, n, c) && c.b == 0 && c.word < |bits|
    ensures CursorOK(bits, n, Cursor(c.word + 1, bits[c.word], 32, c.i, c.j + c.count))
    ensures Position(c) <= 32 * c.word
    ensures forall f: nat :: Position(c) <= f < 32 * c.word ==> !BitAt(bits, f)
  {
    forall f: nat | Position(c) <= f < 32 * c.word ensures !BitAt(bits, f) {
      EmptyWord(bits, n, c, f);
    }
    LoadedOK(bits, n, c, Cursor(c.word + 1, bits[c.word], 32, c.i, c.j + c.count));
  }

  lemma LoadedOK(bits: seq<Word>, n: nat, c: Cursor, c': Cursor)
    requires c.word < |bits| && c.count <= 32 && Flat(n, c.i, c.j) == Position(c)
    requires c' == Cursor(c.word + 1, bits[c.word], 32, c.i, c.j + c.count)
    ensures CursorOK(bits, n, c')
  {
    forall t: nat {:trigger Bit(c'.b, t)}
      ensures Bit(c'.b, t) <==> t < c'.count && BitAt(bits, (Position(c') + t) as nat)
    {
      LoadedBit(bits, c.word, t);
    }
  }

  lemma EmptyWord(bits: seq<Word>, n: nat, c: Cursor, f: nat)
    requires CursorOK(bits, n, c) && c.b == 0 && Position(c) <= f < 32 * c.word
    ensures !BitAt(bits, f)
  {
    NoBits(c.b, f - Position(c));
    assert Bit(c.b, f - Position(c)) <==> BitAt(bits, f);
  }

  lemma LoadedBit(bits: seq<Word>, word: nat, t: nat)
    requires word < |bits|
    ensures Bit(bits[word], t) <==> t < 32 && BitAt(bits, 32 * word + t)
  {
    if t < 32 {
      assert (32 * word + t) / 32 == word && (32 * word + t) % 32 == t;
    } else {
      WordHas32Bits(bits[word], t);
    }
  }

  ghost predicate NoneSet(bits: seq<Word>, from: int, to: int) {
    0 <= from <= to <= 32 * |bits| && forall f: nat {:trigger BitAt(bits, f)} :: from <= f < to ==> !BitAt(bits, f)
  }

  /** c is on the way from position p to the first set bit, which is at or before target. */
  ghost predicate OnTheWay(bits: seq<Word>, n: nat, p: int, c: Cursor, target: nat) {
    CursorOK(bits, n, c) && p <= Position(c) <= target < 32 * |bits| && BitAt(bits, target) && NoneSet(bits, p, Position(c))
  }

  lemma WordLeft(bits: seq<Word>, n: nat, p: int, c: Cursor, target: nat)
    requires OnTheWay(bits, n, p, c, target) && c.b == 0
    ensures c.word < |bits| && OnTheWay(bits, n, p, Cursor(c.word + 1, bits[c.word], 32, c.i, c.j + c.count), target)
  {
    TargetIsLater(bits, n, p, c, target);
    LoadOK(bits, n, c);
  }

  lemma TargetIsLater(bits: seq<Word>, n: nat, p: int, c: Cursor, target: nat)
    requires OnTheWay(bits, n, p, c, target) && c.b == 0
    ensures c.word < |bits| && 32 * c.word <= target
  {
    if target < 32 * c.word {
      EmptyWord(bits, n, c, target);
    }
  }

  lemma BitLeft(bits: seq<Word>, n: nat, p: int, c: Cursor, target: nat)
    requires OnTheWay(bits, n, p, c, target) && c.b > 0
    ensures c.count > 0 && (c.b % 2 == 1 <==> BitAt(bits, Position(c) as nat))
    ensures c.b % 2 == 0 ==> OnTheWay(bits, n, p, Advance(c), target)
  {
    SomeBit(c.b);
    AdvanceOK(bits, n, c);
    assert Bit(c.b, 0) <==> BitAt(bits, (Position(c) + 0) as nat);
  }

  /** Move to the next set bit and bring its coordinates in range (FIX_IJ). */
  method NextBit(bits: seq<Word>, n: nat, c0: Cursor, ghost target: nat) returns (c: Cursor)
    requires n > 0 && OnTheWay(bits, n, Position(c0), c0, target)
    ensures OnTheWay(bits, n, Position(c0), c, target) && c.count > 0 && c.j < n
    ensures BitAt(bits, Position(c) as nat)
  {
    c := c0;
    while c.b == 0
      invariant OnTheWay(bits, n, Position(c0), c, target)
      decreases |bits| - c.word
    {
      WordLeft(bits, n, Position(c0), c, target);
      c := Cursor(c.word + 1, bits[c.word], 32, c.i, c.j + c.count);
    }
    BitLeft(bits, n, Position(c0), c, target);
    while c.b % 2 == 0
      invariant OnTheWay(bits, n, Position(c0), c, target) && c.count > 0 && c.b > 0
      invariant c.b % 2 == 1 <==> BitAt(bits, Position(c) as nat)
      decreases c.count
    {
      BitLeft(bits, n, Position(c0), c, target);
      c := Advance(c);
      BitLeft(bits, n, Position(c0), c, target);
    }
    c := FixIJ(bits, n, Position(c0), c, target);
  }

  /** FIX_IJ */
  method FixIJ(bits: seq<Word>, n: nat, ghost p: int, c0: Cursor, ghost target: nat) returns (c: Cursor)
    requires n > 0 && OnTheWay(bits, n, p, c0, target)
    ensures OnTheWay(bits, n, p, c, target) && c.count == c0.count && Position(c) == Position(c0) && c.j < n
  {
    c := c0;
    while c.j >= n
      invariant OnTheWay(bits, n, p, c, target) && c.count == c0.count && Position(c) == Position(c0)
      decreases c.j
    {
      FixStep(n, c.i, c.j);
      c := c.(i := c.i + 1, j := c.j - n);
    }
  }

  lemma FixStep(n: nat, i: nat, j: nat)
    requires j >= n
    ensures Flat(n, i + 1, j - n) == Flat(n, i, j)
  {
    assert Rows(n, i + 1) == n + Rows(n, i);
  }

  /** A set bit found by a scan from (i, j): when the table marks the pairs of S, its coordinates are a
      pair of S, and no pair of S was skipped. */
  lemma FoundPair(bits: seq<Word>, n: nat, S: set<(nat, nat)>, c0: Cursor, c: Cursor, target: nat)
    requires MarksPairs(bits, n, S) && PairsBelow(S, n) && n > 0 && c0.j <= n
    requires CursorOK(bits, n, c0) && OnTheWay(bits, n, Position(c0), c, target) && c.j < n && target < Cells(n)
    requires BitAt(bits, Position(c) as nat)
    ensures c.i < n && (c.i, c.j) in S && Earlier(S, c.i, c.j) == Earlier(S, c0.i, c0.j)
  {
    if c.i >= n {
      RowsMonotone(n, n, c.i);
    }
    assert Marked(bits, n, c.i, c.j);
    forall e | e in S ensures Before(e.0, e.1, c.i, c.j) <==> Before(e.0, e.1, c0.i, c0.j) {
      assert (e.0, e.1) in S;
      assert Marked(bits, n, e.0, e.1);
      FlatOrder(n, e.0, e.1, c.i, c.j);
      FlatOrder(n, e.0, e.1, c0.i, c0.j);
    }
    assert Earlier(S, c.i, c.j) == Earlier(S, c0.i, c0.j);
  }

  /** The next pair of S is a set bit that lies ahead of the scan. */
  lemma TargetAhead(bits: seq<Word>, n: nat, S: set<(nat, nat)>, c: Cursor) returns (target: nat)
    requires MarksPairs(bits, n, S) && PairsBelow(S, n) && CursorOK(bits, n, c) && c.j <= n
    requires Index(S, c.i, c.j) < |S|
    ensures OnTheWay(bits, n, Position(c), c, target) && target < Cells(n)
  {
    var x, y := SomePairLeft(S, c.i, c.j);
    assert Marked(bits, n, x, y);
    FlatInRange(n, x, y);
    FlatOrder(n, x, y, c.i, c.j);
    target := Flat(n, x, y);
  }

  /** The next pair of S, by scanning the table. */
  method NextPair(bits: seq<Word>, n: nat, c0: Cursor, ghost S: set<(nat, nat)>) returns (c: Cursor)
    requires MarksPairs(bits, n, S) && PairsBelow(S, n) && n > 0 && CursorOK(bits, n, c0) && c0.j <= n
    requires Index(S, c0.i, c0.j) < |S|
    ensures c.i < n && c.j < n && (c.i, c.j) in S && Earlier(S, c.i, c.j) == Earlier(S, c0.i, c0.j)
    ensures c.count > 0 && CursorOK(bits, n, Advance(c))
  {
    ghost var target := TargetAhead(bits, n, S, c0);
    c := NextBit(bits, n, c0, target);
    FoundPair(bits, n, S, c0, c, target);
    AdvanceOK(bits, n, c);
  }

  /** L lists the pairs of S in row order. */
  ghost predicate IsListing(L: seq<(nat, nat)>, S: set<(nat, nat)>) {
    |L| == |S| && forall k {:trigger L[k]} :: 0 <= k < |L| ==> L[k] in S && Index(S, L[k].0, L[k].1) == k
  }

  lemma ListedAt(L: seq<(nat, nat)>, S: set<(nat, nat)>, i: nat, j: nat)
    requires IsListing(L, S) && (i, j) in S
    ensures Index(S, i, j) < |L| && L[Index(S, i, j)] == (i, j)
  {
    IndexBelow(S, i, j);
    var e := L[Index(S, i, j)];
    assert e == (e.0, e.1);
    IndexInjective(S, i, j, e.0, e.1);
  }

  lemma ListingUnique(L: seq<(nat, nat)>, L': seq<(nat, nat)>, S: set<(nat, nat)>)
    requires IsListing(L, S) && IsListing(L', S)
    ensures L == L'
  {
    forall k | 0 <= k < |L| ensures L[k] == L'[k] {
      ListedAt(L', S, L[k].0, L[k].1);
    }
  }

  /** The list of the pairs of S in row order. */
  ghost function ListOf(S: set<(nat, nat)>): (L: seq<(nat, nat)>)
  {
    if exists L :: IsListing(L, S) then (var L :| IsListing(L, S); L) else []
  }

  lemma ListOfIs(L: seq<(nat, nat)>, S: set<(nat, nat)>)
    requires IsListing(L, S)
    ensures ListOf(S) == L
  {
    ListingUnique(L, ListOf(S), S);
  }

  /** The first k pairs of the list. */
  ghost function Listed(L: seq<(nat, nat)>, k: nat): set<(nat, nat)>
    requires k <= |L|
  {
    set t | 0 <= t < k :: L[t]
  }

  lemma ListedOneMore(L: seq<(nat, nat)>, k: nat)
    requires k < |L|
    ensures Listed(L, k + 1) == Listed(L, k) + {L[k]}
  {
  }

  lemma NothingListed(L: seq<(nat, nat)>)
    ensures Listed(L, 0) == {}
  {
  }

  lemma AllListed(L: seq<(nat, nat)>, S: set<(nat, nat)>)
    requires IsListing(L, S)
    ensures Listed(L, |L|) == S
  {
    forall e | e in S ensures e in Listed(L, |L|) {
      ListedAt(L, S, e.0, e.1);
    }
  }

  /** The scan has listed the pairs it went past. */
  ghost predicate Listing(bits: seq<Word>, n: nat, S: set<(nat, nat)>, c: Cursor, L: seq<(nat, nat)>) {
    CursorOK(bits, n, c) && c.j <= n && |L| == Index(S, c.i, c.j) &&
    forall k {:trigger L[k]} :: 0 <= k < |L| ==> L[k] in S && Index(S, L[k].0, L[k].1) == k
  }

  method ListNext(bits: seq<Word>, n: nat, c0: Cursor, L0: seq<(nat, nat)>, ghost S: set<(nat, nat)>) returns (c: Cursor, L: seq<(nat, nat)>)
    requires MarksPairs(bits, n, S) && PairsBelow(S, n) && n > 0 && Listing(bits, n, S, c0, L0) && |L0| < |S|
    ensures Listing(bits, n, S, c, L) && |L| == |L0| + 1
  {
    c := NextPair(bits, n, c0, S);
    L := L0 + [(c.i, c.j)];
    OneMoreListed(bits, n, S, c0, c, L0);
    c := Advance(c);
  }

  lemma OneMoreListed(bits: seq<Word>, n: nat, S: set<(nat, nat)>, c0: Cursor, c: Cursor, L: seq<(nat, nat)>)
    requires Listing(bits, n, S, c0, L) && c.i < n && c.j < n && (c.i, c.j) in S && c.count > 0
    requires Earlier(S, c.i, c.j) == Earlier(S, c0.i, c0.j) && CursorOK(bits, n, Advance(c))
    ensures Listing(bits, n, S, Advance(c), L + [(c.i, c.j)])
  {
    IndexOfNext(S, c.i, c.j);
  }

  /** dbm_bitMatrix2indices (src/mingraph.c); the writers and readers inline the same scan. */
  method ListPairs(bits: seq<Word>, n: nat, cnt: nat, ghost S: set<(nat, nat)>) returns (L: seq<(nat, nat)>)
    requires MarksPairs(bits, n, S) && PairsBelow(S, n) && cnt == |S| && n > 0
    ensures IsListing(L, S)
  {
    var c: Cursor;
    c, L := BeginScan(bits, n, S);
    while |L| < cnt
      invariant |L| <= cnt && Listing(bits, n, S, c, L)
      decreases cnt - |L|
    {
      c, L := ListNext(bits, n, c, L, S);
    }
    ListingDone(bits, n, S, c, L);
  }

  method BeginScan(bits: seq<Word>, n: nat, ghost S: set<(nat, nat)>) returns (c: Cursor, L: seq<(nat, nat)>)
    ensures Listing(bits, n, S, c, L) && |L| == 0
  {
    c := StartCursor(bits, n, S);
    L := [];
    StartListing(bits, n, S, c, L);
  }

  method StartCursor(bits: seq<Word>, n: nat, ghost S: set<(nat, nat)>) returns (c: Cursor)
    ensures CursorOK(bits, n, c) && c.j <= n && Index(S, c.i, c.j) == 0
  {
    var b := NothingLoaded();
    c := Cursor(0, b, 0, 0, 0);
    NothingEarlier(S);
    StartOK(bits, n, c);
  }

  /** Nothing is left of the current word before one is loaded. */
  method NothingLoaded() returns (b: nat)
    ensures forall t: nat {:trigger Bit(b, t)} :: !Bit(b, t)
  {
    b := 0;
    NoBitLeft(b);
  }

  lemma NoBitLeft(b: nat)
    requires b == 0
    ensures forall t: nat {:trigger Bit(b, t)} :: !Bit(b, t)
  {
    forall t: nat {:trigger Bit(b, t)} ensures !Bit(b, t) {
      NoBits(b, t);
    }
  }

  lemma StartOK(bits: seq<Word>, n: nat, c: Cursor)
    requires c.word == c.count == 0 && Flat(n, c.i, c.j) == Position(c)
    requires forall t: nat {:trigger Bit(c.b, t)} :: !Bit(c.b, t)
    ensures CursorOK(bits, n, c)
  {
  }

  lemma StartListing(bits: seq<Word>, n: nat, S: set<(nat, nat)>, c: Cursor, L: seq<(nat, nat)>)
    requires CursorOK(bits, n, c) && c.j <= n && |L| == Index(S, c.i, c.j) && |L| == 0
    ensures Listing(bits, n, S, c, L)
  {
  }

  lemma ListingDone(bits: seq<Word>, n: nat, S: set<(nat, nat)>, c: Cursor, L: seq<(nat, nat)>)
    requires Listing(bits, n, S, c, L) && |L| == |S|
    ensures IsListing(L, S)
  {
  }

  // ----- All entries but the diagonal -----

  ghost function OffDiagonal(n: nat): (s: set<(nat, nat)>)
    ensures forall i: nat, j: nat {:trigger (i, j) in s} :: (i, j) in s <==> i < n && j < n && i != j
  {
    set i: nat, j: nat | i in Prefix(n) && j in Prefix(n) && i != j :: (i, j)
  }

  /** L lists the pairs of S that come before (i, j). */
  ghost predicate ListedTo(L: seq<(nat, nat)>, S: set<(nat, nat)>, i: nat, j: nat) {
    |L| == Index(S, i, j) && forall k {:trigger L[k]} :: 0 <= k < |L| ==> L[k] in S && Index(S, L[k].0, L[k].1) == k
  }

  lemma ListOneMore(L: seq<(nat, nat)>, S: set<(nat, nat)>, i: nat, j: nat)
    requires ListedTo(L, S, i, j)
    ensures ListedTo(if (i, j) in S then L + [(i, j)] else L, S, i, j + 1)
  {
    IndexOfNext(S, i, j);
  }

  /** One row. */
  method ListRow(L0: seq<(nat, nat)>, n: nat, i: nat) returns (L: seq<(nat, nat)>)
    requires i < n && ListedTo(L0, OffDiagonal(n), i, 0)
    ensures ListedTo(L, OffDiagonal(n), i + 1, 0)
  {
    L := L0;
    var j := 0;
    while j < n
      invariant 0 <= j <= n && ListedTo(L, OffDiagonal(n), i, j)
    {
      ListOneMore(L, OffDiagonal(n), i, j);
      if i != j {
        L := L + [(i, j)];
      }
      j := j + 1;
    }
    NextRowListed(L, OffDiagonal(n), j, i);
  }

  /** The order in which the copies without the diagonal run through a matrix. */
  method ListOffDiagonal(n: nat) returns (L: seq<(nat, nat)>)
    ensures IsListing(L, OffDiagonal(n))
  {
    ghost var S := OffDiagonal(n);
    L := [];
    NothingEarlier(S);
    var i := 0;
    while i < n
      invariant 0 <= i <= n && ListedTo(L, S, i, 0)
    {
      L := ListRow(L, n, i);
      i := i + 1;
    }
    AllEarlier(S, n);
  }

  lemma NextRowListed(L: seq<(nat, nat)>, S: set<(nat, nat)>, n: nat, i: nat)
    requires PairsBelow(S, n) && ListedTo(L, S, i, n)
    ensures ListedTo(L, S, i + 1, 0)
  {
    IndexOfNextRow(S, n, i);
  }

  lemma {:induction false} OffDiagonalCount(n: nat, i: nat, j: nat)
    requires i < n && j <= n
    ensures Index(OffDiagonal(n), i, j) == i * (n - 1) + (if j > i then j - 1 else j)
    decreases i, j
  {
    if j > 0 {
      OffDiagonalCount(n, i, j - 1);
      IndexOfNext(OffDiagonal(n), i, j - 1);
    } else if i > 0 {
      OffDiagonalCount(n, i - 1, n);
      IndexOfNextRow(OffDiagonal(n), n, i - 1);
      assert i * (n - 1) == (i - 1) * (n - 1) + (n - 1);
    } else {
      NothingEarlier(OffDiagonal(n));
    }
  }

  /** How many entries off the diagonal come before (i, j): their number in a copy. */
  function CopyIndex(n: nat, i: nat, j: nat): nat
    requires n > 0
  {
    Rows(n - 1, i) + if j > i then j - 1 else j
  }

  lemma CopyIndexIs(n: nat, i: nat, j: nat)
    requires i < n && j <= n
    ensures Index(OffDiagonal(n), i, j) == CopyIndex(n, i, j)
  {
    OffDiagonalCount(n, i, j);
    RowsIsProduct(n - 1, i);
  }

  lemma OffDiagonalSize(n: nat)
    requires n > 0
    ensures |OffDiagonal(n)| == n * (n - 1)
  {
    OffDiagonalCount(n, n - 1, n);
    IndexOfNextRow(OffDiagonal(n), n, n - 1);
    AllEarlier(OffDiagonal(n), n);
    LastRow(n);
  }

  lemma LastRow(n: nat)
    requires n > 0
    ensures n * (n - 1) == (n - 1) * (n - 1) + (n - 1)
  {
  }

  // ----- Every set of pairs has its list -----

  lemma {:induction false} SomeListing(S: set<(nat, nat)>, n: nat, i: nat, j: nat) returns (L: seq<(nat, nat)>)
    requires PairsBelow(S, n) && i <= n && j <= n
    ensures ListedTo(L, S, i, j)
    decreases i, j
  {
    if j > 0 {
      L := SomeListing(S, n, i, j - 1);
      ListOneMore(L, S, i, j - 1);
      L := if (i, j - 1) in S then L + [(i, j - 1)] else L;
    } else if i > 0 {
      L := SomeListing(S, n, i - 1, n);
      NextRowListed(L, S, n, i - 1);
    } else {
      NothingEarlier(S);
      L := [];
    }
  }

  lemma ListOfLists(S: set<(nat, nat)>, n: nat)
    requires PairsBelow(S, n)
    ensures IsListing(ListOf(S), S)
  {
    var L := SomeListing(S, n, n, 0);
    AllEarlier(S, n);
    assert IsListing(L, S);
  }

  lemma ListingDeterminesSet(L: seq<(nat, nat)>, S: set<(nat, nat)>, S': set<(nat, nat)>)
    requires IsListing(L, S) && IsListing(L, S')
    ensures S == S'
  {
    forall e: (nat, nat) ensures e in S <==> e in S' {
      if e in S {
        ListedAt(L, S, e.0, e.1);
      }
      if e in S' {
        ListedAt(L, S', e.0, e.1);
      }
    }
  }

  lemma ListOfInjective(S: set<(nat, nat)>, S': set<(nat, nat)>, n: nat)
    requires PairsBelow(S, n) && PairsBelow(S', n) && ListOf(S) == ListOf(S')
    ensures S == S'
  {
    ListOfLists(S, n);
    ListOfLists(S', n);
    ListingDeterminesSet(ListOf(S), S, S');
  }
}
