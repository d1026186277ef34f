/** mingraph_analyzeForMinDBM and dbm_cleanBitMatrix (src/mingraph_write.c): the imperative analysis
    marks exactly the constraints of `MinimalGraph`. */
module Analysis {
  import opened Bounds
  import opened Zones
  import opened Closing
  import opened MinimalGraph
  import opened Words

  /** ~0u: the end of a class in the table of successors. */
  const NONE: nat := 0xffff_ffff

  // ----- Identifying classes -----

  ghost predicate RepsBelow(m: Dbm, f: seq<nat>, n: nat) {
    (forall t :: 0 <= t < |f| ==> f[t] < n <= |m| && IsRep(m, f[t])) &&
    (forall s, t :: 0 <= s < t < |f| ==> f[s] < f[t]) &&
    (forall p: nat :: p < n <= |m| && IsRep(m, p) ==> p in f)
  }

  ghost predicate NextCorrect(m: Dbm, a: nat, x: nat) {
    a < |m| && if x == NONE then IsLast(m, a) else x < |m| && IsNext(m, a, x)
  }

  /** The class of x has a member below n: its successor has been filled in. */
  ghost predicate Visited(m: Dbm, x: nat, n: nat) {
    x < |m| && exists p: nat :: p < n && p < |m| && Tied(m, p, x)
  }

  ghost predicate NextsBelow(m: Dbm, nx: seq<nat>, n: nat) {
    |nx| == |m| &&
    forall x: nat {:trigger nx[x]} :: x < |m| ==>
      if Visited(m, x, n) then NextCorrect(m, x, nx[x]) else nx[x] == 0
  }

  lemma VisitedMember(m: Dbm, x: nat, y: nat, n: nat)
    requires Canonical(m) && x < |m| && y < |m| && Tied(m, x, y) && n <= |m|
    ensures Visited(m, x, n) <==> Visited(m, y, n)
  {
    if Visited(m, x, n) {
      var p: nat :| p < n && Tied(m, p, x);
      TiedTransitive(m, p, x, y);
    }
    if Visited(m, y, n) {
      var p: nat :| p < n && Tied(m, p, y);
      TiedTransitive(m, p, y, x);
      assert Tied(m, y, x);
    }
  }

  lemma UnvisitedIsRep(m: Dbm, i: nat)
    requires Canonical(m) && i < |m|
    ensures !Visited(m, i, i) <==> IsRep(m, i)
  {
  }

  /** The chain of the class of i while it is being laid out: members up to k are linked. */
  ghost predicate ChainTo(m: Dbm, before: seq<nat>, nx: seq<nat>, i: nat, k: nat, j: nat) {
    i < |m| && k < j <= |m| && i <= k && |nx| == |before| == |m| && Tied(m, i, k) &&
    (forall x: nat {:trigger Tied(m, i, x)} :: k < x < j ==> !Tied(m, i, x)) &&
    (forall x: nat {:trigger nx[x]} :: x < |m| ==>
      if i <= x < k && Tied(m, i, x) then NextCorrect(m, x, nx[x]) else nx[x] == before[x])
  }

  lemma ChainGrows(m: Dbm, before: seq<nat>, nx: seq<nat>, i: nat, k: nat, j: nat)
    requires Canonical(m) && ChainTo(m, before, nx, i, k, j) && j < |m| && Tied(m, i, j)
    requires |m| <= NONE
    ensures ChainTo(m, before, nx[k := j], i, j, j + 1)
  {
    assert IsNext(m, k, j) by {
      TiedTransitive(m, i, k, j);
      forall x: nat | k < x < j ensures !Tied(m, k, x) {
        TiedTransitive(m, i, k, x);
      }
    }
    forall x: nat {:trigger nx[k := j][x]} | x < |m|
      ensures if i <= x < j && Tied(m, i, x) then NextCorrect(m, x, nx[k := j][x]) else nx[k := j][x] == before[x]
    {
      assert nx[x] == nx[x];
    }
  }

  lemma ChainEnds(m: Dbm, before: seq<nat>, nx: seq<nat>, i: nat, k: nat)
    requires Canonical(m) && i < |m| && NextsBelow(m, before, i) && before[i] == 0
    requires ChainTo(m, before, nx, i, k, |m|) && |m| <= NONE
    ensures NextsBelow(m, nx[k := NONE], i + 1)
  {
    var nx' := nx[k := NONE];
    assert !Visited(m, i, i) by {
      assert NONE != 0 && !NextCorrect(m, i, 0);
    }
    assert IsLast(m, k) by {
      forall x: nat | k < x < |m| ensures !Tied(m, k, x) {
        TiedTransitive(m, i, k, x);
      }
    }
    forall x: nat {:trigger nx'[x]} | x < |m|
      ensures if Visited(m, x, i + 1) then NextCorrect(m, x, nx'[x]) else nx'[x] == 0
    {
      assert nx[x] == nx[x] && before[x] == before[x];
      TiedReflexive(m, i);
      if Tied(m, i, x) {
        VisitedMember(m, i, x, i);
        assert Visited(m, x, i + 1);
        if x < i {
          TiedReflexive(m, x);
          assert Visited(m, x, i);
        }
      } else {
        assert Visited(m, x, i + 1) <==> Visited(m, x, i);
      }
    }
  }

  /** The loop on j: link the class of the representative i. */
  method LinkClass(dbm: array2<Raw>, next: array<nat>, i: nat)
    requires IsSquare(dbm) && Canonical(Mat(dbm)) && dbm.Length0 <= NONE
    requires i < dbm.Length0 == next.Length && NextsBelow(Mat(dbm), next[..], i) && next[i] == 0
    modifies next
    ensures NextsBelow(Mat(dbm), next[..], i + 1)
  {
    ghost var m := Mat(dbm);
    var dim := dbm.Length0;
    ghost var before := next[..];
    var k := i;
    var j := i + 1;
    TiedReflexive(m, i);
    while j < dim
      invariant i < j <= dim && i <= k < j
      invariant ChainTo(m, before, next[..], i, k, j)
    {
      assert m[i][j] == dbm[i, j] && m[j][i] == dbm[j, i];
      if Opposite(dbm[i, j], dbm[j, i]) {
        ChainGrows(m, before, next[..], i, k, j);
        next[k] := j;
        k := j;
      }
      j := j + 1;
    }
    ChainEnds(m, before, next[..], i, k);
    next[k] := NONE;
  }

  method FindClasses(dbm: array2<Raw>, first: array<nat>, next: array<nat>) returns (end: nat)
    requires IsSquare(dbm) && Canonical(Mat(dbm)) && dbm.Length0 <= NONE
    requires first != next && first.Length == next.Length == dbm.Length0
    requires forall x :: 0 <= x < next.Length ==> next[x] == 0
    modifies first, next
    ensures end <= first.Length && RepsBelow(Mat(dbm), first[..end], dbm.Length0)
    ensures NextsBelow(Mat(dbm), next[..], dbm.Length0)
  {
    ghost var m := Mat(dbm);
    var dim := dbm.Length0;
    end := 0;
    var i := 0;
    while i < dim
      invariant unchanged(dbm)
      invariant 0 <= i <= dim && end <= i
      invariant RepsBelow(m, first[..end], i)
      invariant NextsBelow(m, next[..], i)
    {
      ghost var f := first[..end];
      if next[i] == 0 {
        NotVisited(m, next[..], i);
        first[end] := i;
        assert first[..end + 1] == f + [i];
        OneMoreRep(m, f, i);
        LinkClass(dbm, next, i);
        end := end + 1;
      } else {
        AlreadyVisited(m, next[..], i);
        NoMoreRep(m, f, i);
      }
      i := i + 1;
    }
  }

  lemma OneMoreRep(m: Dbm, f: seq<nat>, i: nat)
    requires i < |m| && RepsBelow(m, f, i) && IsRep(m, i)
    ensures RepsBelow(m, f + [i], i + 1)
  {
    var f' := f + [i];
    forall p: nat | p < i + 1 && IsRep(m, p) ensures p in f' {
      if p == i {
        assert f'[|f|] == i;
      } else {
        assert p in f;
      }
    }
  }

  lemma NoMoreRep(m: Dbm, f: seq<nat>, i: nat)
    requires i < |m| && RepsBelow(m, f, i) && !IsRep(m, i)
    ensures RepsBelow(m, f, i + 1)
  {
  }

  lemma NotVisited(m: Dbm, nx: seq<nat>, i: nat)
    requires Canonical(m) && i < |m| && NextsBelow(m, nx, i) && nx[i] == 0
    ensures IsRep(m, i)
  {
    assert NONE != 0 && !NextCorrect(m, i, 0);
    UnvisitedIsRep(m, i);
  }

  lemma AlreadyVisited(m: Dbm, nx: seq<nat>, i: nat)
    requires Canonical(m) && i < |m| && NextsBelow(m, nx, i) && nx[i] != 0
    ensures NextsBelow(m, nx, i + 1) && !IsRep(m, i)
  {
    assert Visited(m, i, i);
    UnvisitedIsRep(m, i);
    forall x: nat {:trigger nx[x]} | x < |m|
      ensures if Visited(m, x, i + 1) then NextCorrect(m, x, nx[x]) else nx[x] == 0
    {
      if Tied(m, i, x) {
        VisitedMember(m, i, x, i);
      }
      assert Visited(m, x, i + 1) <==> Visited(m, x, i);
    }
  }

  // ----- Marking bits -----

  predicate Marked(bits: seq<Word>, n: nat, i: nat, j: nat) {
    i < n && j < n && Flat(n, i, j) < 32 * |bits| && BitAt(bits, Flat(n, i, j))
  }

  /** The pairs marked in a table. */
  ghost function MarkedPairs(bits: seq<Word>, n: nat): (s: set<(nat, nat)>)
    ensures forall i: nat, j: nat {:trigger Marked(bits, n, i, j)} {:trigger (i, j) in s} :: (i, j) in s <==> Marked(bits, n, i, j)
  {
    set i: nat, j: nat | i in Prefix(n) && j in Prefix(n) && Marked(bits, n, i, j) :: (i, j)
  }

  /** The table has its full size and marks exactly the pairs of S. */
  ghost predicate MarksPairs(bits: seq<Word>, n: nat, S: set<(nat, nat)>) {
    |bits| == WordsFor(Cells(n)) && MarkedPairs(bits, n) == S
  }

  lemma SameMarks(bits: seq<Word>, n: nat, S: set<(nat, nat)>)
    requires forall i: nat, j: nat {:trigger Marked(bits, n, i, j)} :: Marked(bits, n, i, j) <==> (i, j) in S
    ensures MarkedPairs(bits, n) == S
  {
    forall e: (nat, nat) ensures e in MarkedPairs(bits, n) <==> e in S {
      assert e == (e.0, e.1);
      assert Marked(bits, n, e.0, e.1) <==> (e.0, e.1) in S;
    }
  }

  /** cnt += mingraph_ngetAndSetBit(bitMatrix, i * dim + j) */
  method Mark(bits: array<Word>, n: nat, i: nat, j: nat, cnt: nat, ghost S: set<(nat, nat)>) returns (cnt': nat)
    requires i < n && j < n && MarksPairs(bits[..], n, S) && cnt == |S|
    modifies bits
    ensures MarksPairs(bits[..], n, S + {(i, j)}) && cnt' == |S + {(i, j)}|
  {
    FlatInRange(n, i, j);
    ghost var s := bits[..];
    var nbit := NGetAndSetBit(bits, Flat(n, i, j));
    assert Marked(s, n, i, j) <==> (i, j) in S;
    forall x: nat, y: nat {:trigger Marked(bits[..], n, x, y)}
      ensures Marked(bits[..], n, x, y) <==> (x, y) in S + {(i, j)}
    {
      assert Marked(s, n, x, y) <==> (x, y) in S;
      if x < n && y < n {
        FlatInRange(n, x, y);
        if Flat(n, x, y) == Flat(n, i, j) {
          FlatInjective(n, x, y, i, j);
        }
      }
    }
    SameMarks(bits[..], n, S + {(i, j)});
    if (i, j) in S {
      assert S + {(i, j)} == S;
    }
    return cnt + nbit;
  }

  // ----- Eliminating redundant constraints between representatives -----

  /** The loop on r: is the constraint between p and q implied by a third representative? */
  method HasDetour(dbm: array2<Raw>, first: seq<nat>, p: nat, q: nat) returns (r: bool)
    requires IsSquare(dbm) && RepsBelow(Mat(dbm), first, dbm.Length0)
    requires p < dbm.Length0 && q < dbm.Length0 && IsRep(Mat(dbm), p) && IsRep(Mat(dbm), q) && p != q
    requires dbm[p, q] != Inf
    ensures r <==> !KeptBetween(Mat(dbm), p, q)
  {
    ghost var m := Mat(dbm);
    var t := 0;
    while t < |first|
      invariant 0 <= t <= |first|
      invariant forall s :: 0 <= s < t && first[s] != p && first[s] != q ==> !Implied(m, p, first[s], q)
    {
      var c := first[t];
      if c != p && c != q {
        var bik, bkj := dbm[p, c], dbm[c, q];
        if bik != Inf && bkj != Inf && Le(Add(bik, bkj), dbm[p, q]) {
          assert Implied(m, p, c, q);
          return true;
        }
      }
      t := t + 1;
    }
    return false;
  }

  /** The pairs of S are kept constraints between representatives, and all those whose first
      representative is among the first s, or is the s-th with the second among the first t, are there. */
  ghost predicate BetweenMarked(m: Dbm, f: seq<nat>, S: set<(nat, nat)>, s: nat, t: nat) {
    RepsBelow(m, f, |m|) &&
    (forall i: nat, j: nat {:trigger (i, j) in S} :: (i, j) in S ==> i < |m| && j < |m| && KeptBetween(m, i, j)) &&
    (forall a, b {:trigger f[a], f[b]} :: 0 <= a < |f| && 0 <= b < |f| && (a < s || (a == s && b < t)) ==>
      KeptBetween(m, f[a], f[b]) ==> (f[a], f[b]) in S)
  }

  lemma BetweenStep(m: Dbm, f: seq<nat>, S: set<(nat, nat)>, s: nat, t: nat)
    requires BetweenMarked(m, f, S, s, t) && s < |f| && t < |f|
    requires f[s] < |m| && f[t] < |m|
    ensures BetweenMarked(m, f, if KeptBetween(m, f[s], f[t]) then S + {(f[s], f[t])} else S, s, t + 1)
  {
  }

  method MarkUnlessRedundant(dbm: array2<Raw>, first: seq<nat>, s: nat, t: nat, bits: array<Word>, c0: nat, ghost S0: set<(nat, nat)>)
    returns (cnt: nat, ghost S: set<(nat, nat)>)
    requires IsSquare(dbm) && s < |first| && t < |first|
    requires MarksPairs(bits[..], dbm.Length0, S0) && c0 == |S0|
    requires BetweenMarked(Mat(dbm), first, S0, s, t)
    modifies bits
    ensures MarksPairs(bits[..], dbm.Length0, S) && cnt == |S|
    ensures BetweenMarked(Mat(dbm), first, S, s, t + 1)
  {
    cnt, S := c0, S0;
    var p, q := first[s], first[t];
    ghost var m := Mat(dbm);
    BetweenStep(m, first, S, s, t);
    if s != t && dbm[p, q] != Inf {
      var redundant := HasDetour(dbm, first, p, q);
      if !redundant {
        cnt := Mark(bits, dbm.Length0, p, q, cnt, S);
        S := S + {(p, q)};
      }
    } else {
      assert !KeptBetween(m, p, q);
    }
  }

  method MarkBetween(dbm: array2<Raw>, first: seq<nat>, bits: array<Word>) returns (cnt: nat, ghost S: set<(nat, nat)>)
    requires IsSquare(dbm)
    requires RepsBelow(Mat(dbm), first, dbm.Length0) && MarksPairs(bits[..], dbm.Length0, {})
    modifies bits
    ensures MarksPairs(bits[..], dbm.Length0, S) && cnt == |S|
    ensures forall i: nat, j: nat {:trigger (i, j) in S} :: (i, j) in S <==>
      i < dbm.Length0 && j < dbm.Length0 && KeptBetween(Mat(dbm), i, j)
  {
    cnt, S := 0, {};
    var s := 0;
    while s < |first|
      invariant 0 <= s <= |first|
      invariant MarksPairs(bits[..], dbm.Length0, S) && cnt == |S|
      invariant BetweenMarked(Mat(dbm), first, S, s, 0)
    {
      var t := 0;
      while t < |first|
        invariant 0 <= t <= |first|
        invariant MarksPairs(bits[..], dbm.Length0, S) && cnt == |S|
        invariant BetweenMarked(Mat(dbm), first, S, s, t)
      {
        cnt, S := MarkUnlessRedundant(dbm, first, s, t, bits, cnt, S);
        t := t + 1;
      }
      s := s + 1;
    }
    AllBetweenMarked(Mat(dbm), first, S);
  }

  lemma AllBetweenMarked(m: Dbm, f: seq<nat>, S: set<(nat, nat)>)
    requires BetweenMarked(m, f, S, |f|, 0)
    ensures forall i: nat, j: nat {:trigger (i, j) in S} :: (i, j) in S <==> i < |m| && j < |m| && KeptBetween(m, i, j)
  {
    forall i: nat, j: nat {:trigger (i, j) in S} | i < |m| && j < |m| && KeptBetween(m, i, j) ensures (i, j) in S {
      assert i in f && j in f;
    }
  }

  // ----- Marking the class cycles -----

  /** S holds the whole cycle of the class of p. */
  ghost predicate CycleIn(m: Dbm, p: nat, S: set<(nat, nat)>)
    requires p < |m|
  {
    forall a: nat, b: nat {:trigger (a, b) in S} :: a < |m| && b < |m| && Tied(m, p, a) && KeptInCycle(m, a, b) ==> (a, b) in S
  }

  /** Besides B, S holds constraints of class cycles only, and all those of the first s classes. */
  ghost predicate CyclesMarked(m: Dbm, f: seq<nat>, B: set<(nat, nat)>, S: set<(nat, nat)>, s: nat) {
    B <= S &&
    (forall i: nat, j: nat {:trigger (i, j) in S} :: (i, j) in S ==>
      (i, j) in B || (i < |m| && j < |m| && KeptInCycle(m, i, j))) &&
    (forall t :: 0 <= t < s && t < |f| && f[t] < |m| ==> CycleIn(m, f[t], S))
  }

  /** While the cycle of the class of p is being marked, i is the last member reached. */
  ghost predicate CyclePart(m: Dbm, p: nat, i: nat, S0: set<(nat, nat)>, S: set<(nat, nat)>) {
    p <= i < |m| && Tied(m, p, i) && OnlyCycles(m, S0, S) &&
    forall x: nat, y: nat {:trigger IsNext(m, x, y)} :: x < i && y < |m| && Tied(m, p, x) && IsNext(m, x, y) ==> (x, y) in S
  }

  /** S adds nothing but constraints of class cycles to S0. */
  ghost predicate OnlyCycles(m: Dbm, S0: set<(nat, nat)>, S: set<(nat, nat)>) {
    S0 <= S &&
    forall x: nat, y: nat {:trigger (x, y) in S} :: (x, y) in S ==>
      (x, y) in S0 || (x < |m| && y < |m| && KeptInCycle(m, x, y))
  }

  method MarkCycle(dbm: array2<Raw>, next: seq<nat>, p: nat, bits: array<Word>, c0: nat, ghost S0: set<(nat, nat)>)
    returns (cnt: nat, ghost S: set<(nat, nat)>)
    requires IsSquare(dbm) && Canonical(Mat(dbm)) && NextsBelow(Mat(dbm), next, dbm.Length0)
    requires p < dbm.Length0 && IsRep(Mat(dbm), p)
    requires MarksPairs(bits[..], dbm.Length0, S0) && c0 == |S0|
    modifies bits
    ensures MarksPairs(bits[..], dbm.Length0, S) && cnt == |S|
    ensures OnlyCycles(Mat(dbm), S0, S) && CycleIn(Mat(dbm), p, S)
  {
    ghost var m := Mat(dbm);
    var n := dbm.Length0;
    cnt, S := c0, S0;
    var i := p;
    CycleStarts(m, p, S);
    NextEntry(m, next, i);
    if next[i] != NONE {
      while next[i] != NONE
        invariant i < n
        invariant CyclePart(m, p, i, S0, S) && NextCorrect(m, i, next[i]) && (i == p ==> next[p] != NONE)
        invariant MarksPairs(bits[..], n, S) && cnt == |S|
        decreases n - i
      {
        ChainStep(m, S0, S, p, i, next[i]);
        cnt := Mark(bits, n, i, next[i], cnt, S);
        S := S + {(i, next[i])};
        i := next[i];
        NextEntry(m, next, i);
      }
      CycleComplete(m, S0, S, p, i);
      cnt := Mark(bits, n, i, p, cnt, S);
      S := S + {(i, p)};
    } else {
      LoneClass(m, p);
    }
  }

  lemma NextEntry(m: Dbm, nx: seq<nat>, i: nat)
    requires Canonical(m) && NextsBelow(m, nx, |m|) && i < |m|
    ensures NextCorrect(m, i, nx[i])
  {
    TiedReflexive(m, i);
    assert Visited(m, i, |m|);
  }

  lemma CycleStarts(m: Dbm, p: nat, S: set<(nat, nat)>)
    requires Canonical(m) && p < |m| && IsRep(m, p)
    ensures CyclePart(m, p, p, S, S)
  {
    TiedReflexive(m, p);
    forall x: nat | x < p ensures !Tied(m, p, x) {
      assert Tied(m, p, x) <==> Tied(m, x, p);
    }
  }

  lemma ChainStep(m: Dbm, S0: set<(nat, nat)>, S: set<(nat, nat)>, p: nat, i: nat, c: nat)
    requires Canonical(m) && CyclePart(m, p, i, S0, S) && c < |m| && IsNext(m, i, c)
    ensures CyclePart(m, p, c, S0, S + {(i, c)})
  {
    TiedTransitive(m, p, i, c);
    forall x: nat, y: nat {:trigger IsNext(m, x, y)} | x < c && y < |m| && Tied(m, p, x) && IsNext(m, x, y)
      ensures (x, y) in S + {(i, c)}
    {
      TiedTransitive(m, p, i, x);
      TiedTransitive(m, p, x, y);
      TiedTransitive(m, i, x, y);
      TiedTransitive(m, i, c, y);
    }
  }

  lemma CycleComplete(m: Dbm, S0: set<(nat, nat)>, S: set<(nat, nat)>, p: nat, i: nat)
    requires Canonical(m) && CyclePart(m, p, i, S0, S) && IsRep(m, p) && IsLast(m, i) && i != p
    ensures OnlyCycles(m, S0, S + {(i, p)}) && CycleIn(m, p, S + {(i, p)})
  {
    assert Tied(m, i, p);
    forall a: nat, b: nat {:trigger (a, b) in S + {(i, p)}} | a < |m| && b < |m| && Tied(m, p, a) && KeptInCycle(m, a, b)
      ensures (a, b) in S + {(i, p)}
    {
      TiedTransitive(m, p, i, a);
      TiedTransitive(m, p, a, i);
      TiedTransitive(m, p, a, b);
      if IsNext(m, a, b) {
        TiedTransitive(m, p, i, b);
      } else if b != p {
        RepsAreNotTied(m, p, b);
      }
    }
  }

  lemma LoneClass(m: Dbm, p: nat)
    requires Canonical(m) && p < |m| && IsRep(m, p) && IsLast(m, p)
    ensures forall S: set<(nat, nat)> :: CycleIn(m, p, S)
  {
    forall a: nat, b: nat | a < |m| && b < |m| && Tied(m, p, a) ensures !KeptInCycle(m, a, b) {
      assert Tied(m, a, p) && a == p;
      assert Tied(m, p, b) <==> Tied(m, b, p);
    }
  }

  method MarkCycles(dbm: array2<Raw>, first: seq<nat>, next: seq<nat>, bits: array<Word>, c0: nat, ghost B: set<(nat, nat)>)
    returns (cnt: nat)
    requires IsSquare(dbm) && Canonical(Mat(dbm))
    requires RepsBelow(Mat(dbm), first, dbm.Length0) && NextsBelow(Mat(dbm), next, dbm.Length0)
    requires MarksPairs(bits[..], dbm.Length0, B) && c0 == |B|
    requires forall i: nat, j: nat {:trigger (i, j) in B} :: (i, j) in B <==>
      i < dbm.Length0 && j < dbm.Length0 && KeptBetween(Mat(dbm), i, j)
    modifies bits
    ensures MarksPairs(bits[..], dbm.Length0, KeptBits(Mat(dbm))) && cnt == |KeptBits(Mat(dbm))|
  {
    ghost var m := Mat(dbm);
    ghost var S := B;
    cnt := c0;
    var s := 0;
    while s < |first|
      invariant 0 <= s <= |first| && Mat(dbm) == m
      invariant MarksPairs(bits[..], dbm.Length0, S) && cnt == |S|
      invariant CyclesMarked(m, first, B, S, s)
    {
      ghost var S0 := S;
      cnt, S := MarkCycle(dbm, next, first[s], bits, cnt, S);
      MoreCycles(m, first, B, S0, S, s);
      s := s + 1;
    }
    AllMarked(m, first, B, S);
  }

  lemma MoreCycles(m: Dbm, f: seq<nat>, B: set<(nat, nat)>, S0: set<(nat, nat)>, S: set<(nat, nat)>, s: nat)
    requires s < |f| && f[s] < |m| && CyclesMarked(m, f, B, S0, s) && OnlyCycles(m, S0, S) && CycleIn(m, f[s], S)
    ensures CyclesMarked(m, f, B, S, s + 1)
  {
    forall t | 0 <= t < s && f[t] < |m| ensures CycleIn(m, f[t], S) {
      assert CycleIn(m, f[t], S0);
      forall a: nat, b: nat {:trigger (a, b) in S} | a < |m| && b < |m| && Tied(m, f[t], a) && KeptInCycle(m, a, b)
        ensures (a, b) in S
      {
        assert (a, b) in S0;
      }
    }
  }

  lemma AllMarked(m: Dbm, f: seq<nat>, B: set<(nat, nat)>, S: set<(nat, nat)>)
    requires Canonical(m) && RepsBelow(m, f, |m|) && CyclesMarked(m, f, B, S, |f|)
    requires forall i: nat, j: nat {:trigger (i, j) in B} :: (i, j) in B <==> i < |m| && j < |m| && KeptBetween(m, i, j)
    ensures S == KeptBits(m)
  {
    forall i: nat, j: nat ensures (i, j) in S <==> (i, j) in KeptBits(m) {
      if i < |m| && j < |m| && KeptInCycle(m, i, j) {
        var p := RepOf(m, i);
        assert p in f;
      }
    }
    forall e: (nat, nat) ensures e in S <==> e in KeptBits(m) {
      assert e == (e.0, e.1);
    }
  }

  /** mingraph_analyzeForMinDBM: marks exactly the constraints of the minimal graph, and counts them. */
  method Analyze(dbm: array2<Raw>, bits: array<Word>) returns (cnt: nat)
    requires IsSquare(dbm) && Canonical(Mat(dbm)) && dbm.Length0 <= NONE
    requires bits.Length == WordsFor(Cells(dbm.Length0))
    modifies bits
    ensures MarksPairs(bits[..], dbm.Length0, KeptBits(Mat(dbm))) && cnt == |KeptBits(Mat(dbm))|
  {
    var dim := dbm.Length0;
    var first, next := new nat[dim](_ => 0), new nat[dim](_ => 0);
    var w := 0;
    while w < bits.Length
      invariant 0 <= w <= bits.Length
      invariant forall x :: 0 <= x < w ==> bits[x] == 0
      invariant forall x :: 0 <= x < next.Length ==> next[x] == 0
    {
      bits[w] := 0;
      w := w + 1;
    }
    NothingMarked(bits[..], dim);
    var end := FindClasses(dbm, first, next);
    ghost var B;
    cnt, B := MarkBetween(dbm, first[..end], bits);
    cnt := MarkCycles(dbm, first[..end], next[..], bits, cnt, B);
  }

  lemma NothingMarked(bits: seq<Word>, n: nat)
    requires |bits| == WordsFor(Cells(n)) && forall x :: 0 <= x < |bits| ==> bits[x] == 0
    ensures MarksPairs(bits, n, {})
  {
    forall i: nat, j: nat {:trigger Marked(bits, n, i, j)} ensures !Marked(bits, n, i, j) {
      if i < n && j < n && Flat(n, i, j) < 32 * |bits| {
        NoBits(0, Flat(n, i, j) % 32);
      }
    }
    SameMarks(bits, n, {});
  }

  // ----- Up to two clocks -----

  /** With at most one clock besides the reference, every finite constraint is kept. */
  lemma SmallKept(m: Dbm, i: nat, j: nat)
    requires Valid(m) && |m| <= 2
    ensures (i, j) in KeptBits(m) <==> |m| == 2 && ((i == 0 && j == 1) || (i == 1 && j == 0 && m[1][0].Bound?))
  {
    if |m| == 2 {
      assert Le(m[0][1], LE_ZERO);
      assert Tied(m, 0, 1) <==> Tied(m, 1, 0);
      assert IsRep(m, 0);
      if Tied(m, 0, 1) {
        assert IsNext(m, 0, 1) && IsLast(m, 1);
      } else {
        assert IsRep(m, 1);
        assert KeptBetween(m, 0, 1) && (m[1][0].Bound? ==> KeptBetween(m, 1, 0));
      }
    }
  }

  lemma SmallMarks(bits: seq<Word>, n: nat, i: nat, j: nat)
    requires 1 <= n <= 2 && |bits| == 1 && bits[0] in {0, 2, 6}
    ensures Marked(bits, n, i, j) <==> n == 2 && ((i == 0 && j == 1 && bits[0] != 0) || (i == 1 && j == 0 && bits[0] == 6))
  {
    if i < n && j < n {
      assert Flat(n, i, j) == n * i + j;
    }
  }

  /** dbm_analyzeForMinDBM: up to dimension 2 the answer is known. */
  method AnalyzeForMinDBM(dbm: array2<Raw>, bits: array<Word>) returns (cnt: nat)
    requires IsSquare(dbm) && Valid(Mat(dbm)) && dbm.Length0 <= NONE
    requires bits.Length == WordsFor(Cells(dbm.Length0))
    modifies bits
    ensures MarksPairs(bits[..], dbm.Length0, KeptBits(Mat(dbm))) && cnt == |KeptBits(Mat(dbm))|
  {
    ghost var m := Mat(dbm);
    if dbm.Length0 > 2 {
      cnt := Analyze(dbm, bits);
      return;
    }
    SmallTable(dbm.Length0);
    if dbm.Length0 == 1 {
      bits[0], cnt := 0, 0;
    } else if dbm[1, 0] == Inf {
      bits[0], cnt := 2, 1;
    } else {
      bits[0], cnt := 6, 2;
    }
    SmallCount(m, bits[..]);
  }

  lemma SmallTable(n: nat)
    requires 1 <= n <= 2
    ensures WordsFor(Cells(n)) == 1
  {
  }

  lemma SmallCount(m: Dbm, bits: seq<Word>)
    requires Valid(m) && |m| <= 2 && |bits| == 1
    requires bits[0] == if |m| == 1 then 0 else if m[1][0] == Inf then 2 else 6
    ensures MarksPairs(bits, |m|, KeptBits(m))
    ensures |KeptBits(m)| == if |m| == 1 then 0 else if m[1][0] == Inf then 1 else 2
  {
    SmallTable(|m|);
    forall i: nat, j: nat {:trigger Marked(bits, |m|, i, j)} ensures Marked(bits, |m|, i, j) <==> (i, j) in KeptBits(m) {
      SmallKept(m, i, j);
      SmallMarks(bits, |m|, i, j);
    }
    SameMarks(bits, |m|, KeptBits(m));
    forall i: nat, j: nat {:trigger (i, j) in KeptBits(m)}
      ensures (i, j) in KeptBits(m) <==> |m| == 2 && ((i == 0 && j == 1) || (i == 1 && j == 0 && m[1][0].Bound?))
    {
      SmallKept(m, i, j);
    }
    assert KeptBits(m) == if |m| == 1 then {} else if m[1][0] == Inf then {(0, 1)} else {(0, 1), (1, 0)};
  }
}
