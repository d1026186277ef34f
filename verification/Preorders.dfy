/** Trees kept as predecessor, depth and preorder thread, the way src/infimum.cpp keeps its spanning tree, and
    what re-rooting a subtree does to them.  Nodes are numbers below n; node 0 is the root and has no
    predecessor, which is written as n. */
module Preorders {

  // ----- Orders of all nodes -----

  ghost predicate Distinct(s: seq<nat>) {
    forall i, j {:trigger s[i], s[j]} :: 0 <= i < j < |s| ==> s[i] != s[j]
  }

  lemma {:induction false} CountInSplit(s: seq<nat>, x: nat, i: nat)
    requires i < |s| && s[i] == x
    ensures multiset(s)[x] == 1 + multiset(s[..i])[x] + multiset(s[i + 1..])[x]
  {
    assert s == s[..i] + [s[i]] + s[i + 1..];
  }

  lemma DistinctCounts(s: seq<nat>)
    ensures Distinct(s) <==> forall x: nat :: multiset(s)[x] <= 1
  {
    if Distinct(s) {
      forall x: nat ensures multiset(s)[x] <= 1 {
        if x in s {
          var i :| 0 <= i < |s| && s[i] == x;
          CountInSplit(s, x, i);
          assert x !in s[..i] && x !in s[i + 1..];
        }
      }
    } else {
      var i, j :| 0 <= i < j < |s| && s[i] == s[j];
      CountInSplit(s, s[i], i);
      assert s[i + 1..][j - i - 1] == s[i];
      assert multiset(s)[s[i]] > 1;
    }
  }

  /** Every node occurs exactly once, the root first. */
  ghost predicate IsOrder(ord: seq<nat>, n: nat) {
    |ord| == n > 0 && ord[0] == 0 && Distinct(ord) &&
    (forall k {:trigger ord[k]} :: 0 <= k < n ==> ord[k] < n) && forall x: nat :: x < n ==> x in ord
  }

  lemma SameNodes(ord: seq<nat>, ord': seq<nat>, n: nat)
    requires IsOrder(ord, n) && multiset(ord') == multiset(ord) && |ord'| == n && ord'[0] == 0
    ensures IsOrder(ord', n)
  {
    DistinctCounts(ord);
    DistinctCounts(ord');
    forall k {:trigger ord'[k]} | 0 <= k < n ensures ord'[k] < n {
      assert ord'[k] in multiset(ord');
      assert ord'[k] in ord;
    }
    forall x: nat | x < n ensures x in ord' {
      assert x in ord;
      assert x in multiset(ord');
    }
  }

  // ----- Preorders -----

  /** The k-th node of s hangs under an earlier one, and everything in between is deeper than that one. */
  ghost predicate HungAt(s: seq<nat>, k: nat, j: nat, P: seq<nat>, D: seq<nat>) {
    j < k < |s| && s[j] < |D| && s[k] < |D| && |P| == |D| && s[j] == P[s[k]] && D[s[k]] == D[s[j]] + 1 &&
    forall m {:trigger s[m]} :: j < m < k ==> s[m] < |D| && D[s[m]] > D[s[j]]
  }

  ghost predicate Hung(s: seq<nat>, k: nat, P: seq<nat>, D: seq<nat>) {
    exists j: nat :: HungAt(s, k, j, P, D)
  }

  /** s is a preorder of a tree with root s[0]. */
  ghost predicate Grown(s: seq<nat>, P: seq<nat>, D: seq<nat>) {
    |s| > 0 && |P| == |D| && s[0] < |D| && forall k: nat {:trigger Hung(s, k, P, D)} :: 1 <= k < |s| ==> Hung(s, k, P, D)
  }

  /** T leads from each node of s to the next. */
  ghost predicate Chain(T: seq<nat>, s: seq<nat>) {
    (forall k {:trigger s[k]} :: 0 <= k < |s| ==> s[k] < |T|) &&
    forall k {:trigger T[s[k]]} :: 0 <= k < |s| - 1 ==> T[s[k]] == s[k + 1]
  }

  /** The spanning tree: predecessors lead to the root, depth counts them, and the thread runs through all nodes
      in preorder and back to the root. */
  ghost predicate TreeOK(ord: seq<nat>, P: seq<nat>, D: seq<nat>, T: seq<nat>) {
    |P| == |D| == |T| && IsOrder(ord, |P|) && P[0] == |P| && D[0] == 0 && Grown(ord, P, D) && Chain(T, ord + [0])
  }

  /** The t-th predecessor. */
  function Up(P: seq<nat>, x: nat, t: nat): nat
    decreases t
  {
    if t == 0 || x >= |P| then x else Up(P, P[x], t - 1)
  }

  lemma PositionOf(ord: seq<nat>, n: nat, x: nat) returns (p: nat)
    requires IsOrder(ord, n) && x < n
    ensures p < n && ord[p] == x
  {
    assert x in ord;
    p :| 0 <= p < n && ord[p] == x;
  }

  /** Every node but the root has a predecessor, one level up. */
  lemma HasPred(ord: seq<nat>, P: seq<nat>, D: seq<nat>, x: nat)
    requires |P| == |D| && IsOrder(ord, |P|) && Grown(ord, P, D) && 0 < x < |P|
    ensures P[x] < |P| && D[x] == D[P[x]] + 1
  {
    var p := PositionOf(ord, |P|, x);
    assert Hung(ord, p, P, D);
  }

  // ----- Subtrees are blocks -----

  /** The positions from p to e hold the subtree of the node at p. */
  ghost predicate IsBlock(ord: seq<nat>, D: seq<nat>, p: nat, e: nat) {
    p < e <= |ord| && (forall k {:trigger ord[k]} :: 0 <= k < |ord| ==> ord[k] < |D|) &&
    (forall m {:trigger ord[m]} :: p < m < e ==> D[ord[m]] > D[ord[p]]) &&
    (e < |ord| ==> D[ord[e]] <= D[ord[p]])
  }

  /** A node inside a block other than its first hangs under a node of the block. */
  lemma HungInBlock(ord: seq<nat>, P: seq<nat>, D: seq<nat>, p: nat, e: nat, m: nat, j: nat)
    requires IsBlock(ord, D, p, e) && p < m < e && HungAt(ord, m, j, P, D)
    ensures p <= j
  {
    assert D[ord[m]] > D[ord[p]];
  }

  /** A node behind a block hangs under a node outside the block. */
  lemma HungBehindBlock(ord: seq<nat>, P: seq<nat>, D: seq<nat>, p: nat, e: nat, m: nat, j: nat)
    requires IsBlock(ord, D, p, e) && e <= m < |ord| && HungAt(ord, m, j, P, D)
    ensures j < p || e <= j
  {
    assert D[ord[e]] <= D[ord[p]];
  }

  /** Each subtree is one contiguous block of the thread: the nodes of the block are those from which
      the predecessors lead to its first node. */
  lemma {:induction false} BlockIsSubtree(ord: seq<nat>, P: seq<nat>, D: seq<nat>, p: nat, e: nat, m: nat)
    requires |P| == |D| && IsOrder(ord, |P|) && Grown(ord, P, D) && IsBlock(ord, D, p, e) && p <= m < e
    ensures D[ord[p]] <= D[ord[m]] && Up(P, ord[m], D[ord[m]] - D[ord[p]]) == ord[p]
    decreases m
  {
    if m > p {
      assert Hung(ord, m, P, D);
      var j: nat :| HungAt(ord, m, j, P, D);
      HungInBlock(ord, P, D, p, e, m, j);
      BlockIsSubtree(ord, P, D, p, e, j);
    }
  }

  lemma {:induction false} SubtreeIsBlock(ord: seq<nat>, P: seq<nat>, D: seq<nat>, p: nat, e: nat, m: nat, t: nat)
    requires |P| == |D| && IsOrder(ord, |P|) && Grown(ord, P, D) && IsBlock(ord, D, p, e) && m < |ord|
    requires t <= D[ord[m]] && D[0] == 0 && Up(P, ord[m], t) == ord[p]
    ensures p <= m < e
    decreases t
  {
    if t == 0 {
      assert m == p;
    } else {
      assert m > 0;
      assert Hung(ord, m, P, D);
      var j: nat :| HungAt(ord, m, j, P, D);
      SubtreeIsBlock(ord, P, D, p, e, j, t - 1);
      if m >= e {
        HungBehindBlock(ord, P, D, p, e, m, j);
      }
    }
  }

  // ----- Pieces of a walk -----

  lemma ChainParts(T: seq<nat>, a: seq<nat>, b: seq<nat>)
    requires |a| > 0 && |b| > 0
    ensures Chain(T, a + b) <==> Chain(T, a) && Chain(T, b) && T[a[|a| - 1]] == b[0]
  {
    var s := a + b;
    if Chain(T, s) {
      forall k {:trigger a[k]} | 0 <= k < |a| ensures a[k] < |T| {
        assert s[k] == a[k];
      }
      forall k {:trigger b[k]} | 0 <= k < |b| ensures b[k] < |T| {
        assert s[|a| + k] == b[k];
      }
      forall k {:trigger T[a[k]]} | 0 <= k < |a| - 1 ensures T[a[k]] == a[k + 1] {
        assert T[s[k]] == s[k + 1];
      }
      forall k {:trigger T[b[k]]} | 0 <= k < |b| - 1 ensures T[b[k]] == b[k + 1] {
        assert T[s[|a| + k]] == s[|a| + k + 1];
      }
      assert T[s[|a| - 1]] == s[|a|];
    }
  }

  /** Changing T at nodes outside s, or at its last node, keeps the chain. */
  lemma ChainKept(T: seq<nat>, T': seq<nat>, s: seq<nat>)
    requires Chain(T, s) && |T'| == |T|
    requires forall k {:trigger s[k]} :: 0 <= k < |s| - 1 ==> T'[s[k]] == T[s[k]]
    ensures Chain(T', s)
  {
  }

  // ----- Cutting and joining preorders -----

  /** A block without a block inside it (or without nothing, when p == e). */
  function Cut(ord: seq<nat>, p0: nat, p: nat, e: nat, e0: nat): seq<nat>
    requires p0 <= p <= e <= e0 <= |ord|
  {
    ord[p0..p] + ord[e..e0]
  }

  /** Where the t-th node of a cut is in the order. */
  function CutAt(p0: nat, p: nat, e: nat, t: nat): nat
    requires p0 <= p <= e
  {
    if t < p - p0 then p0 + t else e + (t - (p - p0))
  }

  lemma CutNode(ord: seq<nat>, p0: nat, p: nat, e: nat, e0: nat, t: nat)
    requires p0 <= p <= e <= e0 <= |ord| && t < p - p0 + e0 - e
    ensures CutAt(p0, p, e, t) < e0 && Cut(ord, p0, p, e, e0)[t] == ord[CutAt(p0, p, e, t)]
  {
  }

  /** A cut of a preorder is a preorder. */
  lemma CutGrown(ord: seq<nat>, P: seq<nat>, D: seq<nat>, p0: nat, p: nat, e: nat, e0: nat)
    requires Grown(ord, P, D) && IsBlock(ord, D, p0, e0) && p0 < p <= e <= e0 && (p < e ==> IsBlock(ord, D, p, e))
    ensures Grown(Cut(ord, p0, p, e, e0), P, D)
  {
    var s := Cut(ord, p0, p, e, e0);
    forall t: nat {:trigger Hung(s, t, P, D)} | 1 <= t < |s| ensures Hung(s, t, P, D) {
      CutHung(ord, P, D, p0, p, e, e0, t);
    }
  }

  lemma CutHung(ord: seq<nat>, P: seq<nat>, D: seq<nat>, p0: nat, p: nat, e: nat, e0: nat, t: nat)
    requires Grown(ord, P, D) && IsBlock(ord, D, p0, e0) && p0 < p <= e <= e0 && (p < e ==> IsBlock(ord, D, p, e))
    requires 1 <= t < p - p0 + e0 - e
    ensures Hung(Cut(ord, p0, p, e, e0), t, P, D)
  {
    var s := Cut(ord, p0, p, e, e0);
    var m := CutAt(p0, p, e, t);
    assert Hung(ord, m, P, D);
    var j: nat :| HungAt(ord, m, j, P, D);
    HungInBlock(ord, P, D, p0, e0, m, j);
    if p < e <= m {
      HungBehindBlock(ord, P, D, p, e, m, j);
    }
    var u := if j < p then j - p0 else p - p0 + (j - e);
    CutNode(ord, p0, p, e, e0, u);
    CutNode(ord, p0, p, e, e0, t);
    forall x {:trigger s[x]} | u < x < t ensures s[x] < |D| && D[s[x]] > D[s[u]] {
      CutNode(ord, p0, p, e, e0, x);
    }
    assert HungAt(s, t, u, P, D);
  }

  /** Depths all raised or lowered by the same amount, and another predecessor for the first node. */
  ghost predicate Shifted(s: seq<nat>, P: seq<nat>, D: seq<nat>, P': seq<nat>, D': seq<nat>, c: int) {
    |P| == |D| == |P'| == |D'| && (forall k {:trigger s[k]} :: 0 <= k < |s| ==> s[k] < |D| && D'[s[k]] == D[s[k]] + c) &&
    forall k {:trigger P[s[k]]} :: 1 <= k < |s| ==> P'[s[k]] == P[s[k]]
  }

  lemma ShiftedGrown(s: seq<nat>, P: seq<nat>, D: seq<nat>, P': seq<nat>, D': seq<nat>, c: int)
    requires Grown(s, P, D) && Shifted(s, P, D, P', D', c)
    ensures Grown(s, P', D')
  {
    forall t: nat {:trigger Hung(s, t, P', D')} | 1 <= t < |s| ensures Hung(s, t, P', D') {
      assert Hung(s, t, P, D);
      var j: nat :| HungAt(s, t, j, P, D);
      assert P'[s[t]] == P[s[t]];
      assert HungAt(s, t, j, P', D');
    }
  }

  /** From position x on, everything is deeper than the node there. */
  ghost predicate OpenAt(s: seq<nat>, x: nat, D: seq<nat>) {
    x < |s| && (forall k {:trigger s[k]} :: 0 <= k < |s| ==> s[k] < |D|) &&
    forall m {:trigger s[m]} :: x < m < |s| ==> D[s[m]] > D[s[x]]
  }

  lemma NodesKnown(s: seq<nat>, P: seq<nat>, D: seq<nat>, k: nat)
    requires Grown(s, P, D) && k < |s|
    ensures s[k] < |D|
  {
    if k > 0 {
      assert Hung(s, k, P, D);
    }
  }

  /** A tree can be appended as the last child of a node that is still open. */
  lemma AppendGrown(a: seq<nat>, b: seq<nat>, P: seq<nat>, D: seq<nat>, x: nat)
    requires Grown(a, P, D) && Grown(b, P, D) && OpenAt(a, x, D) && P[b[0]] == a[x] && D[b[0]] == D[a[x]] + 1
    ensures Grown(a + b, P, D)
  {
    var s := a + b;
    forall t: nat {:trigger Hung(s, t, P, D)} | 1 <= t < |s| ensures Hung(s, t, P, D) {
      if t < |a| {
        assert Hung(a, t, P, D);
        var j: nat :| HungAt(a, t, j, P, D);
        assert HungAt(s, t, j, P, D);
      } else if t == |a| {
        assert HungAt(s, t, x, P, D);
      } else {
        assert Hung(b, t - |a|, P, D);
        var j: nat :| HungAt(b, t - |a|, j, P, D);
        forall m {:trigger s[m]} | |a| + j < m < t ensures s[m] < |D| && D[s[m]] > D[s[|a| + j]] {
          assert s[m] == b[m - |a|];
        }
        assert HungAt(s, t, |a| + j, P, D);
      }
    }
  }

  /** A tree b can be inserted right behind the node at x, as its first child. */
  lemma InsertGrown(a: seq<nat>, x: nat, b: seq<nat>, P: seq<nat>, D: seq<nat>)
    requires Grown(a, P, D) && Grown(b, P, D) && x < |a| && P[b[0]] == a[x] && a[x] < |D| && D[b[0]] == D[a[x]] + 1
    requires forall k {:trigger b[k]} :: 0 <= k < |b| ==> b[k] < |D| && D[b[k]] > D[a[x]]
    ensures Grown(a[..x + 1] + b + a[x + 1..], P, D)
  {
    var s := a[..x + 1] + b + a[x + 1..];
    forall t: nat {:trigger Hung(s, t, P, D)} | 1 <= t < |s| ensures Hung(s, t, P, D) {
      if t <= x {
        assert Hung(a, t, P, D);
        var j: nat :| HungAt(a, t, j, P, D);
        assert HungAt(s, t, j, P, D);
      } else if t == x + 1 {
        assert HungAt(s, t, x, P, D);
      } else if t < x + 1 + |b| {
        InsertedHung(a, x, b, P, D, t);
      } else {
        BehindInsertedHung(a, x, b, P, D, t);
      }
    }
  }

  lemma InsertedHung(a: seq<nat>, x: nat, b: seq<nat>, P: seq<nat>, D: seq<nat>, t: nat)
    requires Grown(b, P, D) && x < |a| && x + 1 < t < x + 1 + |b|
    ensures Hung(a[..x + 1] + b + a[x + 1..], t, P, D)
  {
    var s := a[..x + 1] + b + a[x + 1..];
    assert Hung(b, t - (x + 1), P, D);
    var j: nat :| HungAt(b, t - (x + 1), j, P, D);
    forall m {:trigger s[m]} | x + 1 + j < m < t ensures s[m] < |D| && D[s[m]] > D[s[x + 1 + j]] {
      assert s[m] == b[m - (x + 1)];
    }
    assert HungAt(s, t, x + 1 + j, P, D);
  }

  lemma BehindInsertedHung(a: seq<nat>, x: nat, b: seq<nat>, P: seq<nat>, D: seq<nat>, t: nat)
    requires Grown(a, P, D) && x < |a| && a[x] < |D| && x + 1 + |b| <= t < |a| + |b|
    requires forall k {:trigger b[k]} :: 0 <= k < |b| ==> b[k] < |D| && D[b[k]] > D[a[x]]
    ensures Hung(a[..x + 1] + b + a[x + 1..], t, P, D)
  {
    var s := a[..x + 1] + b + a[x + 1..];
    assert Hung(a, t - |b|, P, D);
    var j: nat :| HungAt(a, t - |b|, j, P, D);
    var u := if j <= x then j else j + |b|;
    assert j < x ==> D[a[x]] > D[a[j]];
    forall m {:trigger s[m]} | u < m < t ensures s[m] < |D| && D[s[m]] > D[s[u]] {
      if x < m < x + 1 + |b| {
        assert s[m] == b[m - (x + 1)];
      } else if m <= x {
        assert s[m] == a[m];
      } else {
        assert s[m] == a[m - |b|];
      }
    }
    assert HungAt(s, t, u, P, D);
  }
}
