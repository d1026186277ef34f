/** The spanning tree of the network simplex algorithm in src/infimum.cpp, and the re-rooting of a subtree in
    place (updateNonRootSubtree).

    A node is its index in the tree; the null predecessor of the root is the number of nodes.  Potentials are
    not modelled: nothing here depends on costs. */
module SpanningTree {
  import opened Preorders
  import opened Rerooting
  import opened Flows

  /** The predecessors once the first k + 1 nodes of the path hang under the node before, the first one under r. */
  ghost function Rehung(P: seq<nat>, path: seq<nat>, r: nat, k: nat): (P': seq<nat>)
    requires k < |path| && forall l {:trigger path[l]} :: 0 <= l < |path| ==> path[l] < |P|
    ensures |P'| == |P|
  {
    if k == 0 then P[path[0] := r] else Rehung(P, path, r, k - 1)[path[k] := path[k - 1]]
  }

  lemma NextOnPath(P: seq<nat>, path: seq<nat>, k: nat)
    requires IsPath(P, path) && k < |path| && path[k] != path[|path| - 1]
    ensures k + 1 < |path| && P[path[k]] == path[k + 1]
  {
  }

  lemma PathEnd(path: seq<nat>, k: nat)
    requires Distinct(path) && k < |path| && path[k] == path[|path| - 1]
    ensures k == |path| - 1
  {
  }

  lemma EndOfPath(ord: seq<nat>, P: seq<nat>, D: seq<nat>, path: seq<nat>, k: nat)
    requires |P| == |D| && IsOrder(ord, |P|) && Grown(ord, P, D) && P[0] == |P| && IsPath(P, path)
    requires k < |path| && path[k] == path[|path| - 1]
    ensures k == |path| - 1
  {
    PathNodes(ord, P, D, path);
    PathEnd(path, k);
  }

  lemma {:induction false} RehungIsReversed(A: Arcs, path: seq<nat>, r: nat, inbound: bool, flow: int, k: nat)
    requires A.OK() && k < |path| && forall l {:trigger path[l]} :: 0 <= l < |path| ==> path[l] < |A.P|
    ensures Reversed(A, path, r, inbound, flow, k).P == Rehung(A.P, path, r, k)
  {
    if k > 0 {
      RehungIsReversed(A, path, r, inbound, flow, k - 1);
    }
  }

  /** The thread outside the collected part. */
  ghost predicate KeptOutside(ord: seq<nat>, T0: seq<nat>, T: seq<nat>, p: nat, e: nat) {
    |T| == |T0| == |ord| && forall m {:trigger ord[m]} :: 0 <= m < |ord| && !(p <= m < e) ==> ord[m] < |T| && T[ord[m]] == T0[ord[m]]
  }

  /** The thread walks through the re-rooted part and is otherwise unchanged. */
  ghost predicate Threading(ord: seq<nat>, P: seq<nat>, D: seq<nat>, T0: seq<nat>, T: seq<nat>, p: nat, e: nat, q: nat, r: nat,
    N: seq<nat>, P': seq<nat>, D': seq<nat>, x: nat)
  {
    Rerooted(ord, P, D, p, e, q, r, N, P', D', x) && |T| == |P| && Chain(T, N) && KeptOutside(ord, T0, T, p, e)
  }

  /** The ghost state of one step up. */
  datatype Step = Step(p: nat, e: nat, N: seq<nat>, P': seq<nat>, D': seq<nat>, x: nat)

  ghost predicate Threaded(ord: seq<nat>, P: seq<nat>, D: seq<nat>, T0: seq<nat>, T: seq<nat>, q: nat, r: nat, g: Step) {
    Threading(ord, P, D, T0, T, g.p, g.e, q, r, g.N, g.P', g.D', g.x)
  }

  /** Where the loop on the way up is: at node i, with the last node collected and the one behind the block. */
  ghost predicate Collected(ord: seq<nat>, P: seq<nat>, D: seq<nat>, T0: seq<nat>, T: seq<nat>, q: nat, r: nat, g: Step,
    i: nat, lastOut: nat, preorderOut: nat)
  {
    Threaded(ord, P, D, T0, T, q, r, g) && i == ord[g.p] && lastOut == g.N[|g.N| - 1] && preorderOut == (ord + [0])[g.e]
  }

  lemma DistinctSlice(s: seq<nat>, a: nat, b: nat)
    requires Distinct(s) && a <= b <= |s|
    ensures Distinct(s[a..b])
  {
  }

  lemma NodeOfPart(ord: seq<nat>, p: nat, e: nat, N: seq<nat>, k: nat) returns (m: nat)
    requires p <= e <= |ord| && multiset(N) == multiset(ord[p..e]) && k < |N|
    ensures p <= m < e && ord[m] == N[k]
  {
    assert N[k] in multiset(N);
    assert N[k] in ord[p..e];
    var t :| 0 <= t < e - p && ord[p..e][t] == N[k];
    m := p + t;
  }

  /** What one step does to the thread: the last node so far leads to the node at j on the way up, and the last
      node in front of the collected part leads to what is behind it, if there is anything. */
  function StepThread(ord: seq<nat>, T: seq<nat>, j: nat, f: nat, p: nat, e: nat, last: nat): seq<nat>
    requires j < p <= e <= f <= |ord| && last < |T| && (e < f ==> ord[p - 1] < |T|)
  {
    if e < f then T[last := ord[j]][ord[p - 1] := ord[e]] else T[last := ord[j]]
  }

  lemma StepKeepsOutside(ord: seq<nat>, T0: seq<nat>, T: seq<nat>, j: nat, f: nat, p: nat, e: nat, N: seq<nat>)
    requires IsOrder(ord, |T|) && KeptOutside(ord, T0, T, p, e) && j < p < e <= f <= |ord|
    requires |N| > 0 && multiset(N) == multiset(ord[p..e])
    ensures N[|N| - 1] < |T| && ord[p - 1] < |T|
    ensures KeptOutside(ord, T0, T[N[|N| - 1] := ord[j]], p, e)
    ensures KeptOutside(ord, T0, StepThread(ord, T, j, f, p, e, N[|N| - 1]), j, f)
    ensures StepThread(ord, T, j, f, p, e, N[|N| - 1])[N[|N| - 1]] == ord[j]
    ensures forall m {:trigger ord[m]} :: e <= m < f ==> StepThread(ord, T, j, f, p, e, N[|N| - 1])[ord[m]] == T0[ord[m]]
  {
    var last := NodeOfPart(ord, p, e, N, |N| - 1);
    assert ord[last] == N[|N| - 1];
    assert ord[p - 1] != ord[last];
  }

  /** The thread of one step: from the last node so far to the node on the way up, through what is in front of
      the collected part, and through what is behind it. */
  lemma ThreadStep(ord: seq<nat>, T0: seq<nat>, T: seq<nat>, j: nat, f: nat, p: nat, e: nat, N: seq<nat>, T': seq<nat>)
    requires IsOrder(ord, |T|) && KeptOutside(ord, T0, T, p, e) && j < p < e <= f <= |ord| && Chain(T0, ord + [0])
    requires |N| > 0 && multiset(N) == multiset(ord[p..e]) && Chain(T, N)
    requires N[|N| - 1] < |T| && T' == StepThread(ord, T, j, f, p, e, N[|N| - 1])
    ensures Chain(T', N + Cut(ord, j, p, e, f)) && KeptOutside(ord, T0, T', j, f)
  {
    StepKeepsOutside(ord, T0, T, j, f, p, e, N);
    CollectedChain(ord, T, T', p, e, N, f);
    forall m {:trigger ord[m]} | j <= m < p - 1 ensures ord[m] < |T0| && T'[ord[m]] == T0[ord[m]] {
      var last := NodeOfPart(ord, p, e, N, |N| - 1);
      assert ord[m] != ord[p - 1] && ord[m] != ord[last];
    }
    PartChain(ord, T0, T', j, p, e, f);
    ChainParts(T', N, Cut(ord, j, p, e, f));
  }

  lemma LastOfStep(ord: seq<nat>, j: nat, f: nat, p: nat, e: nat, N: seq<nat>, s: seq<nat>)
    requires j < p <= e <= f <= |ord| && s == N + Cut(ord, j, p, e, f)
    ensures |s| > 0 && s[|s| - 1] == if e < f then ord[f - 1] else ord[p - 1]
  {
  }

  lemma WalkSlice(ord: seq<nat>, a: nat, b: nat)
    requires a + 1 < b <= |ord|
    ensures (ord + [0])[a..b] == ord[a..b] && |ord[a..b]| == b - a
    ensures ord[a..b][0] == ord[a] && ord[a..b][b - a - 1] == ord[b - 1] && ord[a..b][b - a - 2] == ord[b - 2]
  {
  }

  /** The collected part is walked through as before. */
  lemma CollectedChain(ord: seq<nat>, T: seq<nat>, T': seq<nat>, p: nat, e: nat, N: seq<nat>, f: nat)
    requires Distinct(ord) && 0 < p <= e <= |ord| && multiset(N) == multiset(ord[p..e]) && |N| > 0
    requires Chain(T, N) && |T'| == |T|
    requires forall y: nat {:trigger T'[y]} :: y < |T| && y != N[|N| - 1] && (e < f ==> y != ord[p - 1]) ==> T'[y] == T[y]
    ensures Chain(T', N)
  {
    DistinctCounts(ord[p..e]);
    DistinctSlice(ord, p, e);
    DistinctCounts(N);
    forall k {:trigger N[k]} | 0 <= k < |N| - 1 ensures T'[N[k]] == T[N[k]] {
      var m := NodeOfPart(ord, p, e, N, k);
      assert N[k] != N[|N| - 1] && ord[m] != ord[p - 1];
    }
    ChainKept(T, T', N);
  }

  /** What is in front of the collected part, and what is behind it. */
  lemma PartChain(ord: seq<nat>, T0: seq<nat>, T': seq<nat>, j: nat, p: nat, e: nat, f: nat)
    requires Chain(T0, ord + [0]) && |T'| == |T0| && j < p <= e <= f <= |ord|
    requires forall m {:trigger ord[m]} :: j <= m < p - 1 || e <= m < f ==> ord[m] < |T0| && T'[ord[m]] == T0[ord[m]]
    requires e < f ==> ord[p - 1] < |T0| && T'[ord[p - 1]] == ord[e]
    ensures Chain(T', Cut(ord, j, p, e, f))
    ensures var part := Cut(ord, j, p, e, f); part[0] == ord[j] && part[|part| - 1] == if e < f then ord[f - 1] else ord[p - 1]
  {
    var w := ord + [0];
    WalkKept(T0, T', ord, j, p - 1);
    assert w[j..p] == ord[j..p];
    if e < f {
      FrontAndBack(ord, T0, T', j, p, e, f);
    } else {
      assert Cut(ord, j, p, e, f) == ord[j..p];
    }
  }

  lemma FrontAndBack(ord: seq<nat>, T0: seq<nat>, T': seq<nat>, j: nat, p: nat, e: nat, f: nat)
    requires Chain(T0, ord + [0]) && |T'| == |T0| && j < p <= e < f <= |ord| && Chain(T', ord[j..p])
    requires forall m {:trigger ord[m]} :: e <= m < f ==> ord[m] < |T0| && T'[ord[m]] == T0[ord[m]]
    requires ord[p - 1] < |T0| && T'[ord[p - 1]] == ord[e]
    ensures Chain(T', Cut(ord, j, p, e, f))
  {
    WalkKept(T0, T', ord, e, f - 1);
    assert (ord + [0])[e..f] == ord[e..f];
    ChainParts(T', ord[j..p], ord[e..f]);
  }

  /** The walk from the node at j to the one at p. */
  lemma FrontWalk(ord: seq<nat>, T0: seq<nat>, T: seq<nat>, j: nat, p: nat, e: nat) returns (s: seq<nat>)
    requires Distinct(ord) && Chain(T0, ord + [0]) && KeptOutside(ord, T0, T, p, e) && j < p < |ord|
    ensures |s| >= 2 && s[0] == ord[j] && s[|s| - 1] == ord[p] && s[|s| - 2] == ord[p - 1] && Distinct(s) && Chain(T, s)
  {
    s := FrontSlice(ord, j, p);
    WalkKept(T0, T, ord, j, p);
  }

  lemma FrontSlice(ord: seq<nat>, j: nat, p: nat) returns (s: seq<nat>)
    requires Distinct(ord) && j < p < |ord|
    ensures s == (ord + [0])[j..p + 1] && |s| >= 2 && s[0] == ord[j] && s[|s| - 1] == ord[p] && s[|s| - 2] == ord[p - 1] && Distinct(s)
  {
    s := ord[j..p + 1];
    DistinctSlice(ord, j, p + 1);
    WalkSlice(ord, j, p + 1);
  }

  /** The walk through a block, and on to what is behind it. */
  lemma BlockWalk(ord: seq<nat>, T0: seq<nat>, T: seq<nat>, p: nat, e: nat) returns (s: seq<nat>)
    requires Chain(T0, ord + [0]) && |T| == |T0| && p < e <= |ord|
    requires forall m {:trigger ord[m]} :: p <= m < e ==> ord[m] < |T0| && T[ord[m]] == T0[ord[m]]
    ensures |s| == e - p + 1 && Chain(T, s) && s[|s| - 1] == (ord + [0])[e] && s[|s| - 2] == ord[e - 1]
    ensures forall m {:trigger s[m]} :: 0 <= m < |s| - 1 ==> s[m] == ord[p + m]
  {
    s := (ord + [0])[p..e + 1];
    WalkKept(T0, T, ord, p, e);
    BlockSlice(ord, p, e);
  }

  lemma BlockSlice(ord: seq<nat>, p: nat, e: nat)
    requires p < e <= |ord|
    ensures var s := (ord + [0])[p..e + 1];
      |s| == e - p + 1 && s[|s| - 1] == (ord + [0])[e] && forall m {:trigger s[m]} :: 0 <= m < |s| - 1 ==> s[m] == ord[p + m]
  {
  }

  class Tree {
    const n: nat
    const pred: array<nat>
    const depth: array<nat>
    const thread: array<nat>
    const inbound: array<bool>
    const flow: array<int>

    ghost predicate Shape() {
      n > 0 && pred.Length == depth.Length == thread.Length == inbound.Length == flow.Length == n &&
      pred != depth && pred != thread && depth != thread &&
      flow as object != pred && flow as object != depth && flow as object != thread
    }

    /** A tree with this preorder of its nodes. */
    ghost predicate Spans(ord: seq<nat>)
      reads pred, depth, thread
    {
      Shape() && TreeOK(ord, pred[..], depth[..], thread[..])
    }

    /** findLastNodeBefore: the node from which the thread goes on to `exclude`.  Ghost s is the walk. */
    method FindLastNodeBefore(node: nat, exclude: nat, ghost s: seq<nat>) returns (i: nat)
      requires Shape() && |s| >= 2 && s[0] == node && s[|s| - 1] == exclude && Distinct(s) && Chain(thread[..], s)
      ensures i == s[|s| - 2]
    {
      i := node;
      ghost var k := 0;
      var next := thread[node];
      assert thread[..][s[0]] == s[1];
      while next != exclude
        invariant k < |s| - 1 && i == s[k] && next == s[k + 1]
        decreases |s| - k
      {
        i := next;
        next := thread[i];
        assert thread[..][s[k + 1]] == s[k + 2];
        k := k + 1;
      }
      assert s[k + 1] == s[|s| - 1];
    }

    /** findLastNodeBefore with a depth: the node from which the thread goes on to a depth of d or less. */
    method FindLastNodeAbove(node: nat, d: nat, ghost s: seq<nat>) returns (i: nat)
      requires Shape() && |s| >= 2 && s[0] == node && Chain(thread[..], s)
      requires forall m {:trigger s[m]} :: 0 < m < |s| - 1 ==> s[m] < n && depth[s[m]] > d
      requires s[|s| - 1] < n && depth[s[|s| - 1]] <= d
      ensures i == s[|s| - 2]
    {
      i := node;
      ghost var k := 0;
      var next := thread[node];
      assert thread[..][s[0]] == s[1];
      while depth[next] > d
        invariant k < |s| - 1 && i == s[k] && next == s[k + 1] && next < n
        decreases |s| - k
      {
        i := next;
        next := thread[i];
        assert thread[..][s[k + 1]] == s[k + 2];
        k := k + 1;
        assert s[k + 1] == next;
      }
    }

    /** The last node of a block, found from its first node by depth. */
    method LastOfBlock(node: nat, d: nat, ghost ord: seq<nat>, ghost T0: seq<nat>, ghost p: nat, ghost e: nat) returns (i: nat)
      requires Shape() && IsOrder(ord, n) && Chain(T0, ord + [0]) && |T0| == n && p < e <= n && node == ord[p]
      requires depth[0] == 0 && forall m {:trigger ord[m]} :: p < m < e ==> depth[ord[m]] > d
      requires e < n ==> depth[ord[e]] <= d
      requires forall m {:trigger ord[m]} :: p <= m < e ==> thread[ord[m]] == T0[ord[m]]
      ensures i == ord[e - 1] && thread[i] == (ord + [0])[e]
    {
      ghost var s := BlockWalk(ord, T0, thread[..], p, e);
      forall m {:trigger s[m]} | 0 < m < |s| - 1 ensures s[m] < n && depth[s[m]] > d {
        assert s[m] == ord[p + m];
      }
      i := FindLastNodeAbove(node, d, s);
      assert thread[..][s[|s| - 2]] == s[|s| - 1];
    }

    /** The last node so far leads to i; then the last node in front of i0 is looked for. */
    method StepFront(i: nat, i0: nat, lastOut0: nat, ghost ord: seq<nat>, ghost T0: seq<nat>, ghost j: nat, ghost p: nat, ghost e: nat)
      returns (lastOut: nat)
      requires Shape() && IsOrder(ord, n) && Chain(T0, ord + [0]) && j < p < e <= n && ord[j] == i && ord[p] == i0 && lastOut0 < n
      requires KeptOutside(ord, T0, thread[..][lastOut0 := i], p, e)
      modifies thread
      ensures thread[..] == old(thread[..])[lastOut0 := i] && lastOut == ord[p - 1]
    {
      thread[lastOut0] := i;
      ghost var s := FrontWalk(ord, T0, thread[..], j, p, e);
      lastOut := FindLastNodeBefore(i, i0, s);
    }

    /** When there is something behind the collected part, lead there and on to its last node. */
    method StepBack(i: nat, lastOut0: nat, preorderOut0: nat, ghost ord: seq<nat>, ghost T0: seq<nat>, ghost j: nat, ghost f: nat, ghost p: nat, ghost e: nat)
      returns (lastOut: nat, preorderOut: nat)
      requires Shape() && IsOrder(ord, n) && Chain(T0, ord + [0]) && |T0| == n && depth[0] == 0 && IsBlock(ord, depth[..], j, f)
      requires j < p < e <= f && i == ord[j] && lastOut0 == ord[p - 1] && preorderOut0 == (ord + [0])[e]
      requires e < f <==> pred[preorderOut0] == i
      requires forall m {:trigger ord[m]} :: e <= m < f ==> thread[..][ord[p - 1] := ord[e]][ord[m]] == T0[ord[m]]
      modifies thread
      ensures thread[..] == if e < f then old(thread[..])[ord[p - 1] := ord[e]] else old(thread[..])
      ensures lastOut == (if e < f then ord[f - 1] else ord[p - 1]) && preorderOut == (ord + [0])[f]
    {
      lastOut, preorderOut := lastOut0, preorderOut0;
      if i == pred[preorderOut] {
        thread[lastOut] := preorderOut;
        lastOut := LastOfBlock(preorderOut, depth[i], ord, T0, e, f);
        preorderOut := thread[lastOut];
      }
    }

    /** One turn of the loop that updates the thread: from the node at g.p to its predecessor. */
    method StepUp(i0: nat, lastOut0: nat, preorderOut0: nat, ghost ord: seq<nat>, ghost T0: seq<nat>, ghost q: nat, ghost r: nat, ghost g: Step)
      returns (i: nat, lastOut: nat, preorderOut: nat, ghost g': Step)
      requires Shape() && Grown(ord, pred[..], depth[..]) && pred[0] == n && depth[0] == 0 && Chain(T0, ord + [0])
      requires Collected(ord, pred[..], depth[..], T0, thread[..], q, r, g, i0, lastOut0, preorderOut0) && i0 != 0
      modifies thread
      ensures Collected(ord, pred[..], depth[..], T0, thread[..], q, r, g', i, lastOut, preorderOut)
      ensures i == pred[i0] && g'.P' == g.P'[i := i0]
    {
      ghost var P, D, T := pred[..], depth[..], thread[..];
      ghost var p, e := g.p, g.e;
      ghost var j, f := NextBlock(ord, P, D, p, e);
      StepKeepsOutside(ord, T0, T, j, f, p, e, g.N);
      SomethingBehind(ord, P, D, j, f, p, e);
      i := pred[i0];
      lastOut := StepFront(i, i0, lastOut0, ord, T0, j, p, e);
      lastOut, preorderOut := StepBack(i, lastOut, preorderOut0, ord, T0, j, f, p, e);
      g' := NextStep(ord, P, D, T0, T, q, r, g, j, f);
      LastOfStep(ord, j, f, p, e, g.N, g'.N);
    }

    /** The block of q is what is collected first. */
    method StartAt(r: nat, q: nat, ghost ord: seq<nat>, ghost path: seq<nat>) returns (lastOut: nat, preorderOut: nat, ghost g: Step, ghost k: nat)
      requires Spans(ord) && q < n && r < n && IsPath(pred[..], path) && path[0] == q
      ensures k == 0 && CollectedTo(ord, thread[..], r, path, k, g, q, lastOut, preorderOut)
    {
      ghost var p := PositionOf(ord, n, q);
      ghost var e := EndOfBlock(ord, depth[..], p, p + 1);
      lastOut := LastOfBlock(q, depth[q], ord, thread[..], p, e);
      preorderOut := thread[lastOut];
      g := FirstStep(ord, pred[..], depth[..], thread[..], p, e, r);
      k := 0;
      assert g.P' == Rehung(pred[..], path, r, k);
    }

    /** The loop that updates the thread on the way up from q to `leave`. */
    method CollectSubtree(r: nat, q: nat, leave: nat, ghost ord: seq<nat>, ghost path: seq<nat>)
      returns (lastOut: nat, preorderOut: nat, ghost g: Step, ghost k: nat)
      requires Spans(ord) && r < n && IsPath(pred[..], path) && path[0] == q && path[|path| - 1] == leave
      modifies thread
      ensures k == |path| - 1 && CollectedTo(ord, old(thread[..]), r, path, k, g, leave, lastOut, preorderOut)
    {
      lastOut, preorderOut, g, k := StartAt(r, q, ord, path);
      lastOut, preorderOut, g, k := CollectOn(q, leave, lastOut, preorderOut, ord, thread[..], r, path, k, g);
    }

    /** The loop itself, once the block of q is collected. */
    method CollectOn(q: nat, leave: nat, lastOut0: nat, preorderOut0: nat, ghost ord: seq<nat>, ghost T0: seq<nat>, ghost r: nat,
      ghost path: seq<nat>, ghost k0: nat, ghost g0: Step)
      returns (lastOut: nat, preorderOut: nat, ghost g: Step, ghost k: nat)
      requires CollectedTo(ord, T0, r, path, k0, g0, q, lastOut0, preorderOut0) && leave == path[|path| - 1]
      requires Grown(ord, pred[..], depth[..]) && pred[0] == n && depth[0] == 0 && Chain(T0, ord + [0])
      modifies thread
      ensures k == |path| - 1 && CollectedTo(ord, T0, r, path, k, g, leave, lastOut, preorderOut)
    {
      lastOut, preorderOut, g := lastOut0, preorderOut0, g0;
      var i: nat := q;
      k := k0;
      while i != leave
        invariant CollectedTo(ord, T0, r, path, k, g, i, lastOut, preorderOut)
        decreases |path| - k
      {
        i, lastOut, preorderOut, g, k := StepOn(i, lastOut, preorderOut, ord, T0, r, path, k, g);
      }
      EndOfPath(ord, pred[..], depth[..], path, k);
    }

    /** The loop is at the k-th node of the path. */
    ghost predicate CollectedTo(ord: seq<nat>, T0: seq<nat>, r: nat, path: seq<nat>, k: nat, g: Step, i: nat, lastOut: nat, preorderOut: nat)
      reads pred, depth, thread
    {
      Shape() && k < |path| && IsPath(pred[..], path) && i == path[k] && g.P' == Rehung(pred[..], path, r, k) &&
      Collected(ord, pred[..], depth[..], T0, thread[..], path[0], r, g, i, lastOut, preorderOut)
    }

    method StepOn(i0: nat, lastOut0: nat, preorderOut0: nat, ghost ord: seq<nat>, ghost T0: seq<nat>, ghost r: nat,
      ghost path: seq<nat>, ghost k0: nat, ghost g0: Step)
      returns (i: nat, lastOut: nat, preorderOut: nat, ghost g: Step, ghost k: nat)
      requires CollectedTo(ord, T0, r, path, k0, g0, i0, lastOut0, preorderOut0) && i0 != path[|path| - 1]
      requires Grown(ord, pred[..], depth[..]) && pred[0] == n && depth[0] == 0 && Chain(T0, ord + [0])
      modifies thread
      ensures k == k0 + 1 < |path| && CollectedTo(ord, T0, r, path, k, g, i, lastOut, preorderOut)
    {
      NextOnPath(pred[..], path, k0);
      k := k0 + 1;
      i, lastOut, preorderOut, g := StepUp(i0, lastOut0, preorderOut0, ord, T0, path[0], r, g0);
    }

    /** findLastNodeBefore(leave->pred, leave) */
    method PointTo(leave: nat, ghost ord: seq<nat>, ghost a: nat) returns (i: nat)
      requires Spans(ord) && 0 < a < n && ord[a] == leave
      ensures i == ord[a - 1]
    {
      assert Hung(ord, a, pred[..], depth[..]);
      ghost var j: nat :| HungAt(ord, a, j, pred[..], depth[..]);
      ghost var s := FrontWalk(ord, thread[..], thread[..], j, a, a + 1);
      i := FindLastNodeBefore(pred[leave], leave, s);
    }

    /** Take the collected part out of the thread and put it behind its new parent r. */
    method Attach(r: nat, q: nat, pointToLeave: nat, lastOut: nat, preorderOut: nat, ghost ord: seq<nat>, ghost T0: seq<nat>,
      ghost a: nat, ghost b: nat, ghost pr: nat, ghost N: seq<nat>)
      requires Shape() && IsOrder(ord, n) && Chain(T0, ord + [0]) && KeptOutside(ord, T0, thread[..], a, b) && Chain(thread[..], N)
      requires 0 < a < b <= n && multiset(N) == multiset(ord[a..b]) && |N| > 0 && N[0] == q && N[|N| - 1] == lastOut
      requires pr < n && (pr < a || b <= pr) && ord[pr] == r && pointToLeave == ord[a - 1] && preorderOut == (ord + [0])[b]
      modifies thread
      ensures Chain(thread[..], Reattached(ord, a, b, pr, N) + [0]) && Chain(thread[..], N) && thread[lastOut] !in N
    {
      ghost var T := thread[..];
      ghost var last := NodeOfPart(ord, a, b, N, |N| - 1);
      assert ord[last] == lastOut && ord[a - 1] != lastOut && ord[pr] != lastOut;
      if pointToLeave == r {
        assert pr == a - 1;
        thread[r] := q;
        thread[lastOut] := preorderOut;
      } else {
        thread[lastOut] := thread[r];
        thread[r] := q;
        thread[pointToLeave] := preorderOut;
      }
      AttachedThread(ord, T0, T, thread[..], a, b, pr, N);
    }

    /** Find the node that leads to `leave`, and collect the subtree. */
    method CutOut(r: nat, q: nat, leave: nat, ghost ord: seq<nat>, ghost path: seq<nat>, ghost pr: nat)
      returns (pointToLeave: nat, lastOut: nat, preorderOut: nat, ghost g: Step)
      requires Spans(ord) && pr < n && ord[pr] == r && IsPath(pred[..], path) && path[0] == q && path[|path| - 1] == leave != 0
      requires NotBelow(pred[..], r, leave)
      modifies thread
      ensures Rerooted(ord, pred[..], depth[..], g.p, g.e, q, r, g.N, g.P', g.D', g.x)
      ensures Chain(thread[..], g.N) && KeptOutside(ord, old(thread[..]), thread[..], g.p, g.e)
      ensures 0 < g.p && (pr < g.p || g.e <= pr) && g.P' == Rehung(pred[..], path, r, |path| - 1)
      ensures pointToLeave == ord[g.p - 1] && lastOut == g.N[|g.N| - 1] && preorderOut == (ord + [0])[g.e]
    {
      ghost var P, D := pred[..], depth[..];
      ghost var a := PositionOf(ord, n, leave);
      pointToLeave := PointTo(leave, ord, a);
      ghost var k;
      lastOut, preorderOut, g, k := CollectSubtree(r, q, leave, ord, path);
      assert ord[g.p] == ord[a];
      OutsideBlock(ord, P, D, a, g.e, pr);
    }

    /** The thread part of updateNonRootSubtree. */
    method UpdateThread(r: nat, q: nat, leave: nat, ghost ord: seq<nat>, ghost path: seq<nat>)
      returns (lastOut: nat, ghost ord': seq<nat>, ghost g: Step)
      requires Spans(ord) && r < n && IsPath(pred[..], path) && path[0] == q && path[|path| - 1] == leave != 0
      requires NotBelow(pred[..], r, leave)
      modifies thread
      ensures Rethreaded(ord, pred[..], depth[..], thread[..], q, r, path, lastOut, ord', g)
    {
      ghost var P, D, T0 := pred[..], depth[..], thread[..];
      ghost var pr := PositionOf(ord, n, r);
      var pointToLeave, preorderOut;
      pointToLeave, lastOut, preorderOut, g := CutOut(r, q, leave, ord, path, pr);
      ghost var a := g.p;
      Attach(r, q, pointToLeave, lastOut, preorderOut, ord, T0, a, g.e, pr, g.N);
      ord' := FinishThread(ord, P, D, thread[..], a, q, pr, path, lastOut, g);
    }
  }

  /** No way up from x leads to y. */
  ghost predicate NotBelow(P: seq<nat>, x: nat, y: nat) {
    forall t: nat {:trigger Up(P, x, t)} :: Up(P, x, t) != y
  }

  lemma OutsideBlock(ord: seq<nat>, P: seq<nat>, D: seq<nat>, a: nat, b: nat, pr: nat)
    requires |P| == |D| && IsOrder(ord, |P|) && Grown(ord, P, D) && IsBlock(ord, D, a, b) && pr < |ord|
    requires NotBelow(P, ord[pr], ord[a])
    ensures pr < a || b <= pr
  {
    if a <= pr < b {
      BlockIsSubtree(ord, P, D, a, b, pr);
    }
  }

  /** The state after the thread was updated: T walks through a preorder of the tree to come, with predecessors
      g.P' and depths g.D', and g.N is the part of it that was re-rooted. */
  ghost predicate Rethreaded(ord: seq<nat>, P: seq<nat>, D: seq<nat>, T: seq<nat>, q: nat, r: nat, path: seq<nat>,
    lastOut: nat, ord': seq<nat>, g: Step)
  {
    |P| == |D| == |T| == |g.P'| == |g.D'| && IsOrder(ord', |P|) && Grown(ord', g.P', g.D') && Chain(T, ord' + [0]) &&
    g.P'[0] == |P| && g.D'[0] == 0 && IsPath(P, path) && g.P' == Rehung(P, path, r, |path| - 1) &&
    RerootedPart(P, D, T, q, r, lastOut, g)
  }

  ghost predicate RerootedPart(P: seq<nat>, D: seq<nat>, T: seq<nat>, q: nat, r: nat, lastOut: nat, g: Step) {
    |P| == |D| == |T| == |g.P'| == |g.D'| && |g.N| > 0 && g.N[0] == q && g.N[|g.N| - 1] == lastOut < |T| && T[lastOut] !in g.N &&
    Distinct(g.N) && Chain(T, g.N) && Grown(g.N, g.P', g.D') && q < |P| && r < |P| && r !in g.N &&
    g.P'[q] == r && g.D'[q] == g.D'[r] + 1 && forall y: nat {:trigger y in g.N} :: y < |P| && y !in g.N ==> g.D'[y] == D[y]
  }

  lemma FinishThread(ord: seq<nat>, P: seq<nat>, D: seq<nat>, T: seq<nat>, a: nat, q: nat, pr: nat, path: seq<nat>, lastOut: nat, g: Step)
    returns (ord': seq<nat>)
    requires pr < |ord| && g.p == a && Grown(ord, P, D) && Rerooted(ord, P, D, a, g.e, q, ord[pr], g.N, g.P', g.D', g.x)
    requires P[0] == |P| && D[0] == 0 && 0 < a && (pr < a || g.e <= pr) && |T| == |P|
    requires IsPath(P, path) && g.P' == Rehung(P, path, ord[pr], |path| - 1)
    requires Chain(T, Reattached(ord, a, g.e, pr, g.N) + [0]) && Chain(T, g.N)
    requires lastOut == g.N[|g.N| - 1] < |T| && T[lastOut] !in g.N
    ensures Rethreaded(ord, P, D, T, q, ord[pr], path, lastOut, ord', g)
  {
    ord' := Reattached(ord, a, g.e, pr, g.N);
    Reattach(ord, P, D, a, g.e, q, pr, g.N, g.P', g.D', g.x);
    DistinctSlice(ord, a, g.e);
    DistinctCounts(ord[a..g.e]);
    DistinctCounts(g.N);
    InCollected(ord, g.N, a, g.e, pr);
  }

  lemma AttachedThread(ord: seq<nat>, T0: seq<nat>, T: seq<nat>, T': seq<nat>, a: nat, b: nat, pr: nat, N: seq<nat>)
    requires IsOrder(ord, |T0|) && Chain(T0, ord + [0]) && KeptOutside(ord, T0, T, a, b) && Chain(T, N)
    requires 0 < a < b <= |T0| && multiset(N) == multiset(ord[a..b]) && |N| > 0 && pr < |T0| && (pr < a || b <= pr)
    requires N[|N| - 1] < |T| && ord[pr] < |T| && ord[a - 1] < |T|
    requires T' == if pr == a - 1 then T[ord[pr] := N[0]][N[|N| - 1] := (ord + [0])[b]]
                   else T[N[|N| - 1] := T[ord[pr]]][ord[pr] := N[0]][ord[a - 1] := (ord + [0])[b]]
    ensures Chain(T', Reattached(ord, a, b, pr, N) + [0]) && Chain(T', N) && T'[N[|N| - 1]] !in N
  {
    BehindIsOutside(ord, T0, T, a, b, pr, N);
    var last := NodeOfPart(ord, a, b, N, |N| - 1);
    assert ord[last] == N[|N| - 1];
    assert ord[pr] != ord[last] && ord[a - 1] != ord[last] && (pr != a - 1 ==> ord[pr] != ord[a - 1]);
    forall m {:trigger ord[m]} | 0 <= m < |T0| && !(a <= m < b) && m != pr && m != a - 1 ensures T'[ord[m]] == T0[ord[m]] {
      assert ord[m] != ord[last] && ord[m] != ord[pr] && ord[m] != ord[a - 1];
    }
    AttachedPart(ord, T, T', a, b, pr, N);
    NewThread(T0, T', ord, a, b, pr, N);
  }

  /** Neither what is behind the block nor what is behind r belongs to the block, unless r is in front of it. */
  lemma BehindIsOutside(ord: seq<nat>, T0: seq<nat>, T: seq<nat>, a: nat, b: nat, pr: nat, N: seq<nat>)
    requires IsOrder(ord, |T0|) && Chain(T0, ord + [0]) && KeptOutside(ord, T0, T, a, b)
    requires 0 < a < b <= |T0| && multiset(N) == multiset(ord[a..b]) && pr < |T0| && (pr < a || b <= pr) && ord[pr] < |T|
    ensures (ord + [0])[b] !in N && (pr != a - 1 ==> T[ord[pr]] !in N)
  {
    var w := ord + [0];
    InCollected(ord, N, a, b, 0);
    if b < |ord| {
      InCollected(ord, N, a, b, b);
    }
    assert w[pr] == ord[pr] && T0[w[pr]] == w[pr + 1];
    if pr + 1 < |ord| {
      InCollected(ord, N, a, b, pr + 1);
    }
  }

  lemma AttachedPart(ord: seq<nat>, T: seq<nat>, T': seq<nat>, a: nat, b: nat, pr: nat, N: seq<nat>)
    requires Distinct(ord) && 0 < a < b <= |ord| && multiset(N) == multiset(ord[a..b]) && |N| > 0 && Chain(T, N)
    requires pr < |ord| && (pr < a || b <= pr) && |T'| == |T|
    requires forall y: nat {:trigger T'[y]} :: y < |T| && y != N[|N| - 1] && y != ord[pr] && y != ord[a - 1] ==> T'[y] == T[y]
    ensures Chain(T', N)
  {
    DistinctSlice(ord, a, b);
    DistinctCounts(ord[a..b]);
    DistinctCounts(N);
    forall k {:trigger N[k]} | 0 <= k < |N| - 1 ensures T'[N[k]] == T[N[k]] {
      var m := NodeOfPart(ord, a, b, N, k);
      assert N[k] != N[|N| - 1] && ord[m] != ord[pr] && ord[m] != ord[a - 1];
    }
    ChainKept(T, T', N);
  }

  lemma FirstStep(ord: seq<nat>, P: seq<nat>, D: seq<nat>, T: seq<nat>, p: nat, e: nat, r: nat) returns (g: Step)
    requires |P| == |D| == |T| && IsOrder(ord, |P|) && Grown(ord, P, D) && IsBlock(ord, D, p, e) && r < |P| && Chain(T, ord + [0])
    ensures Threaded(ord, P, D, T, T, ord[p], r, g)
    ensures g.p == p && g.e == e && g.N[|g.N| - 1] == ord[e - 1] && g.P' == P[ord[p] := r]
  {
    g := Step(p, e, ord[p..e], P[ord[p] := r], ShiftDepths(D, ord[p..e], Change(D[r], D[ord[p]])), 0);
    RerootStart(ord, P, D, p, e, r);
    BlockChain(ord, T, p, e);
  }

  lemma BlockChain(ord: seq<nat>, T: seq<nat>, p: nat, e: nat)
    requires Chain(T, ord + [0]) && p < e <= |ord|
    ensures Chain(T, ord[p..e]) && ord[p..e][|ord[p..e]| - 1] == ord[e - 1]
  {
    SubChain(T, ord + [0], p, e);
    assert (ord + [0])[p..e] == ord[p..e];
  }

  /** The ghost state after a step. */
  lemma NextStep(ord: seq<nat>, P: seq<nat>, D: seq<nat>, T0: seq<nat>, T: seq<nat>, q: nat, r: nat, g: Step, j: nat, f: nat) returns (g': Step)
    requires Grown(ord, P, D) && Threaded(ord, P, D, T0, T, q, r, g) && Encloses(ord, P, D, j, f, g.p, g.e) && Chain(T0, ord + [0])
    requires ord[j] == P[ord[g.p]]
    ensures g'.p == j && g'.e == f && g'.P' == g.P'[ord[j] := ord[g.p]] && g'.N == g.N + Cut(ord, j, g.p, g.e, f)
    ensures g.N[|g.N| - 1] < |T| && ord[g.p - 1] < |T|
    ensures Threaded(ord, P, D, T0, StepThread(ord, T, j, f, g.p, g.e, g.N[|g.N| - 1]), q, r, g')
  {
    var p, e := g.p, g.e;
    var part := Cut(ord, j, p, e, f);
    var D' := ShiftDepths(g.D', part, Change(g.D'[ord[p]], D[ord[j]]));
    StepKeepsOutside(ord, T0, T, j, f, p, e, g.N);
    ThreadStep(ord, T0, T, j, f, p, e, g.N, StepThread(ord, T, j, f, p, e, g.N[|g.N| - 1]));
    RerootStep(ord, P, D, j, f, p, e, q, r, g.N, g.P', g.D', g.x, part, D');
    g' := Step(j, f, g.N + part, g.P'[ord[j] := ord[p]], D', |g.N|);
  }
}
