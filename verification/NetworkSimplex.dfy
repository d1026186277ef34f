/** The pivot of the network simplex algorithm in src/infimum.cpp: whatever arc enters, the spanning tree, the
    flow and strong feasibility are kept, provided some arc of the cycle opposes the entering one. */
module NetworkSimplex {
  import opened Preorders
  import opened Flows
  import opened SpanningTree

  ghost function ArcsOf(tree: Tree): (A: Arcs)
    requires tree.Shape()
    reads tree.pred, tree.inbound, tree.flow
    ensures A.OK() && |A.P| == tree.n
  {
    Arcs(tree.pred[..], tree.inbound[..], tree.flow[..])
  }

  // ----- updateNonRootSubtree -----

  /** The arcs before the node at position k of the path is dealt with. */
  ghost function ReversedBefore(A: Arcs, path: seq<nat>, r: nat, inbound: bool, flow: int, k: nat): (A': Arcs)
    requires A.OK() && k < |path| && forall l {:trigger path[l]} :: 0 <= l < |path| ==> path[l] < |A.P|
    ensures A'.OK() && |A'.P| == |A.P|
  {
    if k == 0 then A else Reversed(A, path, r, inbound, flow, k - 1)
  }

  lemma ReversedOneMore(A: Arcs, path: seq<nat>, r: nat, inbound: bool, flow: int, k: nat)
    requires A.OK() && k < |path| && Distinct(path) && forall l {:trigger path[l]} :: 0 <= l < |path| ==> path[l] < |A.P|
    ensures var A' := ReversedBefore(A, path, r, inbound, flow, k);
      A'.P[path[k]] == A.P[path[k]] && A'.I[path[k]] == A.I[path[k]] && A'.F[path[k]] == A.F[path[k]] &&
      Reversed(A, path, r, inbound, flow, k) ==
        if k == 0 then A'.Put(path[k], r, inbound, flow) else A'.Put(path[k], path[k - 1], !A.I[path[k - 1]], A.F[path[k - 1]])
  {
    if k > 0 {
      NotYetReversed(A, path, r, inbound, flow, k);
    }
  }

  /** Turning the arcs around on the way up from q: "update the inbound, pred, and flow information". */
  method ReversePath(tree: Tree, r: nat, q: nat, leave: nat, sourceInRootSubtree: bool, flow: int, ghost path: seq<nat>)
    requires tree.Shape() && IsPath(tree.pred[..], path) && Distinct(path) && path[0] == q && path[|path| - 1] == leave
    modifies tree.pred, tree.inbound, tree.flow
    ensures ArcsOf(tree) == Reversed(old(ArcsOf(tree)), path, r, sourceInRootSubtree, flow, |path| - 1)
  {
    ghost var A := ArcsOf(tree);
    var pred1, flow1, inbound1 := r, flow, !sourceInRootSubtree;
    var newi: nat := q;
    ghost var k := 0;
    while true
      invariant tree.Shape() && k < |path| && newi == path[k]
      invariant if k == 0 then pred1 == r && flow1 == flow && inbound1 == !sourceInRootSubtree
                else pred1 == path[k - 1] && flow1 == A.F[path[k - 1]] && inbound1 == A.I[path[k - 1]]
      invariant ArcsOf(tree) == ReversedBefore(A, path, r, sourceInRootSubtree, flow, k)
      decreases |path| - k
    {
      ReversedOneMore(A, path, r, sourceInRootSubtree, flow, k);
      var i := newi;
      var pred2, flow2, inbound2 := pred1, flow1, inbound1;
      newi := tree.pred[i];
      pred1, flow1, inbound1 := i, tree.flow[i], tree.inbound[i];
      tree.pred[i], tree.flow[i], tree.inbound[i] := pred2, flow2, !inbound2;
      if i == leave {
        PathEnd(path, k);
        return;
      }
      NextOnPath(A.P, path, k);
      k := k + 1;
    }
  }

  /** Depths along the new thread, from the new root of the subtree on. */
  method UpdateDepth(tree: Tree, q: nat, lastOut: nat, ghost N: seq<nat>, ghost D': seq<nat>)
    requires tree.Shape() && |D'| == tree.n && |N| > 0 && N[0] == q < tree.n && N[|N| - 1] == lastOut < tree.n
    requires Distinct(N) && Chain(tree.thread[..], N) && tree.thread[lastOut] !in N && Grown(N, tree.pred[..], D')
    requires tree.pred[q] < tree.n && tree.pred[q] !in N && D'[q] == D'[tree.pred[q]] + 1
    requires forall y: nat {:trigger y in N} :: y < tree.n && y !in N ==> tree.depth[y] == D'[y]
    modifies tree.depth
    ensures tree.depth[..] == D'
  {
    var stop := tree.thread[lastOut];
    var i := q;
    ghost var k := 0;
    while true
      invariant tree.Shape() && k < |N| && i == N[k] && i < tree.n
      invariant forall y: nat {:trigger tree.depth[y]} :: y < tree.n && (y !in N || y in N[..k]) ==> tree.depth[y] == D'[y]
      decreases |N| - k
    {
      DepthOfNext(N, tree.pred[..], tree.depth[..], D', k);
      tree.depth[i] := tree.depth[tree.pred[i]] + 1;
      assert N[..k + 1] == N[..k] + [N[k]];
      if k < |N| - 1 {
        assert tree.thread[..][N[k]] == N[k + 1] && N[k + 1] in N;
      }
      i := tree.thread[i];
      if i == stop {
        assert k == |N| - 1;
        assert N[..k + 1] == N;
        return;
      }
      StopAtEnd(N, tree.thread[..], k);
      k := k + 1;
    }
  }

  lemma StopAtEnd(N: seq<nat>, T: seq<nat>, k: nat)
    requires k < |N| && Chain(T, N) && T[N[k]] != T[N[|N| - 1]]
    ensures k < |N| - 1 && T[N[k]] == N[k + 1]
  {
  }

  /** The predecessor of the next node of the walk has its new depth already. */
  lemma DepthOfNext(N: seq<nat>, P: seq<nat>, D: seq<nat>, D': seq<nat>, k: nat)
    requires |P| == |D| == |D'| && k < |N| && N[k] < |P| && Distinct(N) && Grown(N, P, D')
    requires P[N[0]] < |P| && P[N[0]] !in N && D'[N[0]] == D'[P[N[0]]] + 1
    requires forall y: nat {:trigger D[y]} :: y < |D| && (y !in N || y in N[..k]) ==> D[y] == D'[y]
    ensures P[N[k]] < |P| && D'[N[k]] == D[P[N[k]]] + 1
  {
    if k > 0 {
      assert Hung(N, k, P, D');
      var j: nat :| HungAt(N, k, j, P, D');
      assert N[..k][j] == N[j];
    }
  }

  /** updateNonRootSubtree */
  method UpdateNonRootSubtree(tree: Tree, rootNode: nat, nonRootNode: nat, leave: nat, sourceInRootSubtree: bool, flow: int,
    ghost ord: seq<nat>, ghost path: seq<nat>) returns (ghost ord': seq<nat>)
    requires tree.Spans(ord) && rootNode < tree.n && NotBelow(tree.pred[..], rootNode, leave)
    requires IsPath(tree.pred[..], path) && path[0] == nonRootNode && path[|path| - 1] == leave != 0
    modifies tree.pred, tree.depth, tree.thread, tree.inbound, tree.flow
    ensures tree.Spans(ord')
    ensures ArcsOf(tree) == Reversed(old(ArcsOf(tree)), path, rootNode, sourceInRootSubtree, flow, |path| - 1)
  {
    ghost var A := ArcsOf(tree);
    ghost var D := tree.depth[..];
    PathNodes(ord, A.P, D, path);
    var lastOut;
    ghost var g;
    lastOut, ord', g := tree.UpdateThread(rootNode, nonRootNode, leave, ord, path);
    RehungIsReversed(A, path, rootNode, sourceInRootSubtree, flow, |path| - 1);
    ReversePath(tree, rootNode, nonRootNode, leave, sourceInRootSubtree, flow, path);
    UpdateDepth(tree, nonRootNode, lastOut, g.N, g.D');
  }

  // ----- The cycle of the entering arc -----

  /** pk and pl lead from k and from l to the same node and do not meet before it. */
  ghost predicate IsCycle(P: seq<nat>, k: nat, l: nat, pk: seq<nat>, pl: seq<nat>) {
    IsPath(P, pk) && IsPath(P, pl) && pk[0] == k && pl[0] == l && pk[|pk| - 1] == pl[|pl| - 1] &&
    forall i, j {:trigger pk[i], pl[j]} :: 0 <= i < |pk| - 1 && 0 <= j < |pl| - 1 ==> pk[i] != pl[j]
  }

  lemma {:induction false} WayToRoot(ord: seq<nat>, P: seq<nat>, D: seq<nat>, x: nat) returns (path: seq<nat>)
    requires |P| == |D| && IsOrder(ord, |P|) && Grown(ord, P, D) && D[0] == 0 && x < |P|
    ensures IsPath(P, path) && path[0] == x && path[|path| - 1] == 0
    decreases D[x]
  {
    if x == 0 {
      path := [0];
    } else {
      HasPred(ord, P, D, x);
      var rest := WayToRoot(ord, P, D, P[x]);
      path := [x] + rest;
    }
  }

  /** findNthPredecessor */
  method FindNthPredecessor(tree: Tree, node: nat, n: int, ghost path: seq<nat>) returns (r: nat)
    requires tree.Shape() && IsPath(tree.pred[..], path) && path[0] == node && n < |path|
    ensures r == path[if n > 0 then n else 0]
  {
    r := node;
    var m := n;
    ghost var k := 0;
    while m > 0
      invariant k < |path| && r == path[k] && (if n > 0 then m == n - k >= 0 else k == 0 && m == n)
    {
      assert tree.pred[..][path[k]] == path[k + 1];
      r := tree.pred[r];
      m := m - 1;
      k := k + 1;
    }
  }

  /** The ways from k and l to the root are as long as the nodes are deep. */
  lemma WayLength(ord: seq<nat>, P: seq<nat>, D: seq<nat>, path: seq<nat>)
    requires |P| == |D| && IsOrder(ord, |P|) && Grown(ord, P, D) && P[0] == |P| && D[0] == 0
    requires IsPath(P, path) && path[|path| - 1] == 0
    ensures |path| == D[path[0]] + 1
  {
    PathDepth(ord, P, D, path, |path| - 1);
  }

  /** Up to positions a and b, which are equally far from the root, the ways have not met. */
  ghost predicate NotMet(wk: seq<nat>, wl: seq<nat>, a: nat, b: nat) {
    a < |wk| && b < |wl| && |wk| - a == |wl| - b &&
    forall i, j {:trigger wk[i], wl[j]} :: 0 <= i < a && 0 <= j < b && a - i == b - j ==> wk[i] != wl[j]
  }

  lemma FirstMeeting(ord: seq<nat>, P: seq<nat>, D: seq<nat>, wk: seq<nat>, wl: seq<nat>, a: nat, b: nat)
    requires |P| == |D| && IsOrder(ord, |P|) && Grown(ord, P, D) && P[0] == |P| && D[0] == 0
    requires IsPath(P, wk) && IsPath(P, wl) && wk[|wk| - 1] == wl[|wl| - 1] == 0
    requires NotMet(wk, wl, a, b) && wk[a] == wl[b]
    ensures IsCycle(P, wk[0], wl[0], wk[..a + 1], wl[..b + 1])
  {
    var pk, pl := wk[..a + 1], wl[..b + 1];
    forall i, j {:trigger pk[i], pl[j]} | 0 <= i < a && 0 <= j < b ensures pk[i] != pl[j] {
      PathDepth(ord, P, D, wk, i);
      PathDepth(ord, P, D, wl, j);
      WayLength(ord, P, D, wk);
      WayLength(ord, P, D, wl);
      assert wk[i] == wl[j] ==> a - i == b - j;
    }
  }

  /** discoverCycleRoot: the deepest common ancestor, with the two ways that lead to it. */
  method DiscoverCycleRoot(tree: Tree, k: nat, l: nat, ghost ord: seq<nat>) returns (root: nat, ghost pk: seq<nat>, ghost pl: seq<nat>)
    requires tree.Spans(ord) && k < tree.n && l < tree.n
    ensures IsCycle(tree.pred[..], k, l, pk, pl) && root == pk[|pk| - 1]
  {
    ghost var P, D := tree.pred[..], tree.depth[..];
    ghost var wk := WayToRoot(ord, P, D, k);
    ghost var wl := WayToRoot(ord, P, D, l);
    WayLength(ord, P, D, wk);
    WayLength(ord, P, D, wl);
    var diff: int := tree.depth[k] as int - tree.depth[l] as int;
    var x := FindNthPredecessor(tree, k, diff, wk);
    var y := FindNthPredecessor(tree, l, -diff, wl);
    ghost var a: nat, b: nat := if diff > 0 then diff else 0, if diff < 0 then -diff else 0;
    while x != y
      invariant NotMet(wk, wl, a, b) && x == wk[a] && y == wl[b]
      decreases |wk| - a
    {
      OneStepUp(P, wk, wl, a, b);
      x, y := tree.pred[x], tree.pred[y];
      a, b := a + 1, b + 1;
    }
    FirstMeeting(ord, P, D, wk, wl, a, b);
    return x, wk[..a + 1], wl[..b + 1];
  }

  lemma OneStepUp(P: seq<nat>, wk: seq<nat>, wl: seq<nat>, a: nat, b: nat)
    requires IsPath(P, wk) && IsPath(P, wl) && wk[|wk| - 1] == wl[|wl| - 1] && NotMet(wk, wl, a, b) && wk[a] != wl[b]
    ensures NotMet(wk, wl, a + 1, b + 1) && P[wk[a]] == wk[a + 1] && P[wl[b]] == wl[b + 1]
  {
    assert a == |wk| - 1 ==> b == |wl| - 1;
  }

  // ----- The leaving arc -----

  /** The arc at position i of pk runs against the entering arc (k, l). */
  predicate OpposesK(A: Arcs, pk: seq<nat>, i: int) {
    0 <= i < |pk| - 1 && pk[i] < |A.I| && !A.I[pk[i]]
  }

  predicate OpposesL(A: Arcs, pl: seq<nat>, j: int) {
    0 <= j < |pl| - 1 && pl[j] < |A.I| && A.I[pl[j]]
  }

  ghost predicate SomeOpposes(A: Arcs, pk: seq<nat>, pl: seq<nat>) {
    (exists i :: OpposesK(A, pk, i)) || exists j :: OpposesL(A, pl, j)
  }

  /** The arcs opposing on pk from position a up to b have at least flow f. */
  ghost predicate FlowsK(A: Arcs, pk: seq<nat>, a: int, b: int, f: int) {
    A.OK() && forall i {:trigger OpposesK(A, pk, i)} :: a <= i < b && OpposesK(A, pk, i) ==> A.F[pk[i]] >= f
  }

  ghost predicate FlowsL(A: Arcs, pl: seq<nat>, a: int, b: int, f: int) {
    A.OK() && forall j {:trigger OpposesL(A, pl, j)} :: a <= j < b && OpposesL(A, pl, j) ==> A.F[pl[j]] >= f
  }

  /** The arc at position t blocks first.  Among the opposing arcs with the least flow it is the last one in the
      direction of (k, l), starting from the root of the cycle: the one nearest to k, unless there is one
      on the side of l, where it is the one nearest to the root. */
  ghost predicate Blocks(A: Arcs, pk: seq<nat>, pl: seq<nat>, leave: nat, onK: bool, t: nat) {
    A.OK() && leave < |A.F| &&
    var f := A.F[leave];
    FlowsK(A, pk, 0, |pk|, f) && FlowsL(A, pl, 0, |pl|, f) &&
    if onK then OpposesK(A, pk, t) && leave == pk[t] && FlowsK(A, pk, 0, t, f + 1) && FlowsL(A, pl, 0, |pl|, f + 1)
    else OpposesL(A, pl, t) && leave == pl[t] && FlowsL(A, pl, t + 1, |pl|, f + 1)
  }

  /** The best choice among the first i nodes of pk; none when no arc there is opposing. */
  datatype Candidate = None | Some(leave: nat, onK: bool, t: nat)

  ghost predicate BestOnK(A: Arcs, pk: seq<nat>, i: nat, c: Candidate) {
    A.OK() && i <= |pk| &&
    match c
    case None => (forall j {:trigger OpposesK(A, pk, j)} :: 0 <= j < i ==> !OpposesK(A, pk, j))
    case Some(leave, onK, t) =>
      onK && t < i && OpposesK(A, pk, t) && leave == pk[t] && leave < |A.F| &&
      FlowsK(A, pk, 0, i, A.F[leave]) && FlowsK(A, pk, 0, t, A.F[leave] + 1)
  }

  /** The best choice among pk and the first i nodes of pl. */
  ghost predicate BestOnL(A: Arcs, pk: seq<nat>, pl: seq<nat>, i: nat, c: Candidate) {
    A.OK() && i <= |pl| &&
    match c
    case None =>
      (forall j {:trigger OpposesK(A, pk, j)} :: !OpposesK(A, pk, j)) &&
      (forall j {:trigger OpposesL(A, pl, j)} :: 0 <= j < i ==> !OpposesL(A, pl, j))
    case Some(leave, onK, t) =>
      leave < |A.F| && FlowsK(A, pk, 0, |pk|, A.F[leave]) && FlowsL(A, pl, 0, i, A.F[leave]) &&
      if onK then OpposesK(A, pk, t) && leave == pk[t] && FlowsK(A, pk, 0, t, A.F[leave] + 1) && FlowsL(A, pl, 0, i, A.F[leave] + 1)
      else t < i && OpposesL(A, pl, t) && leave == pl[t] && FlowsL(A, pl, t + 1, i, A.F[leave] + 1)
  }

  lemma BetterOnK(A: Arcs, pk: seq<nat>, i: nat, c: Candidate)
    requires BestOnK(A, pk, i, c) && i < |pk| - 1 && pk[i] < |A.F|
    ensures BestOnK(A, pk, i + 1, if !A.I[pk[i]] && (c.None? || A.F[pk[i]] < A.F[c.leave]) then Some(pk[i], true, i) else c)
  {
  }

  lemma BetterOnL(A: Arcs, pk: seq<nat>, pl: seq<nat>, i: nat, c: Candidate)
    requires BestOnL(A, pk, pl, i, c) && i < |pl| - 1 && pl[i] < |A.F|
    ensures BestOnL(A, pk, pl, i + 1, if A.I[pl[i]] && (c.None? || A.F[pl[i]] <= A.F[c.leave]) then Some(pl[i], false, i) else c)
  {
  }

  lemma AllOfK(A: Arcs, pk: seq<nat>, pl: seq<nat>, c: Candidate)
    requires |pk| > 0 && BestOnK(A, pk, |pk| - 1, c)
    ensures BestOnL(A, pk, pl, 0, c)
  {
  }

  lemma AllOfL(A: Arcs, pk: seq<nat>, pl: seq<nat>, c: Candidate)
    requires |pl| > 0 && BestOnL(A, pk, pl, |pl| - 1, c) && SomeOpposes(A, pk, pl)
    ensures c.Some? && Blocks(A, pk, pl, c.leave, c.onK, c.t)
  {
  }

  /** The first loop of findLeavingArc. */
  method LeavingOnK(tree: Tree, k: nat, root: nat, ghost ord: seq<nat>, ghost pk: seq<nat>) returns (c: Candidate)
    requires tree.Spans(ord) && IsPath(tree.pred[..], pk) && pk[0] == k && pk[|pk| - 1] == root
    ensures BestOnK(ArcsOf(tree), pk, |pk| - 1, c)
  {
    ghost var A := ArcsOf(tree);
    PathNodes(ord, A.P, tree.depth[..], pk);
    c := None;
    var x, i := k, 0;
    while x != root
      invariant 0 <= i < |pk| && x == pk[i] && BestOnK(A, pk, i, c)
      decreases |pk| - i
    {
      NextOnPath(A.P, pk, i);
      BetterOnK(A, pk, i, c);
      if !tree.inbound[x] && (c.None? || tree.flow[x] < tree.flow[c.leave]) {
        c := Some(x, true, i);
      }
      x := tree.pred[x];
      i := i + 1;
    }
    PathEnd(pk, i);
  }

  /** The second loop. */
  method LeavingOnL(tree: Tree, l: nat, root: nat, c0: Candidate, ghost ord: seq<nat>, ghost pk: seq<nat>, ghost pl: seq<nat>) returns (c: Candidate)
    requires tree.Spans(ord) && IsPath(tree.pred[..], pl) && pl[0] == l && pl[|pl| - 1] == root
    requires BestOnL(ArcsOf(tree), pk, pl, 0, c0)
    ensures BestOnL(ArcsOf(tree), pk, pl, |pl| - 1, c)
  {
    ghost var A := ArcsOf(tree);
    PathNodes(ord, A.P, tree.depth[..], pl);
    c := c0;
    var x, i := l, 0;
    while x != root
      invariant 0 <= i < |pl| && x == pl[i] && BestOnL(A, pk, pl, i, c)
      decreases |pl| - i
    {
      NextOnPath(A.P, pl, i);
      BetterOnL(A, pk, pl, i, c);
      if tree.inbound[x] && (c.None? || tree.flow[x] <= tree.flow[c.leave]) {
        c := Some(x, false, i);
      }
      x := tree.pred[x];
      i := i + 1;
    }
    PathEnd(pl, i);
  }

  /** findLeavingArc.  The source starts from the flow INT_MAX and no node; no node is enough here. */
  method FindLeavingArc(tree: Tree, k: nat, l: nat, root: nat, ghost ord: seq<nat>, ghost pk: seq<nat>, ghost pl: seq<nat>)
    returns (leave: nat, ghost onK: bool, ghost t: nat)
    requires tree.Spans(ord) && IsCycle(tree.pred[..], k, l, pk, pl) && root == pk[|pk| - 1]
    requires SomeOpposes(ArcsOf(tree), pk, pl)
    ensures Blocks(ArcsOf(tree), pk, pl, leave, onK, t)
  {
    var c := LeavingOnK(tree, k, root, ord, pk);
    AllOfK(ArcsOf(tree), pk, pl, c);
    c := LeavingOnL(tree, l, root, c, ord, pk, pl);
    AllOfL(ArcsOf(tree), pk, pl, c);
    leave, onK, t := c.leave, c.onK, c.t;
  }

  // ----- The flow after a pivot -----

  /** Flow e around the cycle, in the direction of the entering arc. */
  ghost function Cycled(A: Arcs, pk: seq<nat>, pl: seq<nat>, e: int): (A': Arcs)
    requires A.OK() && IsPath(A.P, pk) && IsPath(A.P, pl)
    ensures A'.P == A.P && A'.I == A.I && A'.OK()
  {
    Augmented(Augmented(A, pk, e, |pk| - 1), pl, -e, |pl| - 1)
  }

  lemma CycledOnK(A: Arcs, k: nat, l: nat, pk: seq<nat>, pl: seq<nat>, e: int, i: nat)
    requires A.OK() && IsCycle(A.P, k, l, pk, pl) && Distinct(pk) && Distinct(pl) && i < |pk| - 1
    ensures Cycled(A, pk, pl, e).F[pk[i]] == A.F[pk[i]] + if A.I[pk[i]] then e else -e
  {
    AugmentedAt(A, pk, e, |pk| - 1, i);
    assert pk[i] !in pl[..|pl| - 1];
    AugmentedElsewhere(Augmented(A, pk, e, |pk| - 1), pl, -e, |pl| - 1, pk[i]);
  }

  lemma CycledOnL(A: Arcs, k: nat, l: nat, pk: seq<nat>, pl: seq<nat>, e: int, j: nat)
    requires A.OK() && IsCycle(A.P, k, l, pk, pl) && Distinct(pk) && Distinct(pl) && j < |pl| - 1
    ensures Cycled(A, pk, pl, e).F[pl[j]] == A.F[pl[j]] + if A.I[pl[j]] then -e else e
  {
    AugmentedAt(Augmented(A, pk, e, |pk| - 1), pl, -e, |pl| - 1, j);
    assert pl[j] !in pk[..|pk| - 1];
    AugmentedElsewhere(A, pk, e, |pk| - 1, pl[j]);
  }

  lemma CycledElsewhere(A: Arcs, pk: seq<nat>, pl: seq<nat>, e: int, y: nat)
    requires A.OK() && IsPath(A.P, pk) && IsPath(A.P, pl) && y < |A.P| && y !in pk[..|pk| - 1] && y !in pl[..|pl| - 1]
    ensures Cycled(A, pk, pl, e).F[y] == A.F[y]
  {
    AugmentedElsewhere(Augmented(A, pk, e, |pk| - 1), pl, -e, |pl| - 1, y);
    AugmentedElsewhere(A, pk, e, |pk| - 1, y);
  }

  lemma CycledNet(A: Arcs, k: nat, l: nat, pk: seq<nat>, pl: seq<nat>, e: int, x: nat)
    requires A.OK() && IsCycle(A.P, k, l, pk, pl)
    requires forall i {:trigger pk[i]} :: 0 <= i < |pk| - 1 ==> pk[i] != 0
    requires forall j {:trigger pl[j]} :: 0 <= j < |pl| - 1 ==> pl[j] != 0
    ensures NetInto(Cycled(A, pk, pl, e), x, |A.P|) == NetInto(A, x, |A.P|) + (if x == k then e else 0) - (if x == l then e else 0)
  {
    AugmentedNet(A, pk, e, |pk| - 1, x);
    AugmentedNet(Augmented(A, pk, e, |pk| - 1), pl, -e, |pl| - 1, x);
  }

  /** The part of the cycle from the entering to the leaving arc. */
  function Turned(pk: seq<nat>, pl: seq<nat>, onK: bool, t: nat): seq<nat>
    requires if onK then t < |pk| else t < |pl|
  {
    if onK then pk[..t + 1] else pl[..t + 1]
  }

  /** What is known of the cycle and of the leaving arc. */
  ghost predicate Leaves(A: Arcs, k: nat, l: nat, pk: seq<nat>, pl: seq<nat>, leave: nat, onK: bool, t: nat) {
    A.OK() && IsCycle(A.P, k, l, pk, pl) && Distinct(pk) && Distinct(pl) && Blocks(A, pk, pl, leave, onK, t) &&
    (forall i {:trigger pk[i]} :: 0 <= i < |pk| - 1 ==> pk[i] != 0) &&
    (forall j {:trigger pl[j]} :: 0 <= j < |pl| - 1 ==> pl[j] != 0)
  }

  /** The arcs after a pivot: the flow of the leaving arc goes around the cycle, the part from the entering to
      the leaving arc is turned around, and the entering arc takes the place of the leaving one. */
  ghost function Pivoted(A: Arcs, k: nat, l: nat, pk: seq<nat>, pl: seq<nat>, leave: nat, onK: bool, t: nat): (A': Arcs)
    requires Leaves(A, k, l, pk, pl, leave, onK, t)
    ensures A'.OK() && |A'.P| == |A.P|
  {
    Reversed(Cycled(A, pk, pl, A.F[leave]), Turned(pk, pl, onK, t), if onK then l else k, !onK, A.F[leave], t)
  }

  lemma TurnedPath(P: seq<nat>, k: nat, l: nat, pk: seq<nat>, pl: seq<nat>, onK: bool, t: nat)
    requires IsCycle(P, k, l, pk, pl) && Distinct(pk) && Distinct(pl) && if onK then t < |pk| else t < |pl|
    ensures var path := Turned(pk, pl, onK, t);
      IsPath(P, path) && Distinct(path) && path[0] == (if onK then k else l) && |path| == t + 1 && path[t] == if onK then pk[t] else pl[t]
  {
  }

  /** Supply and demand stay met: the leaving arc carries no flow any more. */
  lemma PivotConserves(A: Arcs, B: seq<int>, k: nat, l: nat, pk: seq<nat>, pl: seq<nat>, leave: nat, onK: bool, t: nat)
    requires Leaves(A, k, l, pk, pl, leave, onK, t) && Conserves(A, B)
    ensures Conserves(Pivoted(A, k, l, pk, pl, leave, onK, t), B)
  {
    var e := A.F[leave];
    var A1, path := Cycled(A, pk, pl, e), Turned(pk, pl, onK, t);
    var A2 := Pivoted(A, k, l, pk, pl, leave, onK, t);
    TurnedPath(A.P, k, l, pk, pl, onK, t);
    if onK {
      CycledOnK(A, k, l, pk, pl, e, t);
    } else {
      CycledOnL(A, k, l, pk, pl, e, t);
    }
    assert A1.F[leave] == 0;
    forall m {:trigger path[m]} | 0 <= m < |path| ensures path[m] != 0 {
      assert path[m] == if onK then pk[m] else pl[m];
    }
    forall x: nat {:trigger B[x]} | x < |B| ensures NetInto(A2, x, |B|) + B[x] == 0 {
      CycledNet(A, k, l, pk, pl, e, x);
      ReversedNet(A1, path, if onK then l else k, !onK, e, t, x);
    }
  }

  lemma TurnedHolds(p: seq<nat>, t: nat)
    requires t < |p|
    ensures forall m {:trigger p[m]} :: 0 <= m <= t ==> p[m] in p[..t + 1]
  {
    forall m {:trigger p[m]} | 0 <= m <= t ensures p[m] in p[..t + 1] {
      assert p[..t + 1][m] == p[m];
    }
  }

  /** The flow of every arc that is not turned around. */
  lemma KeptArcs(A: Arcs, k: nat, l: nat, pk: seq<nat>, pl: seq<nat>, leave: nat, onK: bool, t: nat, y: nat)
    requires Leaves(A, k, l, pk, pl, leave, onK, t) && StronglyFeasible(A) && 0 < y < |A.P| && y !in Turned(pk, pl, onK, t)
    ensures var A1 := Cycled(A, pk, pl, A.F[leave]); A1.F[y] >= 0 && (A1.I[y] ==> A1.F[y] > 0)
  {
    var e := A.F[leave];
    assert e >= 0 by {
      assert A.I[leave] || !A.I[leave];
    }
    if y in pk[..|pk| - 1] {
      var i :| 0 <= i < |pk| - 1 && pk[i] == y;
      CycledOnK(A, k, l, pk, pl, e, i);
      assert !A.I[y] ==> OpposesK(A, pk, i);
    } else if y in pl[..|pl| - 1] {
      var j :| 0 <= j < |pl| - 1 && pl[j] == y;
      CycledOnL(A, k, l, pk, pl, e, j);
      assert A.I[y] ==> OpposesL(A, pl, j);
      if !onK {
        TurnedHolds(pl, t);
      }
    } else {
      CycledElsewhere(A, pk, pl, e, y);
    }
  }

  /** The flow of every arc that is turned around; the entering arc is the first. */
  lemma TurnedArcs(A: Arcs, k: nat, l: nat, pk: seq<nat>, pl: seq<nat>, leave: nat, onK: bool, t: nat, j: nat)
    requires Leaves(A, k, l, pk, pl, leave, onK, t) && StronglyFeasible(A) && j <= t
    ensures var A2, y := Pivoted(A, k, l, pk, pl, leave, onK, t), Turned(pk, pl, onK, t)[j];
      y < |A.P| && A2.F[y] >= 0 && (A2.I[y] ==> A2.F[y] > 0)
  {
    var e := A.F[leave];
    TurnedPath(A.P, k, l, pk, pl, onK, t);
    ReversedAt(Cycled(A, pk, pl, e), Turned(pk, pl, onK, t), if onK then l else k, !onK, e, t, j);
    assert e >= 0 && (!onK ==> e > 0) by {
      assert A.I[leave] || !A.I[leave];
    }
    if j > 0 {
      AheadOfLeaving(A, k, l, pk, pl, leave, onK, t, j - 1);
    }
  }

  /** An arc between the entering and the leaving one has flow left when it will point away from the root. */
  lemma AheadOfLeaving(A: Arcs, k: nat, l: nat, pk: seq<nat>, pl: seq<nat>, leave: nat, onK: bool, t: nat, j: nat)
    requires Leaves(A, k, l, pk, pl, leave, onK, t) && StronglyFeasible(A) && j < t
    ensures var A1, z := Cycled(A, pk, pl, A.F[leave]), Turned(pk, pl, onK, t)[j];
      z < |A.P| && A1.F[z] >= 0 && (!A1.I[z] ==> A1.F[z] > 0)
  {
    var e := A.F[leave];
    assert e >= 0 && (!onK ==> e > 0) by {
      assert A.I[leave] || !A.I[leave];
    }
    if onK {
      CycledOnK(A, k, l, pk, pl, e, j);
      assert A.F[pk[j]] >= 0 && (!A.I[pk[j]] ==> OpposesK(A, pk, j));
    } else {
      CycledOnL(A, k, l, pk, pl, e, j);
      assert A.F[pl[j]] >= 0 && (A.I[pl[j]] ==> OpposesL(A, pl, j));
    }
  }

  /** Strong feasibility survives the pivot: this is what the strict and the weak comparison in the choice of
      the leaving arc are for. */
  lemma PivotFeasible(A: Arcs, k: nat, l: nat, pk: seq<nat>, pl: seq<nat>, leave: nat, onK: bool, t: nat)
    requires Leaves(A, k, l, pk, pl, leave, onK, t) && StronglyFeasible(A)
    ensures StronglyFeasible(Pivoted(A, k, l, pk, pl, leave, onK, t))
  {
    var A1, path := Cycled(A, pk, pl, A.F[leave]), Turned(pk, pl, onK, t);
    var A2 := Pivoted(A, k, l, pk, pl, leave, onK, t);
    TurnedPath(A.P, k, l, pk, pl, onK, t);
    forall y {:trigger A2.F[y]} {:trigger A2.I[y]} | 0 < y < |A2.F| ensures A2.F[y] >= 0 && (A2.I[y] ==> A2.F[y] > 0) {
      if y in path {
        var j :| 0 <= j < |path| && path[j] == y;
        TurnedArcs(A, k, l, pk, pl, leave, onK, t, j);
      } else {
        assert path[..t + 1] == path;
        ReversedElsewhere(A1, path, if onK then l else k, !onK, A.F[leave], t, y);
        KeptArcs(A, k, l, pk, pl, leave, onK, t, y);
      }
    }
  }

  // ----- What a pivot exchanges -----

  /** What flow e around the cycle, in the direction of the entering arc, does to the arc kept at node i. */
  ghost function FlowChange(A: Arcs, pk: seq<nat>, pl: seq<nat>, e: int, i: nat): int
    requires i < |A.I| && |pk| > 0 && |pl| > 0
  {
    if i in pk[..|pk| - 1] then (if A.I[i] then e else -e)
    else if i in pl[..|pl| - 1] then (if A.I[i] then -e else e)
    else 0
  }

  /** The arc from s to t stays in the tree and carries flow f afterwards. */
  ghost predicate StaysWith(A: Arcs, pk: seq<nat>, pl: seq<nat>, leave: nat, s: nat, t: nat, f: int) {
    leave < |A.F| && |pk| > 0 && |pl| > 0 &&
    exists i: nat, f0: int {:trigger IsArc(A, i, s, t, f0)} :: i != leave && IsArc(A, i, s, t, f0) && f == f0 + FlowChange(A, pk, pl, A.F[leave], i)
  }

  /** The arc kept at node y lies on the cycle and runs against the entering arc. */
  ghost predicate Opposes(A: Arcs, pk: seq<nat>, pl: seq<nat>, y: nat) {
    (exists i :: OpposesK(A, pk, i) && pk[i] == y) || exists j :: OpposesL(A, pl, j) && pl[j] == y
  }

  /** One of k and l hangs under the other, by an arc from k to l with flow e. */
  ghost predicate Joined(A: Arcs, k: nat, l: nat, e: int) {
    (IsArc(A, k, k, l, e) && A.P[k] == l) || (IsArc(A, l, k, l, e) && A.P[l] == k)
  }

  /** An opposing arc with the least flow is taken out of the cycle, and (k, l) is put in.  That flow has gone around
      the cycle; everything else is as it was. */
  ghost predicate IsExchange(A: Arcs, A': Arcs, k: nat, l: nat, pk: seq<nat>, pl: seq<nat>, leave: nat) {
    A.OK() && A'.OK() && |A'.P| == |A.P| && IsCycle(A.P, k, l, pk, pl) && leave < |A.P| && Opposes(A, pk, pl, leave) &&
    (forall y: nat {:trigger Opposes(A, pk, pl, y)} :: y < |A.P| && Opposes(A, pk, pl, y) ==> A.F[y] >= A.F[leave]) &&
    Joined(A', k, l, A.F[leave]) &&
    forall s: nat, t: nat, f: int {:trigger HasArc(A', s, t, f)} ::
      HasArc(A', s, t, f) <==> (s == k && t == l && f == A.F[leave]) || StaysWith(A, pk, pl, leave, s, t, f)
  }

  ghost predicate Exchanges(A: Arcs, A': Arcs, k: nat, l: nat) {
    exists pk: seq<nat>, pl: seq<nat>, leave: nat {:trigger IsExchange(A, A', k, l, pk, pl, leave)} :: IsExchange(A, A', k, l, pk, pl, leave)
  }

  lemma CycledFlow(A: Arcs, k: nat, l: nat, pk: seq<nat>, pl: seq<nat>, leave: nat, onK: bool, t: nat, i: nat)
    requires Leaves(A, k, l, pk, pl, leave, onK, t) && i < |A.P|
    ensures Cycled(A, pk, pl, A.F[leave]).F[i] == A.F[i] + FlowChange(A, pk, pl, A.F[leave], i)
  {
    var e := A.F[leave];
    if i in pk[..|pk| - 1] {
      var j :| 0 <= j < |pk| - 1 && pk[j] == i;
      CycledOnK(A, k, l, pk, pl, e, j);
    } else if i in pl[..|pl| - 1] {
      var j :| 0 <= j < |pl| - 1 && pl[j] == i;
      CycledOnL(A, k, l, pk, pl, e, j);
    } else {
      CycledElsewhere(A, pk, pl, e, i);
    }
  }

  lemma StaysIsOther(A: Arcs, k: nat, l: nat, pk: seq<nat>, pl: seq<nat>, leave: nat, onK: bool, t: nat, s: nat, d: nat, f: int)
    requires Leaves(A, k, l, pk, pl, leave, onK, t)
    ensures HasOther(Cycled(A, pk, pl, A.F[leave]), leave, s, d, f) <==> StaysWith(A, pk, pl, leave, s, d, f)
  {
    var A1 := Cycled(A, pk, pl, A.F[leave]);
    if HasOther(A1, leave, s, d, f) {
      var i: nat :| i != leave && IsArc(A1, i, s, d, f);
      CycledFlow(A, k, l, pk, pl, leave, onK, t, i);
      assert IsArc(A, i, s, d, A.F[i]);
    }
    if StaysWith(A, pk, pl, leave, s, d, f) {
      var i: nat, f0: int :| i != leave && IsArc(A, i, s, d, f0) && f == f0 + FlowChange(A, pk, pl, A.F[leave], i);
      CycledFlow(A, k, l, pk, pl, leave, onK, t, i);
      assert IsArc(A1, i, s, d, f);
    }
  }

  lemma TurnedBranch(A: Arcs, k: nat, l: nat, pk: seq<nat>, pl: seq<nat>, leave: nat, onK: bool, t: nat)
    requires Leaves(A, k, l, pk, pl, leave, onK, t)
    ensures var path := Turned(pk, pl, onK, t);
      IsBranch(Cycled(A, pk, pl, A.F[leave]), path) && |path| == t + 1 && path[t] == leave && path[0] == if onK then k else l
  {
    var path := Turned(pk, pl, onK, t);
    TurnedPath(A.P, k, l, pk, pl, onK, t);
    forall m {:trigger path[m]} | 0 <= m < |path| ensures path[m] != 0 {
      assert path[m] == if onK then pk[m] else pl[m];
    }
  }

  lemma PivotedArcs(A: Arcs, k: nat, l: nat, pk: seq<nat>, pl: seq<nat>, leave: nat, onK: bool, t: nat, s: nat, d: nat, f: int)
    requires Leaves(A, k, l, pk, pl, leave, onK, t)
    ensures HasArc(Pivoted(A, k, l, pk, pl, leave, onK, t), s, d, f) <==>
      (s == k && d == l && f == A.F[leave]) || StaysWith(A, pk, pl, leave, s, d, f)
  {
    TurnedBranch(A, k, l, pk, pl, leave, onK, t);
    StaysIsOther(A, k, l, pk, pl, leave, onK, t, s, d, f);
    ReversedArcs(Cycled(A, pk, pl, A.F[leave]), Turned(pk, pl, onK, t), if onK then l else k, !onK, A.F[leave], t, s, d, f);
  }

  /** The entering arc is kept at the first node that was turned. */
  lemma EnteringArc(A: Arcs, k: nat, l: nat, pk: seq<nat>, pl: seq<nat>, leave: nat, onK: bool, t: nat)
    requires Leaves(A, k, l, pk, pl, leave, onK, t)
    ensures Joined(Pivoted(A, k, l, pk, pl, leave, onK, t), k, l, A.F[leave])
  {
    TurnedBranch(A, k, l, pk, pl, leave, onK, t);
    ReversedAt(Cycled(A, pk, pl, A.F[leave]), Turned(pk, pl, onK, t), if onK then l else k, !onK, A.F[leave], t, 0);
    ReversedUnder(Cycled(A, pk, pl, A.F[leave]), Turned(pk, pl, onK, t), if onK then l else k, !onK, A.F[leave], t, 0);
  }

  /** The leaving arc is an opposing one with the least flow. */
  lemma LeastOpposes(A: Arcs, k: nat, l: nat, pk: seq<nat>, pl: seq<nat>, leave: nat, onK: bool, t: nat)
    requires Leaves(A, k, l, pk, pl, leave, onK, t)
    ensures Opposes(A, pk, pl, leave)
    ensures forall y: nat {:trigger Opposes(A, pk, pl, y)} :: y < |A.P| && Opposes(A, pk, pl, y) ==> A.F[y] >= A.F[leave]
  {
  }

  lemma PivotExchanges(A: Arcs, k: nat, l: nat, pk: seq<nat>, pl: seq<nat>, leave: nat, onK: bool, t: nat)
    requires Leaves(A, k, l, pk, pl, leave, onK, t)
    ensures Exchanges(A, Pivoted(A, k, l, pk, pl, leave, onK, t), k, l)
  {
    var A' := Pivoted(A, k, l, pk, pl, leave, onK, t);
    LeastOpposes(A, k, l, pk, pl, leave, onK, t);
    EnteringArc(A, k, l, pk, pl, leave, onK, t);
    forall s: nat, d: nat, f: int {:trigger HasArc(A', s, d, f)}
      ensures HasArc(A', s, d, f) <==> (s == k && d == l && f == A.F[leave]) || StaysWith(A, pk, pl, leave, s, d, f)
    {
      PivotedArcs(A, k, l, pk, pl, leave, onK, t, s, d, f);
    }
    assert IsExchange(A, A', k, l, pk, pl, leave);
  }

  // ----- The pivot -----

  /** The cycle of two nodes of a spanning tree does not go through the root of the tree below its own root. */
  lemma CycleFacts(ord: seq<nat>, P: seq<nat>, D: seq<nat>, k: nat, l: nat, pk: seq<nat>, pl: seq<nat>)
    requires |P| == |D| && IsOrder(ord, |P|) && Grown(ord, P, D) && P[0] == |P| && IsCycle(P, k, l, pk, pl)
    ensures Distinct(pk) && Distinct(pl)
    ensures forall i {:trigger pk[i]} :: 0 <= i < |pk| - 1 ==> pk[i] != 0
    ensures forall j {:trigger pl[j]} :: 0 <= j < |pl| - 1 ==> pl[j] != 0
  {
    PathNodes(ord, P, D, pk);
    PathNodes(ord, P, D, pl);
    forall i {:trigger pk[i]} | 0 <= i < |pk| - 1 ensures pk[i] != 0 {
      PathDepth(ord, P, D, pk, i);
    }
    forall j {:trigger pl[j]} | 0 <= j < |pl| - 1 ensures pl[j] != 0 {
      PathDepth(ord, P, D, pl, j);
    }
  }

  /** One of the two loops of updateFlowInCycle: flow e toward the first node of the path. */
  method AugmentPath(tree: Tree, x0: nat, root: nat, e: int, ghost path: seq<nat>)
    requires tree.Shape() && IsPath(tree.pred[..], path) && Distinct(path) && path[0] == x0 && path[|path| - 1] == root
    modifies tree.flow
    ensures ArcsOf(tree) == Augmented(old(ArcsOf(tree)), path, e, |path| - 1)
  {
    ghost var A := ArcsOf(tree);
    var x := x0;
    ghost var k := 0;
    while x != root
      invariant k < |path| && x == path[k] && ArcsOf(tree) == Augmented(A, path, e, k)
      decreases |path| - k
    {
      NextOnPath(A.P, path, k);
      tree.flow[x] := tree.flow[x] + if tree.inbound[x] then e else -e;
      x := tree.pred[x];
      k := k + 1;
    }
    PathEnd(path, k);
  }

  lemma {:induction false} NoFlowToAugment(A: Arcs, path: seq<nat>, k: nat)
    requires A.OK() && k < |path| && forall l {:trigger path[l]} :: 0 <= l < |path| ==> path[l] < |A.P|
    ensures Augmented(A, path, 0, k) == A
  {
    if k > 0 {
      NoFlowToAugment(A, path, k - 1);
    }
  }

  /** updateFlowInCycle */
  method UpdateFlowInCycle(tree: Tree, k: nat, l: nat, root: nat, flowToAugment: int, ghost pk: seq<nat>, ghost pl: seq<nat>)
    requires tree.Shape() && IsCycle(tree.pred[..], k, l, pk, pl) && Distinct(pk) && Distinct(pl) && root == pk[|pk| - 1]
    requires flowToAugment >= 0
    modifies tree.flow
    ensures ArcsOf(tree) == Cycled(old(ArcsOf(tree)), pk, pl, flowToAugment)
  {
    ghost var A := ArcsOf(tree);
    if flowToAugment > 0 {
      AugmentPath(tree, k, root, flowToAugment, pk);
      AugmentPath(tree, l, root, -flowToAugment, pl);
    } else {
      NoFlowToAugment(A, pk, |pk| - 1);
      NoFlowToAugment(A, pl, |pl| - 1);
    }
  }

  /** isPredecessorOf(leave, k): it tells the side of the cycle on which the leaving arc lies. */
  method IsPredecessorOf(tree: Tree, leave: nat, k: nat, ghost l: nat, ghost ord: seq<nat>, ghost pk: seq<nat>, ghost pl: seq<nat>,
    ghost onK: bool, ghost t: nat) returns (r: bool)
    requires tree.Spans(ord) && IsCycle(tree.pred[..], k, l, pk, pl)
    requires if onK then t < |pk| - 1 && leave == pk[t] else t < |pl| - 1 && leave == pl[t]
    ensures r == onK
  {
    ghost var P, D := tree.pred[..], tree.depth[..];
    SideOfCycle(ord, P, D, k, l, pk, pl, leave, onK, t);
    var x := FindNthPredecessor(tree, k, tree.depth[k] as int - tree.depth[leave] as int, pk);
    return leave == x;
  }

  lemma SideOfCycle(ord: seq<nat>, P: seq<nat>, D: seq<nat>, k: nat, l: nat, pk: seq<nat>, pl: seq<nat>, leave: nat, onK: bool, t: nat)
    requires |P| == |D| && IsOrder(ord, |P|) && Grown(ord, P, D) && P[0] == |P| && IsCycle(P, k, l, pk, pl)
    requires if onK then t < |pk| - 1 && leave == pk[t] else t < |pl| - 1 && leave == pl[t]
    ensures D[k] as int - D[leave] as int < |pk|
    ensures var d := D[k] as int - D[leave] as int; pk[if d > 0 then d else 0] == leave <==> onK
  {
    PathDepth(ord, P, D, pk, |pk| - 1);
    PathDepth(ord, P, D, pl, |pl| - 1);
    if onK {
      PathDepth(ord, P, D, pk, t);
    } else {
      PathDepth(ord, P, D, pl, t);
      var d := D[k] as int - D[leave] as int;
      if |pk| == 1 {
        assert D[leave] > D[k];
        PathNodes(ord, P, D, pl);
        assert pl[t] != pl[|pl| - 1];
      } else {
        assert (if d > 0 then d else 0) < |pk| - 1;
      }
    }
  }

  /** The other end of the entering arc does not lie in the subtree that is cut off. */
  lemma {:induction false} UpAlongPath(P: seq<nat>, path: seq<nat>, t: nat)
    requires IsPath(P, path) && t < |path|
    ensures Up(P, path[0], t) == path[t]
    decreases t
  {
    if t > 0 {
      var rest := path[1..];
      forall k {:trigger P[rest[k]]} | 0 <= k < |rest| - 1 ensures P[rest[k]] == rest[k + 1] {
        assert P[path[k + 1]] == path[k + 2];
      }
      assert P[path[0]] == path[1];
      UpAlongPath(P, rest, t - 1);
    }
  }

  lemma {:induction false} UpDepth(ord: seq<nat>, P: seq<nat>, D: seq<nat>, x: nat, t: nat)
    requires |P| == |D| && IsOrder(ord, |P|) && Grown(ord, P, D) && P[0] == |P| && x < |P| && Up(P, x, t) < |P|
    ensures D[x] == D[Up(P, x, t)] + t
    decreases t
  {
    if t > 0 {
      UpFromRoot(P, t);
      HasPred(ord, P, D, x);
      UpDepth(ord, P, D, P[x], t - 1);
    }
  }

  lemma UpFromRoot(P: seq<nat>, t: nat)
    requires |P| > 0 && P[0] == |P| && t > 0
    ensures Up(P, 0, t) == |P|
  {
    assert Up(P, |P|, t - 1) == |P|;
  }

  lemma OtherEndOutside(ord: seq<nat>, P: seq<nat>, D: seq<nat>, k: nat, l: nat, pk: seq<nat>, pl: seq<nat>, t: nat)
    requires |P| == |D| && IsOrder(ord, |P|) && Grown(ord, P, D) && P[0] == |P| && IsCycle(P, k, l, pk, pl) && t < |pk| - 1
    ensures NotBelow(P, l, pk[t])
  {
    PathDepth(ord, P, D, pk, |pk| - 1);
    PathDepth(ord, P, D, pl, |pl| - 1);
    PathDepth(ord, P, D, pk, t);
    forall u: nat {:trigger Up(P, l, u)} ensures Up(P, l, u) != pk[t] {
      if Up(P, l, u) < |P| {
        UpDepth(ord, P, D, l, u);
        if u < |pl| {
          UpAlongPath(P, pl, u);
          assert u < |pl| - 1 ==> pk[t] != pl[u];
        }
      }
    }
  }

  lemma CycleReversed(P: seq<nat>, k: nat, l: nat, pk: seq<nat>, pl: seq<nat>)
    requires IsCycle(P, k, l, pk, pl)
    ensures IsCycle(P, l, k, pl, pk)
  {
  }

  lemma OtherEndOfEntering(ord: seq<nat>, P: seq<nat>, D: seq<nat>, k: nat, l: nat, pk: seq<nat>, pl: seq<nat>, onK: bool, t: nat)
    requires |P| == |D| && IsOrder(ord, |P|) && Grown(ord, P, D) && P[0] == |P| && IsCycle(P, k, l, pk, pl)
    requires if onK then t < |pk| - 1 else t < |pl| - 1
    ensures NotBelow(P, if onK then l else k, if onK then pk[t] else pl[t])
  {
    if onK {
      OtherEndOutside(ord, P, D, k, l, pk, pl, t);
    } else {
      CycleReversed(P, k, l, pk, pl);
      OtherEndOutside(ord, P, D, l, k, pl, pk, t);
    }
  }

  /** updateSpanningTree, without the potentials */
  method UpdateSpanningTree(tree: Tree, k: nat, l: nat, leave: nat, root: nat, ghost ord: seq<nat>, ghost pk: seq<nat>, ghost pl: seq<nat>,
    ghost onK: bool, ghost t: nat) returns (ghost ord': seq<nat>)
    requires tree.Spans(ord) && Leaves(ArcsOf(tree), k, l, pk, pl, leave, onK, t) && root == pk[|pk| - 1]
    requires tree.flow[leave] >= 0
    modifies tree.pred, tree.depth, tree.thread, tree.inbound, tree.flow
    ensures tree.Spans(ord')
    ensures ArcsOf(tree) == Pivoted(old(ArcsOf(tree)), k, l, pk, pl, leave, onK, t)
  {
    ghost var P, D := tree.pred[..], tree.depth[..];
    var flowToAugment := tree.flow[leave];
    UpdateFlowInCycle(tree, k, l, root, flowToAugment, pk, pl);
    TurnedPath(P, k, l, pk, pl, onK, t);
    var above := IsPredecessorOf(tree, leave, k, l, ord, pk, pl, onK, t);
    OtherEndOfEntering(ord, P, D, k, l, pk, pl, onK, t);
    ord' := TurnCycle(tree, k, l, leave, above, flowToAugment, ord, Turned(pk, pl, onK, t));
  }

  /** The entering arc takes the place of the leaving one, on the side where that is. */
  method TurnCycle(tree: Tree, k: nat, l: nat, leave: nat, above: bool, flow: int, ghost ord: seq<nat>, ghost path: seq<nat>)
    returns (ghost ord': seq<nat>)
    requires tree.Spans(ord) && k < tree.n && l < tree.n && NotBelow(tree.pred[..], if above then l else k, leave)
    requires IsPath(tree.pred[..], path) && path[0] == (if above then k else l) && path[|path| - 1] == leave != 0
    modifies tree.pred, tree.depth, tree.thread, tree.inbound, tree.flow
    ensures tree.Spans(ord')
    ensures ArcsOf(tree) == Reversed(old(ArcsOf(tree)), path, if above then l else k, !above, flow, |path| - 1)
  {
    if !above {
      ord' := UpdateNonRootSubtree(tree, k, l, leave, true, flow, ord, path);
    } else {
      ord' := UpdateNonRootSubtree(tree, l, k, leave, false, flow, ord, path);
    }
  }

  /** Some arc on the way between k and l runs against the arc (k, l). */
  ghost predicate CanLeave(A: Arcs, k: nat, l: nat) {
    forall pk: seq<nat>, pl: seq<nat> {:trigger IsCycle(A.P, k, l, pk, pl)} :: IsCycle(A.P, k, l, pk, pl) ==> SomeOpposes(A, pk, pl)
  }

  /** One turn of the loop of infimumNetSimplex, for the entering arc (k, l).  How that arc is chosen does not matter. */
  method Pivot(tree: Tree, k: nat, l: nat, ghost ord: seq<nat>, ghost B: seq<int>) returns (ghost ord': seq<nat>)
    requires tree.Spans(ord) && k < tree.n && l < tree.n && CanLeave(ArcsOf(tree), k, l)
    requires Conserves(ArcsOf(tree), B) && StronglyFeasible(ArcsOf(tree))
    modifies tree.pred, tree.depth, tree.thread, tree.inbound, tree.flow
    ensures tree.Spans(ord')
    ensures Conserves(ArcsOf(tree), B) && StronglyFeasible(ArcsOf(tree))
    ensures Exchanges(old(ArcsOf(tree)), ArcsOf(tree), k, l)
  {
    ghost var A := ArcsOf(tree);
    var root;
    ghost var pk, pl;
    root, pk, pl := DiscoverCycleRoot(tree, k, l, ord);
    CycleFacts(ord, A.P, tree.depth[..], k, l, pk, pl);
    var leave;
    ghost var onK, t;
    leave, onK, t := FindLeavingArc(tree, k, l, root, ord, pk, pl);
    PivotConserves(A, B, k, l, pk, pl, leave, onK, t);
    PivotFeasible(A, k, l, pk, pl, leave, onK, t);
    PivotExchanges(A, k, l, pk, pl, leave, onK, t);
    ord' := UpdateSpanningTree(tree, k, l, leave, root, ord, pk, pl, onK, t);
  }

  // ----- The initial solution -----

  /** rates[1] + ... + rates[m - 1] */
  function RateSum(rates: seq<int>, m: nat): int
    requires m <= |rates|
  {
    if m <= 1 then 0 else RateSum(rates, m - 1) + rates[m - 1]
  }

  /** b(i) of every node: minus the rate of a clock, and for the reference what the others lack. */
  ghost predicate IsSupply(B: seq<int>, rates: seq<int>) {
    |B| == |rates| > 0 && B[0] == RateSum(rates, |rates|) && forall i {:trigger B[i]} :: 0 < i < |B| ==> B[i] == -rates[i]
  }

  /** Every node hangs under the root; its arc carries the rate of the clock, from or to the root. */
  ghost predicate IsInitial(A: Arcs, rates: seq<int>) {
    A.OK() && |A.P| == |rates| && A.P[0] == |rates| &&
    (forall i {:trigger A.P[i]} :: 0 < i < |rates| ==> A.P[i] == 0) &&
    (forall i {:trigger A.I[i]} :: 0 < i < |rates| ==> A.I[i] == (rates[i] > 0)) &&
    forall i {:trigger A.F[i]} :: 0 < i < |rates| ==> A.F[i] == if rates[i] >= 0 then rates[i] else -rates[i]
  }

  lemma {:induction false} InitialNet(A: Arcs, rates: seq<int>, x: nat, m: nat)
    requires IsInitial(A, rates) && m <= |rates| && x < |rates|
    ensures NetInto(A, x, m) == if x == 0 then -RateSum(rates, m) else if x < m then rates[x] else 0
  {
    if m > 1 {
      InitialNet(A, rates, x, m - 1);
      assert A.P[m - 1] == 0 && A.I[m - 1] == (rates[m - 1] > 0) && A.F[m - 1] == if rates[m - 1] >= 0 then rates[m - 1] else -rates[m - 1];
    }
  }

  lemma InitialFlow(A: Arcs, rates: seq<int>, B: seq<int>)
    requires IsInitial(A, rates) && IsSupply(B, rates)
    ensures Conserves(A, B) && StronglyFeasible(A)
  {
    forall x: nat {:trigger B[x]} | x < |B| ensures NetInto(A, x, |B|) + B[x] == 0 {
      InitialNet(A, rates, x, |B|);
    }
    forall i {:trigger A.F[i]} {:trigger A.I[i]} | 0 < i < |A.F| ensures A.F[i] >= 0 && (A.I[i] ==> A.F[i] > 0) {
      assert A.F[i] == (if rates[i] >= 0 then rates[i] else -rates[i]) && A.I[i] == (rates[i] > 0);
    }
  }

  /** The nodes in the order of their numbers. */
  ghost predicate InOrder(ord: seq<nat>, n: nat) {
    |ord| == n && forall k {:trigger ord[k]} :: 0 <= k < n ==> ord[k] == k
  }

  lemma InitialTree(ord: seq<nat>, P: seq<nat>, D: seq<nat>, T: seq<nat>)
    requires |P| == |D| == |T| > 1 && InOrder(ord, |P|) && P[0] == |P| && D[0] == 0
    requires forall i {:trigger P[i]} {:trigger D[i]} :: 0 < i < |P| ==> P[i] == 0 && D[i] == 1
    requires forall i {:trigger T[i]} :: 0 <= i < |T| ==> T[i] == if i + 1 < |T| then i + 1 else 0
    ensures TreeOK(ord, P, D, T)
  {
    forall x: nat | x < |P| ensures x in ord {
      assert ord[x] == x;
    }
    forall k: nat {:trigger Hung(ord, k, P, D)} | 1 <= k < |ord| ensures Hung(ord, k, P, D) {
      assert HungAt(ord, k, 0, P, D);
    }
    var w := ord + [0];
    forall k {:trigger T[w[k]]} | 0 <= k < |w| - 1 ensures T[w[k]] == w[k + 1] {
      assert w[k] == ord[k] == k;
    }
  }

  /** Node x has been set up. */
  ghost predicate NodeReady(tree: Tree, rates: seq<int>, x: nat)
    requires tree.Shape() && |rates| == tree.n
    reads tree.pred, tree.depth, tree.thread, tree.inbound, tree.flow
  {
    0 < x < tree.n && tree.pred[x] == 0 && tree.depth[x] == 1 && tree.thread[x] == (if x + 1 < tree.n then x + 1 else 0) &&
    tree.inbound[x] == (rates[x] > 0) && tree.flow[x] == if rates[x] >= 0 then rates[x] else -rates[x]
  }

  ghost predicate NodesReady(tree: Tree, rates: seq<int>, m: nat)
    requires tree.Shape() && |rates| == tree.n
    reads tree.pred, tree.depth, tree.thread, tree.inbound, tree.flow
  {
    tree.pred[0] == tree.n && tree.depth[0] == 0 && tree.thread[0] == 1 &&
    forall x: nat {:trigger NodeReady(tree, rates, x)} :: 0 < x < m ==> NodeReady(tree, rates, x)
  }

  lemma NextIndex(i: nat, n: nat)
    requires i < n
    ensures (i + 1) % n == if i + 1 < n then i + 1 else 0
  {
  }

  /** Set up one node. */
  method InitNode(tree: Tree, rates: seq<int>, i: nat)
    requires tree.Shape() && |rates| == tree.n && 0 < i < tree.n && NodesReady(tree, rates, i)
    modifies tree.pred, tree.depth, tree.thread, tree.inbound, tree.flow
    ensures NodesReady(tree, rates, i + 1)
  {
    NextIndex(i, tree.n);
    tree.pred[i], tree.depth[i], tree.thread[i] := 0, 1, (i + 1) % tree.n;
    tree.flow[i] := if rates[i] >= 0 then rates[i] else -rates[i];
    tree.inbound[i] := -rates[i] < 0;
    forall x: nat {:trigger NodeReady(tree, rates, x)} | 0 < x < i ensures NodeReady(tree, rates, x) {
      assert old(NodeReady(tree, rates, x));
    }
  }

  /** findInitialSpanningTreeSolution, without the potentials */
  method FindInitialSolution(tree: Tree, rates: seq<int>, ghost B: seq<int>) returns (ghost ord: seq<nat>)
    requires tree.Shape() && |rates| == tree.n > 1 && IsSupply(B, rates)
    modifies tree.pred, tree.depth, tree.thread, tree.inbound, tree.flow
    ensures tree.Spans(ord) && Conserves(ArcsOf(tree), B) && StronglyFeasible(ArcsOf(tree))
  {
    tree.pred[0], tree.depth[0], tree.thread[0], tree.inbound[0], tree.flow[0] := tree.n, 0, 1, false, -1;
    var i := 1;
    while i < tree.n
      invariant 1 <= i <= tree.n && NodesReady(tree, rates, i)
    {
      InitNode(tree, rates, i);
      i := i + 1;
    }
    ord := Numbers(tree.n);
    NodesAreInitial(tree, rates);
    InitialTree(ord, tree.pred[..], tree.depth[..], tree.thread[..]);
    InitialFlow(ArcsOf(tree), rates, B);
  }

  lemma NodesAreInitial(tree: Tree, rates: seq<int>)
    requires tree.Shape() && |rates| == tree.n > 1 && NodesReady(tree, rates, tree.n)
    ensures IsInitial(ArcsOf(tree), rates)
    ensures forall i {:trigger tree.pred[..][i]} {:trigger tree.depth[..][i]} :: 0 < i < tree.n ==> tree.pred[..][i] == 0 && tree.depth[..][i] == 1
    ensures forall i {:trigger tree.thread[..][i]} :: 0 <= i < tree.n ==> tree.thread[..][i] == if i + 1 < tree.n then i + 1 else 0
  {
    var A, D, T := ArcsOf(tree), tree.depth[..], tree.thread[..];
    forall i {:trigger A.P[i]} {:trigger A.I[i]} {:trigger A.F[i]} {:trigger D[i]} {:trigger T[i]} | 0 < i < tree.n
      ensures A.P[i] == 0 && D[i] == 1 && T[i] == (if i + 1 < tree.n then i + 1 else 0)
      ensures A.I[i] == (rates[i] > 0) && A.F[i] == if rates[i] >= 0 then rates[i] else -rates[i]
    {
      assert NodeReady(tree, rates, i);
    }
  }

  lemma {:induction false} Numbers(n: nat) returns (ord: seq<nat>)
    ensures InOrder(ord, n)
  {
    if n == 0 {
      ord := [];
    } else {
      ord := Numbers(n - 1);
      ord := ord + [n - 1];
    }
  }
}
