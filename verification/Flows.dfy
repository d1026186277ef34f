/** Flow on the spanning tree of src/infimum.cpp: the arc between a node and its predecessor is kept at the
    node, `inbound` when it leads to the node. */
module Flows {
  import opened Preorders

  datatype Arcs = Arcs(P: seq<nat>, I: seq<bool>, F: seq<int>) {
    ghost predicate OK() {
      |P| == |I| == |F| > 0
    }

    /** The arc kept at node i is replaced. */
    function Put(i: nat, p: nat, inbound: bool, flow: int): (A: Arcs)
      requires i < |P| == |I| == |F|
    {
      Arcs(P[i := p], I[i := inbound], F[i := flow])
    }
  }

  /** What flows into node x over an arc kept at i, with predecessor p. */
  function ArcInto(i: nat, p: nat, inbound: bool, flow: int, x: nat): int {
    (if x == i then (if inbound then flow else -flow) else 0) + (if x == p then (if inbound then -flow else flow) else 0)
  }

  function Into(A: Arcs, i: nat, x: nat): int
    requires i < |A.P| == |A.I| == |A.F|
  {
    ArcInto(i, A.P[i], A.I[i], A.F[i], x)
  }

  /** What flows into node x over the arcs kept at the nodes 1 to m - 1. */
  function NetInto(A: Arcs, x: nat, m: nat): int
    requires m <= |A.P| == |A.I| == |A.F|
  {
    if m <= 1 then 0 else NetInto(A, x, m - 1) + Into(A, m - 1, x)
  }

  lemma {:induction false} NetAfterPut(A: Arcs, i: nat, p: nat, inbound: bool, flow: int, x: nat, m: nat)
    requires A.OK() && 0 < i < |A.P| && m <= |A.P|
    ensures NetInto(A.Put(i, p, inbound, flow), x, m) == NetInto(A, x, m) + if i < m then ArcInto(i, p, inbound, flow, x) - Into(A, i, x) else 0
  {
    if m > 1 {
      NetAfterPut(A, i, p, inbound, flow, x, m - 1);
    }
  }

  /** Supply and demand of every node are met. */
  ghost predicate Conserves(A: Arcs, B: seq<int>) {
    A.OK() && |B| == |A.P| && forall x: nat {:trigger B[x]} :: x < |B| ==> NetInto(A, x, |B|) + B[x] == 0
  }

  /** No flow is negative, and every arc without flow points toward the root: strongly feasible. */
  ghost predicate StronglyFeasible(A: Arcs) {
    A.OK() && forall i {:trigger A.F[i]} {:trigger A.I[i]} :: 0 < i < |A.F| ==> A.F[i] >= 0 && (A.I[i] ==> A.F[i] > 0)
  }

  // ----- Ways up the tree -----

  ghost predicate IsPath(P: seq<nat>, path: seq<nat>) {
    |path| > 0 && (forall k {:trigger path[k]} :: 0 <= k < |path| ==> path[k] < |P|) &&
    forall k {:trigger P[path[k]]} :: 0 <= k < |path| - 1 ==> P[path[k]] == path[k + 1]
  }

  lemma {:induction false} PathDepth(ord: seq<nat>, P: seq<nat>, D: seq<nat>, path: seq<nat>, k: nat)
    requires |P| == |D| && IsOrder(ord, |P|) && Grown(ord, P, D) && P[0] == |P| && IsPath(P, path) && k < |path|
    ensures D[path[0]] == D[path[k]] + k
    ensures k < |path| - 1 ==> path[k] != 0
  {
    if k < |path| - 1 {
      assert P[path[k]] == path[k + 1];
    }
    if k > 0 {
      PathDepth(ord, P, D, path, k - 1);
      assert P[path[k - 1]] == path[k];
      HasPred(ord, P, D, path[k - 1]);
    }
  }

  /** A path never comes back to a node. */
  lemma PathNodes(ord: seq<nat>, P: seq<nat>, D: seq<nat>, path: seq<nat>)
    requires |P| == |D| && IsOrder(ord, |P|) && Grown(ord, P, D) && P[0] == |P| && IsPath(P, path)
    ensures Distinct(path)
  {
    forall i, j {:trigger path[i], path[j]} | 0 <= i < j < |path| ensures path[i] != path[j] {
      PathDepth(ord, P, D, path, i);
      PathDepth(ord, P, D, path, j);
    }
  }

  // ----- Reversing a path -----

  /** The first k + 1 nodes of the path now hang under the node before them on the path, the first one under r.
      Each keeps the arc to the node before, which was kept there, in the opposite direction; the first one
      gets an arc with the given direction and flow. */
  ghost function Reversed(A: Arcs, path: seq<nat>, r: nat, inbound: bool, flow: int, k: nat): (A': Arcs)
    requires A.OK() && k < |path| && forall l {:trigger path[l]} :: 0 <= l < |path| ==> path[l] < |A.P|
    ensures A'.OK() && |A'.P| == |A.P|
  {
    if k == 0 then A.Put(path[0], r, inbound, flow)
    else Reversed(A, path, r, inbound, flow, k - 1).Put(path[k], path[k - 1], !A.I[path[k - 1]], A.F[path[k - 1]])
  }

  /** The arcs of the nodes further up are as they were. */
  lemma {:induction false} ReversedElsewhere(A: Arcs, path: seq<nat>, r: nat, inbound: bool, flow: int, k: nat, y: nat)
    requires A.OK() && k < |path| && (forall l {:trigger path[l]} :: 0 <= l < |path| ==> path[l] < |A.P|)
    requires y < |A.P| && y !in path[..k + 1]
    ensures var A' := Reversed(A, path, r, inbound, flow, k); A'.P[y] == A.P[y] && A'.I[y] == A.I[y] && A'.F[y] == A.F[y]
  {
    assert path[..k + 1][k] == path[k];
    if k > 0 {
      assert path[..k] == path[..k + 1][..k];
      ReversedElsewhere(A, path, r, inbound, flow, k - 1, y);
    } else {
      assert path[..k + 1][0] == path[0];
    }
  }

  /** The node at position j of the path keeps what the node before it kept. */
  lemma {:induction false} ReversedAt(A: Arcs, path: seq<nat>, r: nat, inbound: bool, flow: int, k: nat, j: nat)
    requires A.OK() && j <= k < |path| && Distinct(path) && (forall l {:trigger path[l]} :: 0 <= l < |path| ==> path[l] < |A.P|)
    ensures var A' := Reversed(A, path, r, inbound, flow, k);
      if j == 0 then A'.I[path[0]] == inbound && A'.F[path[0]] == flow
      else A'.I[path[j]] == !A.I[path[j - 1]] && A'.F[path[j]] == A.F[path[j - 1]]
  {
    if j < k {
      ReversedAt(A, path, r, inbound, flow, k - 1, j);
      assert path[j] != path[k];
    }
  }

  lemma {:induction false} ReversedUnder(A: Arcs, path: seq<nat>, r: nat, inbound: bool, flow: int, k: nat, j: nat)
    requires A.OK() && j <= k < |path| && Distinct(path) && (forall l {:trigger path[l]} :: 0 <= l < |path| ==> path[l] < |A.P|)
    ensures Reversed(A, path, r, inbound, flow, k).P[path[j]] == if j == 0 then r else path[j - 1]
  {
    if j < k {
      ReversedUnder(A, path, r, inbound, flow, k - 1, j);
      assert path[j] != path[k];
    }
  }

  /** Reversing puts one arc in and takes out the last one of the path. */
  lemma {:induction false} ReversedNet(A: Arcs, path: seq<nat>, r: nat, inbound: bool, flow: int, k: nat, x: nat)
    requires A.OK() && k < |path| && Distinct(path) && IsPath(A.P, path) && forall l {:trigger path[l]} :: 0 <= l < |path| ==> path[l] != 0
    ensures NetInto(Reversed(A, path, r, inbound, flow, k), x, |A.P|)
         == NetInto(A, x, |A.P|) + ArcInto(path[0], r, inbound, flow, x) - Into(A, path[k], x)
  {
    var n := |A.P|;
    if k == 0 {
      NetAfterPut(A, path[0], r, inbound, flow, x, n);
    } else {
      var before := Reversed(A, path, r, inbound, flow, k - 1);
      ReversedNet(A, path, r, inbound, flow, k - 1, x);
      NotYetReversed(A, path, r, inbound, flow, k);
      NetAfterPut(before, path[k], path[k - 1], !A.I[path[k - 1]], A.F[path[k - 1]], x, n);
      assert A.P[path[k - 1]] == path[k];
    }
  }

  lemma NotYetReversed(A: Arcs, path: seq<nat>, r: nat, inbound: bool, flow: int, k: nat)
    requires A.OK() && 0 < k < |path| && Distinct(path) && forall l {:trigger path[l]} :: 0 <= l < |path| ==> path[l] < |A.P|
    ensures var A' := Reversed(A, path, r, inbound, flow, k - 1);
      A'.P[path[k]] == A.P[path[k]] && A'.I[path[k]] == A.I[path[k]] && A'.F[path[k]] == A.F[path[k]]
  {
    assert path[k] !in path[..k];
    ReversedElsewhere(A, path, r, inbound, flow, k - 1, path[k]);
  }

  // ----- Arcs, wherever they are kept -----

  /** The arc kept at node i leads from s to t and carries flow f. */
  ghost predicate IsArc(A: Arcs, i: nat, s: nat, t: nat, f: int) {
    A.OK() && 0 < i < |A.P| && A.F[i] == f && if A.I[i] then s == A.P[i] && t == i else s == i && t == A.P[i]
  }

  /** The tree has an arc from s to t with flow f. */
  ghost predicate HasArc(A: Arcs, s: nat, t: nat, f: int) {
    exists i: nat {:trigger IsArc(A, i, s, t, f)} :: IsArc(A, i, s, t, f)
  }

  /** It has one that is not kept at node y. */
  ghost predicate HasOther(A: Arcs, y: nat, s: nat, t: nat, f: int) {
    exists i: nat {:trigger IsArc(A, i, s, t, f)} :: i != y && IsArc(A, i, s, t, f)
  }

  /** A path below the root. */
  ghost predicate IsBranch(A: Arcs, path: seq<nat>) {
    A.OK() && IsPath(A.P, path) && Distinct(path) && forall l {:trigger path[l]} :: 0 <= l < |path| ==> path[l] != 0
  }

  /** The arc of a node that was turned is now kept at the next one; it still leads where it led. */
  lemma TurnedArc(A: Arcs, path: seq<nat>, r: nat, inbound: bool, flow: int, k: nat, j: nat, s: nat, t: nat, f: int)
    requires IsBranch(A, path) && j < k < |path|
    ensures IsArc(Reversed(A, path, r, inbound, flow, k), path[j + 1], s, t, f) <==> IsArc(A, path[j], s, t, f)
  {
    ReversedAt(A, path, r, inbound, flow, k, j + 1);
    ReversedUnder(A, path, r, inbound, flow, k, j + 1);
    assert A.P[path[j]] == path[j + 1];
  }

  lemma FirstTurnedArc(A: Arcs, path: seq<nat>, r: nat, inbound: bool, flow: int, k: nat, s: nat, t: nat, f: int)
    requires IsBranch(A, path) && k < |path|
    ensures IsArc(Reversed(A, path, r, inbound, flow, k), path[0], s, t, f)
      <==> f == flow && (if inbound then s == r && t == path[0] else s == path[0] && t == r)
  {
    ReversedAt(A, path, r, inbound, flow, k, 0);
    ReversedUnder(A, path, r, inbound, flow, k, 0);
  }

  lemma UnturnedArc(A: Arcs, path: seq<nat>, r: nat, inbound: bool, flow: int, k: nat, i: nat, s: nat, t: nat, f: int)
    requires IsBranch(A, path) && |path| == k + 1 && i !in path
    ensures IsArc(Reversed(A, path, r, inbound, flow, k), i, s, t, f) <==> IsArc(A, i, s, t, f)
  {
    assert path[..k + 1] == path;
    if i < |A.P| {
      ReversedElsewhere(A, path, r, inbound, flow, k, i);
    }
  }

  /** Reversing puts the first arc in and takes out the last one of the path; all others stay. */
  lemma ReversedArcs(A: Arcs, path: seq<nat>, r: nat, inbound: bool, flow: int, k: nat, s: nat, t: nat, f: int)
    requires IsBranch(A, path) && |path| == k + 1
    ensures HasArc(Reversed(A, path, r, inbound, flow, k), s, t, f) <==>
      (f == flow && (if inbound then s == r && t == path[0] else s == path[0] && t == r)) || HasOther(A, path[k], s, t, f)
  {
    var A' := Reversed(A, path, r, inbound, flow, k);
    FirstTurnedArc(A, path, r, inbound, flow, k, s, t, f);
    if HasArc(A', s, t, f) {
      var i: nat :| IsArc(A', i, s, t, f);
      if i in path {
        var j :| 0 <= j < |path| && path[j] == i;
        if j > 0 {
          TurnedArc(A, path, r, inbound, flow, k, j - 1, s, t, f);
          assert path[j - 1] != path[k];
        }
      } else {
        UnturnedArc(A, path, r, inbound, flow, k, i, s, t, f);
      }
    }
    if HasOther(A, path[k], s, t, f) {
      var i: nat :| i != path[k] && IsArc(A, i, s, t, f);
      if i in path {
        var j :| 0 <= j < |path| && path[j] == i;
        TurnedArc(A, path, r, inbound, flow, k, j, s, t, f);
      } else {
        UnturnedArc(A, path, r, inbound, flow, k, i, s, t, f);
      }
    }
  }

  // ----- Augmenting flow along a path -----

  /** Flow e toward the first node of the path, over its first k arcs. */
  ghost function Augmented(A: Arcs, path: seq<nat>, e: int, k: nat): (A': Arcs)
    requires A.OK() && k < |path| && forall l {:trigger path[l]} :: 0 <= l < |path| ==> path[l] < |A.P|
    ensures A'.P == A.P && A'.I == A.I && |A'.F| == |A.F|
  {
    if k == 0 then A
    else
      var before := Augmented(A, path, e, k - 1);
      Arcs(A.P, A.I, before.F[path[k - 1] := before.F[path[k - 1]] + if A.I[path[k - 1]] then e else -e])
  }

  lemma {:induction false} AugmentedElsewhere(A: Arcs, path: seq<nat>, e: int, k: nat, y: nat)
    requires A.OK() && k < |path| && (forall l {:trigger path[l]} :: 0 <= l < |path| ==> path[l] < |A.P|)
    requires y < |A.P| && y !in path[..k]
    ensures Augmented(A, path, e, k).F[y] == A.F[y]
  {
    if k > 0 {
      assert path[..k][k - 1] == path[k - 1];
      assert path[..k - 1] == path[..k][..k - 1];
      AugmentedElsewhere(A, path, e, k - 1, y);
    }
  }

  lemma {:induction false} AugmentedAt(A: Arcs, path: seq<nat>, e: int, k: nat, j: nat)
    requires A.OK() && j < k < |path| && Distinct(path) && (forall l {:trigger path[l]} :: 0 <= l < |path| ==> path[l] < |A.P|)
    ensures Augmented(A, path, e, k).F[path[j]] == A.F[path[j]] + if A.I[path[j]] then e else -e
  {
    if j < k - 1 {
      AugmentedAt(A, path, e, k - 1, j);
      assert path[j] != path[k - 1];
    } else {
      assert path[j] !in path[..j];
      AugmentedElsewhere(A, path, e, j, path[j]);
    }
  }

  /** The first node of the path gains e and the last one loses it. */
  lemma {:induction false} AugmentedNet(A: Arcs, path: seq<nat>, e: int, k: nat, x: nat)
    requires A.OK() && k < |path| && IsPath(A.P, path) && forall l {:trigger path[l]} :: 0 <= l < |path| - 1 ==> path[l] != 0
    ensures NetInto(Augmented(A, path, e, k), x, |A.P|)
         == NetInto(A, x, |A.P|) + (if x == path[0] then e else 0) - (if x == path[k] then e else 0)
  {
    if k > 0 {
      var before := Augmented(A, path, e, k - 1);
      var y := path[k - 1];
      AugmentedNet(A, path, e, k - 1, x);
      var after := before.Put(y, A.P[y], A.I[y], before.F[y] + if A.I[y] then e else -e);
      assert after == Augmented(A, path, e, k);
      NetAfterPut(before, y, A.P[y], A.I[y], before.F[y] + if A.I[y] then e else -e, x, |A.P|);
      assert A.P[path[k - 1]] == path[k];
    }
  }
}
