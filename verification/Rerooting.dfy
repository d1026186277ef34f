/** Re-rooting a subtree: the new order, predecessors and depths that updateNonRootSubtree (src/infimum.cpp)
    has to bring about.

    The subtree of `leave` is cut off and hangs under the node r of the rest, with its node q as the new root.
    Going up from q to `leave`, the new order collects the block of q, then of each node on the way what is in
    front of and what is behind the part collected so far. */
module Rerooting {
  import opened Preorders

  /** D with the depths of the nodes of s changed by c. */
  ghost function ShiftDepths(D: seq<nat>, s: seq<nat>, c: int): (D': seq<nat>)
    ensures |D'| == |D|
    ensures forall y {:trigger D'[y]} :: 0 <= y < |D| ==> D'[y] == if y in s && D[y] + c >= 0 then D[y] + c else D[y]
  {
    seq(|D|, y requires 0 <= y < |D| => if y in s && D[y] + c >= 0 then D[y] + c else D[y])
  }

  /** How much the depths of a subtree change when its root, at depth d0, comes to hang under depth d. */
  function Change(d: nat, d0: nat): int {
    d as int + 1 - d0 as int
  }

  /** N is the block from p to e, re-rooted at q and hung under r; the node at p, on the way up, is at x. */
  ghost predicate Rerooted(ord: seq<nat>, P: seq<nat>, D: seq<nat>, p: nat, e: nat, q: nat, r: nat,
    N: seq<nat>, P': seq<nat>, D': seq<nat>, x: nat)
  {
    |P| == |D| == |P'| == |D'| && IsOrder(ord, |P|) && IsBlock(ord, D, p, e) && q < |P| && r < |P| &&
    |N| > 0 && N[0] == q && multiset(N) == multiset(ord[p..e]) && Grown(N, P', D') &&
    P'[q] == r && D'[q] == D[r] + 1 && OpenAt(N, x, D') && N[x] == ord[p] &&
    (forall k {:trigger N[k]} :: 0 <= k < |N| ==> N[k] < |P| && D'[N[k]] > D[r]) &&
    forall y: nat {:trigger y in N} :: y < |P| && y !in N ==> P'[y] == P[y] && D'[y] == D[y]
  }

  lemma InCollected(ord: seq<nat>, N: seq<nat>, p: nat, e: nat, m: nat)
    requires Distinct(ord) && p <= e <= |ord| && multiset(N) == multiset(ord[p..e]) && m < |ord|
    ensures ord[m] in N <==> p <= m < e
  {
    assert ord[m] in N <==> ord[m] in multiset(N);
    assert ord[m] in multiset(ord[p..e]) <==> ord[m] in ord[p..e];
    if ord[m] in ord[p..e] {
      var k :| 0 <= k < e - p && ord[p..e][k] == ord[m];
      assert ord[p + k] == ord[m];
    }
    if p <= m < e {
      assert ord[p..e][m - p] == ord[m];
    }
  }

  /** The block of q itself. */
  lemma RerootStart(ord: seq<nat>, P: seq<nat>, D: seq<nat>, p: nat, e: nat, r: nat)
    requires |P| == |D| && IsOrder(ord, |P|) && Grown(ord, P, D) && IsBlock(ord, D, p, e) && r < |P|
    ensures Rerooted(ord, P, D, p, e, ord[p], r, ord[p..e], P[ord[p] := r], ShiftDepths(D, ord[p..e], Change(D[r], D[ord[p]])), 0)
  {
    var N, c := ord[p..e], Change(D[r], D[ord[p]]);
    var P', D' := P[ord[p] := r], ShiftDepths(D, N, c);
    assert N == Cut(ord, p, e, e, e);
    CutGrown(ord, P, D, p, e, e, e);
    forall k {:trigger N[k]} | 0 <= k < |N| ensures N[k] < |D| && D[N[k]] >= D[ord[p]] && D'[N[k]] == D[N[k]] + c {
      assert N[k] == ord[p + k];
    }
    forall k {:trigger P[N[k]]} | 1 <= k < |N| ensures P'[N[k]] == P[N[k]] {
      assert N[k] == ord[p + k] && N[0] == ord[p];
    }
    ShiftedGrown(N, P, D, P', D', c);
    forall m {:trigger N[m]} | 0 < m < |N| ensures D'[N[m]] > D'[N[0]] {
      assert N[m] == ord[p + m];
    }
  }

  /** The predecessor of the node at p is at j, its block goes from j to f, and contains the block from p to e. */
  ghost predicate Encloses(ord: seq<nat>, P: seq<nat>, D: seq<nat>, j: nat, f: nat, p: nat, e: nat) {
    IsBlock(ord, D, p, e) && IsBlock(ord, D, j, f) && HungAt(ord, p, j, P, D) && e <= f
  }

  lemma {:induction false} EndOfBlock(ord: seq<nat>, D: seq<nat>, p: nat, e: nat) returns (f: nat)
    requires p < e <= |ord| && forall k {:trigger ord[k]} :: 0 <= k < |ord| ==> ord[k] < |D|
    requires forall m {:trigger ord[m]} :: p < m < e ==> D[ord[m]] > D[ord[p]]
    ensures IsBlock(ord, D, p, f) && e <= f
    decreases |ord| - e
  {
    if e == |ord| || D[ord[e]] <= D[ord[p]] {
      f := e;
    } else {
      f := EndOfBlock(ord, D, p, e + 1);
    }
  }

  lemma NextBlock(ord: seq<nat>, P: seq<nat>, D: seq<nat>, p: nat, e: nat) returns (j: nat, f: nat)
    requires |P| == |D| && IsOrder(ord, |P|) && Grown(ord, P, D) && IsBlock(ord, D, p, e) && p > 0
    ensures j < p && ord[j] == P[ord[p]] && Encloses(ord, P, D, j, f, p, e)
  {
    assert Hung(ord, p, P, D);
    j :| HungAt(ord, p, j, P, D);
    forall m {:trigger ord[m]} | j < m < e ensures D[ord[m]] > D[ord[j]] {
      assert m < p || m == p || D[ord[m]] > D[ord[p]];
    }
    f := EndOfBlock(ord, D, j, e);
  }

  /** Something is behind the inner block exactly when the node there has the same predecessor. */
  lemma SomethingBehind(ord: seq<nat>, P: seq<nat>, D: seq<nat>, j: nat, f: nat, p: nat, e: nat)
    requires |P| == |D| && IsOrder(ord, |P|) && Grown(ord, P, D) && P[0] == |P| && Encloses(ord, P, D, j, f, p, e)
    ensures e < f <==> P[(ord + [0])[e]] == ord[j]
  {
    if e < f {
      assert Hung(ord, e, P, D);
      var i: nat :| HungAt(ord, e, i, P, D);
      HungInBlock(ord, P, D, j, f, e, i);
      HungBehindBlock(ord, P, D, p, e, e, i);
      assert D[ord[e]] <= D[ord[p]];
      assert ord[i] == ord[i] && ord[j] == ord[j];
    } else if e < |ord| {
      assert D[ord[e]] <= D[ord[j]];
      if P[ord[e]] == ord[j] {
        HasPred(ord, P, D, ord[e]);
      }
    }
  }

  /** A node of the next part: not collected yet, still under its old predecessor, and at its new depth. */
  ghost predicate Fresh(y: nat, N: seq<nat>, P: seq<nat>, D: seq<nat>, P': seq<nat>, D': seq<nat>, c: int, d: nat) {
    |P| == |D| == |P'| == |D'| && y < |P| && y !in N && P'[y] == P[y] && D'[y] == D[y] + c && D'[y] > d
  }

  lemma PartIsNew(ord: seq<nat>, P: seq<nat>, D: seq<nat>, j: nat, f: nat, p: nat, e: nat, q: nat, r: nat,
    N: seq<nat>, P': seq<nat>, D': seq<nat>, x: nat, part: seq<nat>, c: int, D'': seq<nat>)
    requires Rerooted(ord, P, D, p, e, q, r, N, P', D', x) && Encloses(ord, P, D, j, f, p, e)
    requires part == Cut(ord, j, p, e, f) && c == Change(D'[ord[p]], D[ord[j]]) && D'' == ShiftDepths(D', part, c)
    ensures |part| > 0 && part[0] == ord[j] && D''[ord[j]] == D'[ord[p]] + 1
    ensures forall k {:trigger part[k]} :: 0 <= k < |part| ==> Fresh(part[k], N, P, D, P', D'', c, D[r])
    ensures forall k {:trigger part[k]} :: 0 < k < |part| ==> D''[part[k]] > D''[part[0]] && part[k] != ord[j]
  {
    assert N[x] == ord[p];
    CutNode(ord, j, p, e, f, 0);
    forall k {:trigger part[k]} | 0 <= k < |part|
      ensures Fresh(part[k], N, P, D, P', D'', c, D[r]) && (k > 0 ==> D[part[k]] > D[ord[j]] && part[k] != ord[j])
    {
      var m := CutAt(j, p, e, k);
      CutNode(ord, j, p, e, f, k);
      InCollected(ord, N, p, e, m);
      assert m > j ==> D[ord[m]] > D[ord[j]];
      assert part[k] in part;
    }
  }

  /** The part is a preorder with its new depths and with a new predecessor for its first node. */
  lemma PartGrown(ord: seq<nat>, P: seq<nat>, D: seq<nat>, j: nat, f: nat, p: nat, e: nat, part: seq<nat>,
    N: seq<nat>, P': seq<nat>, D'': seq<nat>, c: int, d: nat, top: nat)
    requires Grown(ord, P, D) && Encloses(ord, P, D, j, f, p, e) && part == Cut(ord, j, p, e, f) && ord[j] < |P'| == |P|
    requires forall k {:trigger part[k]} :: 0 <= k < |part| ==> Fresh(part[k], N, P, D, P', D'', c, d)
    requires forall k {:trigger part[k]} :: 0 < k < |part| ==> part[k] != ord[j]
    ensures |part| > 0 && Grown(part, P'[ord[j] := top], D'')
  {
    assert part[0] == ord[j];
    CutGrown(ord, P, D, j, p, e, f);
    ShiftedGrown(part, P, D, P'[ord[j] := top], D'', c);
  }

  /** What was collected so far stays a preorder. */
  lemma CollectedGrown(N: seq<nat>, P': seq<nat>, D': seq<nat>, part: seq<nat>, c: int, y: nat, top: nat)
    requires Grown(N, P', D') && y in part && y < |P'| && forall k {:trigger part[k]} :: 0 <= k < |part| ==> part[k] !in N
    ensures Grown(N, P'[y := top], ShiftDepths(D', part, c))
    ensures forall k {:trigger N[k]} :: 0 <= k < |N| ==> N[k] < |D'| && ShiftDepths(D', part, c)[N[k]] == D'[N[k]]
  {
    forall k {:trigger N[k]} | 0 <= k < |N| ensures N[k] < |D'| && N[k] !in part && N[k] != y {
      NodesKnown(N, P', D', k);
    }
    ShiftedGrown(N, P', D', P'[y := top], ShiftDepths(D', part, c), 0);
  }

  /** One step up: the rest of the enclosing block is appended. */
  lemma RerootStep(ord: seq<nat>, P: seq<nat>, D: seq<nat>, j: nat, f: nat, p: nat, e: nat, q: nat, r: nat,
    N: seq<nat>, P': seq<nat>, D': seq<nat>, x: nat, part: seq<nat>, D'': seq<nat>)
    requires Grown(ord, P, D) && Rerooted(ord, P, D, p, e, q, r, N, P', D', x) && Encloses(ord, P, D, j, f, p, e)
    requires part == Cut(ord, j, p, e, f) && D'' == ShiftDepths(D', part, Change(D'[ord[p]], D[ord[j]]))
    ensures Rerooted(ord, P, D, j, f, q, r, N + part, P'[ord[j] := ord[p]], D'', |N|)
  {
    var c := Change(D'[ord[p]], D[ord[j]]);
    PartIsNew(ord, P, D, j, f, p, e, q, r, N, P', D', x, part, c, D'');
    PartGrown(ord, P, D, j, f, p, e, part, N, P', D'', c, D[r], ord[p]);
    assert ord[j] == part[0];
    CollectedGrown(N, P', D', part, c, ord[j], ord[p]);
    AppendGrown(N, part, P'[ord[j] := ord[p]], D'', x);
    StepNodes(ord, j, f, p, e, N);
    StepOpen(N, part, D'', D[r]);
  }

  lemma StepNodes(ord: seq<nat>, j: nat, f: nat, p: nat, e: nat, N: seq<nat>)
    requires j <= p <= e <= f <= |ord| && multiset(N) == multiset(ord[p..e])
    ensures multiset(N + Cut(ord, j, p, e, f)) == multiset(ord[j..f])
  {
    assert ord[j..f] == ord[j..p] + ord[p..e] + ord[e..f];
  }

  lemma StepOpen(N: seq<nat>, part: seq<nat>, D: seq<nat>, d: nat)
    requires |part| > 0 && (forall k {:trigger N[k]} :: 0 <= k < |N| ==> N[k] < |D| && D[N[k]] > d)
    requires forall k {:trigger part[k]} :: 0 <= k < |part| ==> part[k] < |D| && D[part[k]] > d
    requires forall k {:trigger part[k]} :: 0 < k < |part| ==> D[part[k]] > D[part[0]]
    ensures OpenAt(N + part, |N|, D)
    ensures forall k {:trigger (N + part)[k]} :: 0 <= k < |N + part| ==> (N + part)[k] < |D| && D[(N + part)[k]] > d
  {
  }

  // ----- Hanging the re-rooted subtree under its new parent -----

  /** The order without the block from a to b, with N right behind position pr of the old order. */
  function Reattached(ord: seq<nat>, a: nat, b: nat, pr: nat, N: seq<nat>): seq<nat>
    requires a <= b <= |ord| && pr < |ord| && (pr < a || b <= pr)
  {
    if pr < a then ord[..pr + 1] + N + ord[pr + 1..a] + ord[b..]
    else ord[..a] + ord[b..pr + 1] + N + ord[pr + 1..]
  }

  lemma ReattachedIsInsertion(ord: seq<nat>, a: nat, b: nat, pr: nat, N: seq<nat>)
    requires a <= b <= |ord| && pr < |ord| && (pr < a || b <= pr)
    ensures var W := Cut(ord, 0, a, b, |ord|);
      var x := if pr < a then pr else pr - (b - a);
      x < |W| && W[x] == ord[pr] && Reattached(ord, a, b, pr, N) == W[..x + 1] + N + W[x + 1..]
  {
    var W := Cut(ord, 0, a, b, |ord|);
    if pr < a {
      assert W[..pr + 1] == ord[..pr + 1] && W[pr + 1..] == ord[pr + 1..a] + ord[b..];
    } else {
      var x := pr - (b - a);
      assert W[..x + 1] == ord[..a] + ord[b..pr + 1] && W[x + 1..] == ord[pr + 1..];
    }
  }

  lemma MoveForward(A: seq<nat>, B: seq<nat>, C: seq<nat>, E: seq<nat>, N: seq<nat>)
    requires multiset(N) == multiset(C)
    ensures multiset(A + N + B + E) == multiset(A + B + C + E)
  {
  }

  lemma MoveBack(A: seq<nat>, B: seq<nat>, C: seq<nat>, E: seq<nat>, N: seq<nat>)
    requires multiset(N) == multiset(B)
    ensures multiset(A + C + N + E) == multiset(A + B + C + E)
  {
  }

  lemma SameSize(s: seq<nat>, s': seq<nat>)
    requires multiset(s) == multiset(s')
    ensures |s| == |s'|
  {
    assert |s| == |multiset(s)| && |s'| == |multiset(s')|;
  }

  lemma ReattachedMultiset(ord: seq<nat>, a: nat, b: nat, pr: nat, N: seq<nat>)
    requires a <= b <= |ord| && pr < |ord| && (pr < a || b <= pr) && multiset(N) == multiset(ord[a..b])
    ensures multiset(Reattached(ord, a, b, pr, N)) == multiset(ord)
  {
    if pr < a {
      assert ord == ord[..pr + 1] + ord[pr + 1..a] + ord[a..b] + ord[b..];
      MoveForward(ord[..pr + 1], ord[pr + 1..a], ord[a..b], ord[b..], N);
    } else {
      assert ord == ord[..a] + ord[a..b] + ord[b..pr + 1] + ord[pr + 1..];
      MoveBack(ord[..a], ord[a..b], ord[b..pr + 1], ord[pr + 1..], N);
    }
  }

  lemma ReattachedNodes(ord: seq<nat>, n: nat, a: nat, b: nat, pr: nat, N: seq<nat>)
    requires IsOrder(ord, n) && 0 < a <= b <= n && pr < n && (pr < a || b <= pr) && multiset(N) == multiset(ord[a..b])
    ensures IsOrder(Reattached(ord, a, b, pr, N), n)
  {
    ReattachedMultiset(ord, a, b, pr, N);
    SameSize(Reattached(ord, a, b, pr, N), ord);
    SameNodes(ord, Reattached(ord, a, b, pr, N), n);
  }

  /** All nodes make up the block of the root. */
  lemma RootBlock(ord: seq<nat>, P: seq<nat>, D: seq<nat>)
    requires |P| == |D| && IsOrder(ord, |P|) && Grown(ord, P, D) && D[0] == 0
    ensures IsBlock(ord, D, 0, |ord|)
  {
    forall m {:trigger ord[m]} | 0 < m < |ord| ensures D[ord[m]] > D[ord[0]] {
      assert Hung(ord, m, P, D);
    }
  }

  /** The re-rooted tree is a preorder of all nodes again. */
  lemma Reattach(ord: seq<nat>, P: seq<nat>, D: seq<nat>, a: nat, b: nat, q: nat, pr: nat,
    N: seq<nat>, P': seq<nat>, D': seq<nat>, x: nat)
    requires pr < |ord| && Grown(ord, P, D) && Rerooted(ord, P, D, a, b, q, ord[pr], N, P', D', x)
    requires P[0] == |P| && D[0] == 0 && 0 < a && (pr < a || b <= pr)
    ensures IsOrder(Reattached(ord, a, b, pr, N), |P|) && Grown(Reattached(ord, a, b, pr, N), P', D')
    ensures P'[0] == |P| && D'[0] == 0
  {
    ReattachedGrown(ord, P, D, a, b, q, pr, N, P', D', x);
    NotRerooted(ord, P, D, a, b, q, ord[pr], N, P', D', x, 0);
    ReattachedNodes(ord, |P|, a, b, pr, N);
  }

  lemma ReattachedGrown(ord: seq<nat>, P: seq<nat>, D: seq<nat>, a: nat, b: nat, q: nat, pr: nat,
    N: seq<nat>, P': seq<nat>, D': seq<nat>, x: nat)
    requires pr < |ord| && Grown(ord, P, D) && Rerooted(ord, P, D, a, b, q, ord[pr], N, P', D', x)
    requires D[0] == 0 && 0 < a && (pr < a || b <= pr)
    ensures Grown(Reattached(ord, a, b, pr, N), P', D')
  {
    NotRerooted(ord, P, D, a, b, q, ord[pr], N, P', D', x, pr);
    RestStaysGrown(ord, P, D, a, b, q, ord[pr], N, P', D', x);
    HangGrown(ord, a, b, pr, N, P', D');
  }

  lemma HangGrown(ord: seq<nat>, a: nat, b: nat, pr: nat, N: seq<nat>, P: seq<nat>, D: seq<nat>)
    requires a <= b <= |ord| && pr < |ord| && (pr < a || b <= pr) && Grown(Cut(ord, 0, a, b, |ord|), P, D)
    requires Grown(N, P, D) && P[N[0]] == ord[pr] < |D| && D[N[0]] == D[ord[pr]] + 1
    requires forall k {:trigger N[k]} :: 0 <= k < |N| ==> N[k] < |P| && D[N[k]] > D[ord[pr]]
    ensures Grown(Reattached(ord, a, b, pr, N), P, D)
  {
    ReattachedIsInsertion(ord, a, b, pr, N);
    InsertGrown(Cut(ord, 0, a, b, |ord|), if pr < a then pr else pr - (b - a), N, P, D);
  }

  lemma NotRerooted(ord: seq<nat>, P: seq<nat>, D: seq<nat>, a: nat, b: nat, q: nat, r: nat,
    N: seq<nat>, P': seq<nat>, D': seq<nat>, x: nat, m: nat)
    requires Rerooted(ord, P, D, a, b, q, r, N, P', D', x) && m < |ord| && (m < a || b <= m)
    ensures ord[m] < |P| && P'[ord[m]] == P[ord[m]] && D'[ord[m]] == D[ord[m]]
  {
    InCollected(ord, N, a, b, m);
  }

  /** What is not re-rooted keeps its predecessors and depths. */
  lemma RestStaysGrown(ord: seq<nat>, P: seq<nat>, D: seq<nat>, a: nat, b: nat, q: nat, r: nat,
    N: seq<nat>, P': seq<nat>, D': seq<nat>, x: nat)
    requires Grown(ord, P, D) && Rerooted(ord, P, D, a, b, q, r, N, P', D', x) && D[0] == 0 && 0 < a
    ensures Grown(Cut(ord, 0, a, b, |P|), P', D')
  {
    var W := Cut(ord, 0, a, b, |P|);
    RootBlock(ord, P, D);
    CutGrown(ord, P, D, 0, a, b, |P|);
    forall k {:trigger W[k]} | 0 <= k < |W| ensures W[k] < |P| && P'[W[k]] == P[W[k]] && D'[W[k]] == D[W[k]] {
      CutNode(ord, 0, a, b, |P|, k);
      NotRerooted(ord, P, D, a, b, q, r, N, P', D', x, CutAt(0, a, b, k));
    }
    ShiftedGrown(W, P, D, P', D', 0);
  }

  // ----- The new thread -----

  lemma SubChain(T: seq<nat>, s: seq<nat>, a: nat, b: nat)
    requires Chain(T, s) && a <= b <= |s|
    ensures Chain(T, s[a..b])
  {
    var u := s[a..b];
    forall k {:trigger T[u[k]]} | 0 <= k < |u| - 1 ensures u[k] < |T| && T[u[k]] == u[k + 1] {
      assert u[k] == s[a + k] && u[k + 1] == s[a + k + 1];
    }
  }

  /** Where T' agrees with T, it still walks along the old order. */
  lemma WalkKept(T: seq<nat>, T': seq<nat>, ord: seq<nat>, u: nat, v: nat)
    requires Chain(T, ord + [0]) && |T'| == |T| && u <= v <= |ord|
    requires forall m {:trigger ord[m]} :: u <= m < v ==> ord[m] < |T| && T'[ord[m]] == T[ord[m]]
    ensures Chain(T', (ord + [0])[u..v + 1])
  {
    var s := (ord + [0])[u..v + 1];
    SubChain(T, ord + [0], u, v + 1);
    forall k {:trigger s[k]} | 0 <= k < |s| - 1 ensures T'[s[k]] == T[s[k]] {
      assert s[k] == ord[u + k];
    }
    ChainKept(T, T', s);
  }

  /** T' follows the new order when it leads from the parent r into N, from the last node of N to where the
      parent led before, and past the place where the block was. */
  lemma NewThread(T: seq<nat>, T': seq<nat>, ord: seq<nat>, a: nat, b: nat, pr: nat, N: seq<nat>)
    requires IsOrder(ord, |T|) && Chain(T, ord + [0]) && |T'| == |T| && 0 < a < b <= |T| && pr < |T| && (pr < a || b <= pr)
    requires |N| > 0 && Chain(T', N) && T'[ord[pr]] == N[0]
    requires T'[N[|N| - 1]] == if pr == a - 1 then (ord + [0])[b] else T[ord[pr]]
    requires pr != a - 1 ==> T'[ord[a - 1]] == (ord + [0])[b]
    requires forall m {:trigger ord[m]} :: 0 <= m < |T| && !(a <= m < b) && m != pr && m != a - 1 ==> T'[ord[m]] == T[ord[m]]
    ensures Chain(T', Reattached(ord, a, b, pr, N) + [0])
  {
    var w := ord + [0];
    if pr == a - 1 {
      ThreeParts(T, T', ord, a, b, N);
    } else if pr < a {
      FourPartsBefore(T, T', ord, a, b, pr, N);
    } else {
      FourPartsBehind(T, T', ord, a, b, pr, N);
    }
  }

  lemma ThreeParts(T: seq<nat>, T': seq<nat>, ord: seq<nat>, a: nat, b: nat, N: seq<nat>)
    requires IsOrder(ord, |T|) && Chain(T, ord + [0]) && |T'| == |T| && 0 < a < b <= |T|
    requires |N| > 0 && Chain(T', N) && T'[ord[a - 1]] == N[0] && T'[N[|N| - 1]] == (ord + [0])[b]
    requires forall m {:trigger ord[m]} :: 0 <= m < |T| && !(a - 1 <= m < b) ==> T'[ord[m]] == T[ord[m]]
    ensures Chain(T', Reattached(ord, a, b, a - 1, N) + [0])
  {
    var w := ord + [0];
    WalkKept(T, T', ord, 0, a - 1);
    WalkKept(T, T', ord, b, |ord|);
    assert w[a - 1] == ord[a - 1];
    JoinGap(T', w, a, b, N);
    WalkGap(ord, a, b, N);
  }

  lemma JoinGap(T: seq<nat>, w: seq<nat>, a: nat, b: nat, N: seq<nat>)
    requires 0 < a < b < |w| && |N| > 0 && Chain(T, w[0..a]) && Chain(T, w[b..|w|]) && Chain(T, N)
    requires w[a - 1] < |T| && T[w[a - 1]] == N[0] && T[N[|N| - 1]] == w[b]
    ensures Chain(T, w[0..a] + N + w[b..|w|])
  {
    SliceEnds(w, 0, a);
    SliceEnds(w, b, |w|);
    ChainParts(T, w[0..a], N);
    ChainParts(T, w[0..a] + N, w[b..|w|]);
  }

  lemma WalkGap(ord: seq<nat>, a: nat, b: nat, N: seq<nat>)
    requires 0 < a < b <= |ord|
    ensures var w := ord + [0]; Reattached(ord, a, b, a - 1, N) + [0] == w[0..a] + N + w[b..|w|]
  {
  }

  lemma JoinFour(T: seq<nat>, A: seq<nat>, B: seq<nat>, C: seq<nat>, E: seq<nat>)
    requires |A| > 0 && |B| > 0 && |C| > 0 && |E| > 0 && Chain(T, A) && Chain(T, B) && Chain(T, C) && Chain(T, E)
    requires T[A[|A| - 1]] == B[0] && T[B[|B| - 1]] == C[0] && T[C[|C| - 1]] == E[0]
    ensures Chain(T, A + B + C + E)
  {
    ChainParts(T, A, B);
    ChainParts(T, A + B, C);
    ChainParts(T, A + B + C, E);
  }

  lemma WalkBefore(ord: seq<nat>, a: nat, b: nat, pr: nat, N: seq<nat>)
    requires 0 < a < b <= |ord| && pr < a - 1
    ensures var w := ord + [0]; Reattached(ord, a, b, pr, N) + [0] == w[0..pr + 1] + N + w[pr + 1..a] + w[b..|w|]
  {
  }

  lemma WalkBehind(ord: seq<nat>, a: nat, b: nat, pr: nat, N: seq<nat>)
    requires 0 < a < b <= pr < |ord|
    ensures var w := ord + [0]; Reattached(ord, a, b, pr, N) + [0] == w[0..a] + w[b..pr + 1] + N + w[pr + 1..|w|]
  {
  }

  lemma FourPartsBefore(T: seq<nat>, T': seq<nat>, ord: seq<nat>, a: nat, b: nat, pr: nat, N: seq<nat>)
    requires IsOrder(ord, |T|) && Chain(T, ord + [0]) && |T'| == |T| && 0 < a < b <= |T| && pr < a - 1
    requires |N| > 0 && Chain(T', N) && T'[ord[pr]] == N[0] && T'[N[|N| - 1]] == T[ord[pr]] && T'[ord[a - 1]] == (ord + [0])[b]
    requires forall m {:trigger ord[m]} :: 0 <= m < |T| && !(a <= m < b) && m != pr && m != a - 1 ==> T'[ord[m]] == T[ord[m]]
    ensures Chain(T', Reattached(ord, a, b, pr, N) + [0])
  {
    var w := ord + [0];
    WalkKept(T, T', ord, 0, pr);
    WalkKept(T, T', ord, pr + 1, a - 1);
    WalkKept(T, T', ord, b, |ord|);
    assert w[pr] == ord[pr] && T[w[pr]] == w[pr + 1];
    assert w[a - 1] == ord[a - 1];
    JoinBefore(T', w, a, b, pr, N);
    WalkBefore(ord, a, b, pr, N);
  }

  lemma JoinBefore(T: seq<nat>, w: seq<nat>, a: nat, b: nat, pr: nat, N: seq<nat>)
    requires 0 < a < b < |w| && pr < a - 1 && |N| > 0
    requires Chain(T, w[0..pr + 1]) && Chain(T, w[pr + 1..a]) && Chain(T, w[b..|w|]) && Chain(T, N)
    requires w[pr] < |T| && T[w[pr]] == N[0] && T[N[|N| - 1]] == w[pr + 1] && w[a - 1] < |T| && T[w[a - 1]] == w[b]
    ensures Chain(T, w[0..pr + 1] + N + w[pr + 1..a] + w[b..|w|])
  {
    SliceEnds(w, 0, pr + 1);
    SliceEnds(w, pr + 1, a);
    SliceEnds(w, b, |w|);
    JoinFour(T, w[0..pr + 1], N, w[pr + 1..a], w[b..|w|]);
  }

  lemma SliceEnds(w: seq<nat>, u: nat, v: nat)
    requires u < v <= |w|
    ensures |w[u..v]| == v - u && w[u..v][0] == w[u] && w[u..v][v - u - 1] == w[v - 1]
  {
  }

  lemma FourPartsBehind(T: seq<nat>, T': seq<nat>, ord: seq<nat>, a: nat, b: nat, pr: nat, N: seq<nat>)
    requires IsOrder(ord, |T|) && Chain(T, ord + [0]) && |T'| == |T| && 0 < a < b <= pr < |T|
    requires |N| > 0 && Chain(T', N) && T'[ord[pr]] == N[0] && T'[N[|N| - 1]] == T[ord[pr]] && T'[ord[a - 1]] == (ord + [0])[b]
    requires forall m {:trigger ord[m]} :: 0 <= m < |T| && !(a <= m < b) && m != pr && m != a - 1 ==> T'[ord[m]] == T[ord[m]]
    ensures Chain(T', Reattached(ord, a, b, pr, N) + [0])
  {
    var w := ord + [0];
    WalkKept(T, T', ord, 0, a - 1);
    WalkKept(T, T', ord, b, pr);
    WalkKept(T, T', ord, pr + 1, |ord|);
    assert w[pr] == ord[pr] && T[w[pr]] == w[pr + 1];
    assert w[a - 1] == ord[a - 1];
    JoinBehind(T', w, a, b, pr, N);
    WalkBehind(ord, a, b, pr, N);
  }

  lemma JoinBehind(T: seq<nat>, w: seq<nat>, a: nat, b: nat, pr: nat, N: seq<nat>)
    requires 0 < a < b <= pr < |w| - 1 && |N| > 0
    requires Chain(T, w[0..a]) && Chain(T, w[b..pr + 1]) && Chain(T, w[pr + 1..|w|]) && Chain(T, N)
    requires w[pr] < |T| && T[w[pr]] == N[0] && T[N[|N| - 1]] == w[pr + 1] && w[a - 1] < |T| && T[w[a - 1]] == w[b]
    ensures Chain(T, w[0..a] + w[b..pr + 1] + N + w[pr + 1..|w|])
  {
    SliceEnds(w, 0, a);
    SliceEnds(w, b, pr + 1);
    SliceEnds(w, pr + 1, |w|);
    JoinFour(T, w[0..a], w[b..pr + 1], N, w[pr + 1..|w|]);
  }
}
