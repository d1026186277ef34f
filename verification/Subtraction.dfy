/** Subtraction of zones: internSubtract (algorithm 3) and ptr_subtract of src/fed.cpp. */
module Subtraction {
  import opened Bounds
  import opened Zones
  import opened Closure
  import opened Closing
  import opened Constraining
  import opened Relations
  import opened MinimalGraph
  import opened Words
  import opened Analysis
  import opened Restoring
  import opened Positions
  import opened Packed
  import opened Federations

  /** The constraints of S decide membership in m, given that no clock is negative. */
  ghost predicate Decides(S: set<(nat, nat)>, m: Dbm) {
    PairsBelow(S, |m|) &&
    (forall i: nat, j: nat {:trigger (i, j) in S} :: (i, j) in S ==> m[i][j].Bound?) &&
    forall v: Valuation :: MeetsChosen(v, m, S) && (forall j :: 0 <= j < |v| ==> v[0] <= v[j]) ==> Meets(v, m)
  }

  ghost predicate MeetsChosen(v: Valuation, m: Dbm, S: set<(nat, nat)>) {
    |v| == |m| && forall i: nat, j: nat {:trigger (i, j) in S} :: (i, j) in S && i < |m| && j < |m| ==> Sat(v[i] - v[j], m[i][j])
  }

  /** The kept constraints decide, and so do those that are left by dbm_cleanBitMatrix. */
  lemma SavedDecides(m: Dbm)
    requires Valid(m)
    ensures Decides(SavedBits(m), m) && Decides(KeptBits(m), m)
  {
    forall i: nat, j: nat {:trigger (i, j) in KeptBits(m)} | (i, j) in KeptBits(m)
      ensures i < |m| && j < |m| && i != j && m[i][j].Bound?
    {
      KeptIsOffDiagonal(m, i, j);
    }
    forall v: Valuation | MeetsChosen(v, m, SavedBits(m)) && forall j :: 0 <= j < |v| ==> v[0] <= v[j] ensures Meets(v, m) {
      SavedSuffice(m, v);
    }
    forall v: Valuation | MeetsChosen(v, m, KeptBits(m)) && forall j :: 0 <= j < |v| ==> v[0] <= v[j] ensures Meets(v, m) {
      assert MeetsChosen(v, m, SavedBits(m));
    }
  }

  // ----- The state of the splitting loop -----

  /** What is left of m1 - m2 once the pieces in r were split off and m remains. */
  ghost predicate SplitInto(m1: Dbm, m2: Dbm, r: Fed, m: Dbm) {
    (forall v: Valuation :: InZone(v, m1) && !InZone(v, m2) <==> InFed(v, r) || (InZone(v, m) && !InZone(v, m2))) &&
    (forall v: Valuation :: !(InFed(v, r) && InZone(v, m)))
  }

  /** The constraints of S that are not listed any more hold in m already. */
  ghost predicate Pending(m2: Dbm, m: Dbm, S: set<(nat, nat)>, idx: seq<(nat, nat)>) {
    |m| == |m2| && PairsBelow(S, |m2|) &&
    (forall k {:trigger idx[k]} :: 0 <= k < |idx| ==> idx[k] in S) &&
    forall i: nat, j: nat {:trigger (i, j) in S} :: (i, j) in S ==> (i, j) in idx || Le(m[i][j], m2[i][j])
  }

  ghost predicate IsDifference(r: Fed, m1: Dbm, m2: Dbm) {
    forall v: Valuation :: InFed(v, r) <==> InZone(v, m1) && !InZone(v, m2)
  }

  /** With no constraint pending, m lies in m2. */
  lemma NothingPending(m1: Dbm, m2: Dbm, m: Dbm, S: set<(nat, nat)>)
    requires Valid(m) && Decides(S, m2) && Pending(m2, m, S, [])
    ensures Included(m, m2)
  {
    forall v: Valuation | InZone(v, m) ensures InZone(v, m2) {
      forall i: nat, j: nat {:trigger (i, j) in S} | (i, j) in S ensures Sat(v[i] - v[j], m2[i][j]) {
        SatLe(v[i] - v[j], m[i][j], m2[i][j]);
      }
      forall j | 0 <= j < |v| ensures v[0] <= v[j] {
        MeetsAt(v, m, 0, j);
        SatLe(v[0] - v[j], m[0][j], LE_ZERO);
      }
    }
  }

  datatype Choice = Outside | Covered | Picked(c: nat)

  /** indices[k] = indices[--nbConstraints] */
  function SwapRemove(idx: seq<(nat, nat)>, k: nat): (idx': seq<(nat, nat)>)
    requires k < |idx|
    ensures |idx'| == |idx| - 1
  {
    idx[k := idx[|idx| - 1]][..|idx| - 1]
  }

  lemma SwapRemoveKeeps(idx: seq<(nat, nat)>, k: nat)
    requires k < |idx|
    ensures forall e :: e in idx ==> e in SwapRemove(idx, k) || e == idx[k]
    ensures forall e :: e in SwapRemove(idx, k) ==> e in idx
  {
    var idx' := SwapRemove(idx, k);
    forall e | e in idx ensures e in idx' || e == idx[k] {
      var x :| 0 <= x < |idx| && idx[x] == e;
      if x < |idx| - 1 && x != k {
        assert idx'[x] == e;
      } else if x == |idx| - 1 && k < x {
        assert idx'[k] == e;
      }
    }
  }

  lemma PendingDrop(m2: Dbm, m: Dbm, S: set<(nat, nat)>, idx: seq<(nat, nat)>, k: nat)
    requires Pending(m2, m, S, idx) && k < |idx|
    requires idx[k].0 < |m| && idx[k].1 < |m| && Le(m[idx[k].0][idx[k].1], m2[idx[k].0][idx[k].1])
    ensures Pending(m2, m, S, SwapRemove(idx, k))
  {
    SwapRemoveKeeps(idx, k);
    var idx' := SwapRemove(idx, k);
    forall x {:trigger idx'[x]} | 0 <= x < |idx'| ensures idx'[x] in S {
      assert idx'[x] in idx;
    }
  }

  lemma PendingIndex(m2: Dbm, m: Dbm, S: set<(nat, nat)>, idx: seq<(nat, nat)>, k: nat)
    requires Pending(m2, m, S, idx) && k < |idx|
    ensures idx[k].0 < |m| && idx[k].1 < |m| && idx[k].0 != idx[k].1 && (idx[k].0, idx[k].1) in S
  {
    assert idx[k] == (idx[k].0, idx[k].1);
  }

  /** Both constraints of a pair that can be split: m2 cuts m, and leaves something on the other side. */
  ghost predicate Splits(m2: Dbm, m: Dbm, i: nat, j: nat) {
    i < |m| && j < |m| && |m| == |m2| && i != j && m2[i][j].Bound? && Lt(m2[i][j], m[i][j]) && Lt(Neg(m2[i][j]), m[j][i])
  }

  /** "Find constraint i,j to subtract".  The heuristic that rates the constraints is left open: any of
      those that pass the tests may be picked. */
  method FindConstraint(a: array2<Raw>, m2: Dbm, idx0: seq<(nat, nat)>, ghost S: set<(nat, nat)>) returns (choice: Choice, idx: seq<(nat, nat)>)
    requires IsSquare(a) && Pending(m2, Mat(a), S, idx0) && Decides(S, m2) && |idx0| > 0
    ensures Pending(m2, Mat(a), S, idx) && |idx| <= |idx0|
    ensures choice.Outside? ==> Apart(Mat(a), m2)
    ensures choice.Covered? ==> idx == []
    ensures choice.Picked? ==> choice.c < |idx| && Splits(m2, Mat(a), idx[choice.c].0, idx[choice.c].1)
  {
    ghost var m := Mat(a);
    idx := idx0;
    var c, k, found := 0, 0, false;
    while k < |idx|
      invariant k <= |idx| <= |idx0| && |idx| > 0 && Pending(m2, m, S, idx) && (k > 0 ==> found)
      invariant found ==> c < k && Splits(m2, m, idx[c].0, idx[c].1)
      decreases |idx| - k
    {
      PendingIndex(m2, m, S, idx, k);
      var (ci, cj) := idx[k];
      assert m[ci][cj] == a[ci, cj] && m[cj][ci] == a[cj, ci];
      if Le(a[cj, ci], Neg(m2[ci][cj])) {
        OpposedApart(m2, m, ci, cj);
        return Outside, idx;
      }
      if Le(a[ci, cj], m2[ci][cj]) {
        PendingDrop(m2, m, S, idx, k);
        idx := SwapRemove(idx, k);
        if |idx| == 0 {
          return Covered, idx;
        }
        continue;
      }
      var better: bool := *;
      if !found || better {
        c, found := k, true;
      }
      k := k + 1;
    }
    return Picked(c), idx;
  }

  lemma OpposedApart(m2: Dbm, m: Dbm, i: nat, j: nat)
    requires |m| == |m2| && i < |m| && j < |m| && m2[i][j].Bound? && Le(m[j][i], Neg(m2[i][j]))
    ensures Apart(m, m2)
  {
    forall v: Valuation ensures !(InZone(v, m) && InZone(v, m2)) {
      if InZone(v, m) && InZone(v, m2) {
        OppositeBoundsEmpty(m, i, j, m2[i][j], v);
      }
    }
  }

  /** The two halves of a split. */
  lemma SplitZone(m2: Dbm, m: Dbm, i: nat, j: nat)
    requires Valid(m) && Splits(m2, m, i, j)
    ensures CanTighten(m, j, i, Neg(m2[i][j])) && CanTighten(m, i, j, m2[i][j])
    ensures Valid(Tightened(m, j, i, Neg(m2[i][j]))) && Valid(Tightened(m, i, j, m2[i][j]))
    ensures forall v: Valuation :: InZone(v, Tightened(m, j, i, Neg(m2[i][j]))) <==> InZone(v, m) && !Sat(v[i] - v[j], m2[i][j])
    ensures forall v: Valuation :: InZone(v, Tightened(m, i, j, m2[i][j])) <==> InZone(v, m) && Sat(v[i] - v[j], m2[i][j])
  {
    var c := m2[i][j];
    TightenedIsValid(m, j, i, Neg(c));
    TightenedIsValid(m, i, j, c);
    forall v: Valuation ensures InZone(v, Tightened(m, j, i, Neg(c))) <==> InZone(v, m) && !Sat(v[i] - v[j], c) {
      TightenedMeets(m, j, i, Neg(c), v);
      if |v| == |m| {
        NegComplements(v[i] - v[j], c);
      }
    }
    forall v: Valuation ensures InZone(v, Tightened(m, i, j, c)) <==> InZone(v, m) && Sat(v[i] - v[j], c) {
      TightenedMeets(m, i, j, c, v);
    }
  }

  lemma TightenedIsValid(m: Dbm, b: nat, a: nat, c: Raw)
    requires Valid(m) && b < |m| && a < |m| && CanTighten(m, b, a, c)
    ensures Valid(Tightened(m, b, a, c))
  {
    TightenedCanonical(m, b, a, c);
    TightenedCutsZone(m, b, a, c);
    CutKeepsValid(m, Tightened(m, b, a, c));
  }

  /** Splitting on one constraint: a piece outside m2 is set aside, the rest remains. */
  lemma SplitStep(m1: Dbm, m2: Dbm, r: Fed, m: Dbm, i: nat, j: nat)
    requires Valid(m) && Splits(m2, m, i, j) && SplitInto(m1, m2, r, m)
    ensures SplitInto(m1, m2, [Tightened(m, j, i, Neg(m2[i][j]))] + r, Tightened(m, i, j, m2[i][j]))
  {
    SplitZone(m2, m, i, j);
    var piece, rest := Tightened(m, j, i, Neg(m2[i][j])), Tightened(m, i, j, m2[i][j]);
    forall v: Valuation ensures InFed(v, [piece] + r) <==> InFed(v, r) || InZone(v, piece) {
      InFedAppend(v, [piece], r);
      InFedOne(v, piece);
    }
    forall v: Valuation | InZone(v, piece) ensures InZone(v, m) && !InZone(v, m2) {
      assert !Sat(v[i] - v[j], m2[i][j]);
    }
    forall v: Valuation | InZone(v, m) && !InZone(v, m2) ensures InZone(v, piece) || (InZone(v, rest) && !InZone(v, m2)) {
    }
  }

  lemma PieceIsApart(r: Fed, m: Dbm, piece: Dbm)
    requires PairwiseDisjoint(r) && (forall v: Valuation :: !(InFed(v, r) && InZone(v, m))) && Included(piece, m)
    ensures PairwiseDisjoint([piece] + r)
  {
    var r' := [piece] + r;
    forall x, y {:trigger r'[x], r'[y]} | 0 <= x < y < |r'| ensures Apart(r'[x], r'[y]) {
      if x == 0 {
        forall v: Valuation ensures !(InZone(v, piece) && InZone(v, r[y - 1])) {
          if InZone(v, r[y - 1]) {
            assert InFed(v, r);
          }
        }
      } else {
        assert r'[x] == r[x - 1] && r'[y] == r[y - 1];
      }
    }
  }

  lemma PendingAfterSplit(m2: Dbm, m: Dbm, S: set<(nat, nat)>, idx: seq<(nat, nat)>, c: nat)
    requires Valid(m) && Pending(m2, m, S, idx) && c < |idx| && Splits(m2, m, idx[c].0, idx[c].1)
    ensures Pending(m2, Tightened(m, idx[c].0, idx[c].1, m2[idx[c].0][idx[c].1]), S, SwapRemove(idx, c))
  {
    var (i, j) := idx[c];
    var m' := Tightened(m, i, j, m2[i][j]);
    assert m[i][i] == LE_ZERO && m[j][j] == LE_ZERO;
    assert Pending(m2, m', S, idx);
    PendingDrop(m2, m', S, idx, c);
  }

  /** The remainder is all there is left when it lies outside m2, and nothing when it lies inside. */
  lemma FinishSplit(m1: Dbm, m2: Dbm, r: Fed, m: Dbm)
    requires SplitInto(m1, m2, r, m)
    ensures Apart(m, m2) ==> IsDifference([m] + r, m1, m2)
    ensures Included(m, m2) ==> IsDifference(r, m1, m2)
  {
    forall v: Valuation ensures InFed(v, [m] + r) <==> InFed(v, r) || InZone(v, m) {
      InFedAppend(v, [m], r);
      InFedOne(v, m);
    }
  }

  /** The constraints of S that cut m1. */
  ghost function Cutting(m1: Dbm, m2: Dbm, S: set<(nat, nat)>): (C: set<(nat, nat)>) {
    set e | e in S && e.0 < |m2| == |m1| && e.1 < |m2| && Lt(m2[e.0][e.1], m1[e.0][e.1])
  }

  lemma CuttingOneMore(m1: Dbm, m2: Dbm, L: seq<(nat, nat)>, S: set<(nat, nat)>, k: nat)
    requires IsListing(L, S) && k < |L| && |m1| == |m2| && L[k].0 < |m2| && L[k].1 < |m2|
    ensures |Cutting(m1, m2, Listed(L, k + 1))| ==
      |Cutting(m1, m2, Listed(L, k))| + if Lt(m2[L[k].0][L[k].1], m1[L[k].0][L[k].1]) then 1 else 0
  {
    ListedOneMore(L, k);
    assert L[k] !in Listed(L, k) by {
      forall l {:trigger L[l]} | 0 <= l < k ensures L[l] != L[k] {
        assert Index(S, L[l].0, L[l].1) == l && Index(S, L[k].0, L[k].1) == k;
      }
    }
    var C := Cutting(m1, m2, Listed(L, k));
    if Lt(m2[L[k].0][L[k].1], m1[L[k].0][L[k].1]) {
      assert Cutting(m1, m2, Listed(L, k + 1)) == C + {L[k]};
    } else {
      assert Cutting(m1, m2, Listed(L, k + 1)) == C;
    }
  }

  /** The indices that were written for the first k listed constraints. */
  ghost predicate IndicesTo(m1: Dbm, m2: Dbm, L: seq<(nat, nat)>, S: set<(nat, nat)>, k: nat, idx: seq<(nat, nat)>) {
    |m1| == |m2| && k <= |L| && |idx| == |Cutting(m1, m2, Listed(L, k))| &&
    (forall x {:trigger idx[x]} :: 0 <= x < |idx| ==> idx[x] in S) &&
    forall x {:trigger L[x]} :: 0 <= x < k ==>
      L[x] in idx || (L[x].0 < |m1| && L[x].1 < |m1| && Le(m1[L[x].0][L[x].1], m2[L[x].0][L[x].1]))
  }

  lemma IndexOneMore(m1: Dbm, m2: Dbm, L: seq<(nat, nat)>, S: set<(nat, nat)>, k: nat, idx: seq<(nat, nat)>)
    requires IndicesTo(m1, m2, L, S, k, idx) && k < |L| && PairsBelow(S, |m2|) && IsListing(L, S)
    ensures L[k].0 < |m2| && L[k].1 < |m2|
    ensures IndicesTo(m1, m2, L, S, k + 1, if Lt(m2[L[k].0][L[k].1], m1[L[k].0][L[k].1]) then idx + [L[k]] else idx)
  {
    assert (L[k].0, L[k].1) in S;
    CuttingOneMore(m1, m2, L, S, k);
    if Lt(m2[L[k].0][L[k].1], m1[L[k].0][L[k].1]) {
      InLonger(idx, L[k]);
    }
  }

  lemma InLonger(idx: seq<(nat, nat)>, e: (nat, nat))
    ensures forall x: (nat, nat) {:trigger x in idx + [e]} :: x in idx + [e] <==> x in idx || x == e
  {
  }

  lemma AllIndices(m1: Dbm, m2: Dbm, L: seq<(nat, nat)>, S: set<(nat, nat)>, idx: seq<(nat, nat)>)
    requires IndicesTo(m1, m2, L, S, |L|, idx) && PairsBelow(S, |m2|) && IsListing(L, S)
    ensures Pending(m2, m1, S, idx) && |idx| == |Cutting(m1, m2, S)|
  {
    AllListed(L, S);
    forall i: nat, j: nat {:trigger (i, j) in S} | (i, j) in S ensures (i, j) in idx || Le(m1[i][j], m2[i][j]) {
      ListedAt(L, S, i, j);
    }
  }

  /** The listed constraints that have some effect: the loop that writes the indices. */
  method ReadIndices(m1: Dbm, m2: Dbm, L: seq<(nat, nat)>, ghost S: set<(nat, nat)>) returns (idx: seq<(nat, nat)>)
    requires |m1| == |m2| && PairsBelow(S, |m2|) && IsListing(L, S)
    ensures Pending(m2, m1, S, idx) && |idx| == |Cutting(m1, m2, S)|
  {
    idx := [];
    var k := 0;
    NothingListed(L);
    assert Cutting(m1, m2, Listed(L, k)) == {};
    while k < |L|
      invariant IndicesTo(m1, m2, L, S, k, idx)
    {
      IndexOneMore(m1, m2, L, S, k, idx);
      var (i, j) := L[k];
      if Lt(m2[i][j], m1[i][j]) {
        idx := idx + [(i, j)];
      }
      k := k + 1;
    }
    AllIndices(m1, m2, L, S, idx);
  }

  /** internSubtract: pairwise disjoint valid matrices whose union is exactly m1 minus m2, whatever constraints the
      heuristic picks, and at most one for each constraint of m2 that cuts m1. */
  method InternSubtract(m1: Dbm, m2: Dbm, bits: seq<Word>, nb: nat, ghost S: set<(nat, nat)>) returns (r: Fed)
    requires Valid(m1) && Valid(m2) && |m1| == |m2|
    requires MarksPairs(bits, |m2|, S) && nb == |S| && Decides(S, m2)
    ensures FedOK(r, |m1|) && IsDifference(r, m1, m2) && PairwiseDisjoint(r) && |r| <= |Cutting(m1, m2, S)|
  {
    r := [];
    StartSplit(m1, m2);
    var L := [];
    if nb != 0 {
      L := ListPairs(bits, |m2|, nb, S);
    } else {
      assert S == {};
    }
    var idx := ReadIndices(m1, m2, L, S);
    if |idx| == 0 {
      NothingPending(m1, m2, m1, S);
      FinishSplit(m1, m2, [], m1);
      return [];
    }
    r := SplitAll(m1, m2, idx, S);
  }

  lemma StartSplit(m1: Dbm, m2: Dbm)
    ensures SplitInto(m1, m2, [], m1)
  {
    forall v: Valuation ensures !InFed(v, []) {
    }
  }

  lemma RestIsPiece(m1: Dbm, m2: Dbm, r: Fed, m: Dbm)
    requires SplitInto(m1, m2, r, m) && Apart(m, m2) && FedOK(r, |m1|) && PairwiseDisjoint(r) && |m| == |m1| && Valid(m)
    ensures FedOK([m] + r, |m1|) && IsDifference([m] + r, m1, m2) && PairwiseDisjoint([m] + r)
  {
    FinishSplit(m1, m2, r, m);
    PieceIsApart(r, m, m);
  }

  /** The splitting loop. */
  method SplitAll(m1: Dbm, m2: Dbm, idx0: seq<(nat, nat)>, ghost S: set<(nat, nat)>) returns (r: Fed)
    requires Valid(m1) && |m1| == |m2| && Decides(S, m2) && Pending(m2, m1, S, idx0) && |idx0| > 0
    ensures FedOK(r, |m1|) && IsDifference(r, m1, m2) && PairwiseDisjoint(r) && |r| <= |idx0|
  {
    r := [];
    StartSplit(m1, m2);
    var idx := idx0;
    var dbm1 := CopyOf(m1);
    while true
      invariant IsSquare(dbm1) && dbm1.Length0 == |m1| && Valid(Mat(dbm1)) && |idx| > 0
      invariant Pending(m2, Mat(dbm1), S, idx) && SplitInto(m1, m2, r, Mat(dbm1))
      invariant FedOK(r, |m1|) && PairwiseDisjoint(r) && |r| + |idx| <= |idx0|
      decreases |idx|
    {
      var choice: Choice;
      choice, idx := FindConstraint(dbm1, m2, idx, S);
      if choice.Outside? {
        RestIsPiece(m1, m2, r, Mat(dbm1));
        return [Mat(dbm1)] + r;
      }
      if choice.Covered? {
        NothingPending(m1, m2, Mat(dbm1), S);
        FinishSplit(m1, m2, r, Mat(dbm1));
        return r;
      }
      var done: bool;
      done, r, idx := SplitOne(dbm1, m1, m2, r, idx, choice.c, S);
      if done {
        return r;
      }
    }
  }

  /** Subtract the constraint that was picked. */
  method SplitOne(dbm1: array2<Raw>, ghost m1: Dbm, m2: Dbm, r0: Fed, idx0: seq<(nat, nat)>, c: nat, ghost S: set<(nat, nat)>)
    returns (done: bool, r: Fed, idx: seq<(nat, nat)>)
    requires IsSquare(dbm1) && dbm1.Length0 == |m1| && Valid(Mat(dbm1)) && Decides(S, m2)
    requires Pending(m2, Mat(dbm1), S, idx0) && SplitInto(m1, m2, r0, Mat(dbm1)) && FedOK(r0, |m1|) && PairwiseDisjoint(r0)
    requires c < |idx0| && Splits(m2, Mat(dbm1), idx0[c].0, idx0[c].1)
    modifies dbm1
    ensures FedOK(r, |m1|) && PairwiseDisjoint(r) && |idx| == |idx0| - 1 && (!done ==> |idx| > 0) && |r| == |r0| + 1
    ensures done ==> IsDifference(r, m1, m2)
    ensures !done ==> Valid(Mat(dbm1)) && Pending(m2, Mat(dbm1), S, idx) && SplitInto(m1, m2, r, Mat(dbm1))
  {
    var (i, j) := idx0[c];
    idx := SwapRemove(idx0, c);
    SplitOutcome(m1, m2, r0, Mat(dbm1), idx0, c, S);
    if |idx| == 0 {
      Tighten(dbm1, j, i, Neg(m2[i][j]));
      return true, [Mat(dbm1)] + r0, idx;
    }
    var piece := CopyOf(Mat(dbm1));
    Tighten(piece, j, i, Neg(m2[i][j]));
    r := [Mat(piece)] + r0;
    Tighten(dbm1, i, j, m2[i][j]);
    return false, r, idx;
  }

  /** What subtracting the picked constraint makes of the remainder and of the pieces. */
  lemma SplitOutcome(m1: Dbm, m2: Dbm, r: Fed, m: Dbm, idx: seq<(nat, nat)>, c: nat, S: set<(nat, nat)>)
    requires |m| == |m1| && Valid(m) && Decides(S, m2) && Pending(m2, m, S, idx) && SplitInto(m1, m2, r, m)
    requires FedOK(r, |m1|) && PairwiseDisjoint(r) && c < |idx| && Splits(m2, m, idx[c].0, idx[c].1)
    ensures var (i, j) := idx[c];
      var piece, rest := Tightened(m, j, i, Neg(m2[i][j])), Tightened(m, i, j, m2[i][j]);
      && CanTighten(m, j, i, Neg(m2[i][j])) && CanTighten(m, i, j, m2[i][j])
      && Valid(rest) && FedOK([piece] + r, |m1|) && PairwiseDisjoint([piece] + r)
      && Pending(m2, rest, S, SwapRemove(idx, c)) && SplitInto(m1, m2, [piece] + r, rest)
      && (|idx| == 1 ==> IsDifference([piece] + r, m1, m2))
  {
    var (i, j) := idx[c];
    SplitZone(m2, m, i, j);
    SplitStep(m1, m2, r, m, i, j);
    PendingAfterSplit(m2, m, S, idx, c);
    PieceIsApart(r, m, Tightened(m, j, i, Neg(m2[i][j])));
    if |idx| == 1 {
      assert SwapRemove(idx, c) == [];
      NothingPending(m1, m2, Tightened(m, i, j, m2[i][j]), S);
      FinishSplit(m1, m2, [Tightened(m, j, i, Neg(m2[i][j]))] + r, Tightened(m, i, j, m2[i][j]));
    }
  }

  // ----- Subtraction from a federation -----

  ghost predicate IsFedDifference(r: Fed, F: Fed, m2: Dbm) {
    forall v: Valuation :: InFed(v, r) <==> InFed(v, F) && !InZone(v, m2)
  }

  /** dbm_cleanBitMatrix(arg, dbm_analyzeForMinDBM(arg)) */
  method MinimalBits(arg: Dbm) returns (bits: seq<Word>, nb: nat)
    requires Valid(arg) && |arg| <= NONE
    ensures MarksPairs(bits, |arg|, SavedBits(arg)) && nb == |SavedBits(arg)|
  {
    var a := CopyOf(arg);
    var table := new Word[WordsFor(Cells(|arg|))];
    nb := AnalyzeForMinDBM(a, table);
    assert Mat(a) == arg;
    nb := CleanBitMatrix(a, table, nb);
    bits := table[..];
  }

  /** Every non-negative valuation is in m when there is nothing to check. */
  lemma NothingToCheck(m: Dbm, S: set<(nat, nat)>, F: Fed)
    requires Decides(S, m) && |S| == 0 && FedOK(F, |m|)
    ensures IsFedDifference([], F, m)
  {
    assert S == {};
    forall v: Valuation | InFed(v, F) ensures InZone(v, m) {
      var k :| 0 <= k < |F| && InZone(v, F[k]);
      NothingPending(m, m, F[k], S);
    }
  }

  /** The members before k are dealt with. */
  ghost predicate SubtractedTo(r: Fed, F: Fed, k: nat, m2: Dbm, n: nat) {
    k <= |F| && FedOK(r, n) && IsFedDifference(r, F[..k], m2) && (PairwiseDisjoint(F) ==> PairwiseDisjoint(r))
  }

  lemma SubtractedOneMore(r: Fed, part: Fed, r': Fed, F: Fed, k: nat, m2: Dbm, n: nat)
    requires SubtractedTo(r, F, k, m2, n) && k < |F| && IsDifference(part, F[k], m2) && FedOK(part, n) && PairwiseDisjoint(part)
    requires Simplifies(r', r + part, n)
    ensures SubtractedTo(r', F, k + 1, m2, n)
  {
    assert F[..k + 1] == F[..k] + [F[k]];
    forall v: Valuation ensures InFed(v, r') <==> InFed(v, F[..k + 1]) && !InZone(v, m2) {
      InFedAppend(v, F[..k], [F[k]]);
      InFedOne(v, F[k]);
      InFedAppend(v, r, part);
    }
    if PairwiseDisjoint(F) {
      PartsStayDisjoint(r, part, F, k, m2);
    }
  }

  lemma PartsStayDisjoint(r: Fed, part: Fed, F: Fed, k: nat, m2: Dbm)
    requires k < |F| && IsFedDifference(r, F[..k], m2) && IsDifference(part, F[k], m2)
    requires PairwiseDisjoint(F) && PairwiseDisjoint(r) && PairwiseDisjoint(part)
    ensures PairwiseDisjoint(r + part)
  {
    var H := r + part;
    forall x, y {:trigger H[x], H[y]} | 0 <= x < y < |H| ensures Apart(H[x], H[y]) {
      if x < |r| <= y {
        assert H[x] == r[x] && H[y] == part[y - |r|];
        forall v: Valuation ensures !(InZone(v, H[x]) && InZone(v, H[y])) {
          if InZone(v, r[x]) {
            assert InFed(v, r);
            var l :| 0 <= l < |F[..k]| && InZone(v, F[..k][l]);
            assert Apart(F[l], F[k]);
            assert !InFed(v, part);
          }
        }
      } else if y < |r| {
        assert H[x] == r[x] && H[y] == r[y];
      } else {
        assert H[x] == part[x - |r|] && H[y] == part[y - |r|];
      }
    }
  }

  /** ptr_subtract (and operator -= for a matrix): exact, and it keeps disjoint lists disjoint. */
  method SubtractDbm(F: Fed, arg: Dbm, n: nat) returns (r: Fed)
    requires FedOK(F, n) && Valid(arg) && |arg| == n <= NONE
    ensures FedOK(r, n) && IsFedDifference(r, F, arg)
    ensures PairwiseDisjoint(F) ==> PairwiseDisjoint(r)
  {
    SavedDecides(arg);
    if n == 1 {
      NothingInOneDimension(arg);
      NothingToCheck(arg, SavedBits(arg), F);
      return [];
    }
    r := [];
    var mingraph := false;
    var bits, nb := [], 0;
    var k := 0;
    while k < |F|
      invariant SubtractedTo(r, F, k, arg, n)
      invariant mingraph ==> MarksPairs(bits, n, SavedBits(arg)) && nb == |SavedBits(arg)|
    {
      var may := MayIntersect(F[k], arg);
      if may {
        if !mingraph {
          mingraph := true;
          bits, nb := MinimalBits(arg);
          if nb == 0 {
            NothingToCheck(arg, SavedBits(arg), F);
            return [];
          }
        }
        var part := InternSubtract(F[k], arg, bits, nb, SavedBits(arg));
        FedOKAppend(r, part, n);
        var r' := UnionWith(r, part, n);
        SubtractedOneMore(r, part, r', F, k, arg, n);
        r := r';
      } else {
        KeepMember(r, F, k, arg, n);
        r := [F[k]] + r;
      }
      k := k + 1;
    }
    assert F[..k] == F;
  }

  lemma NothingInOneDimension(m: Dbm)
    requires |m| == 1
    ensures |SavedBits(m)| == 0
  {
    SavedPairsBelow(m);
    forall e: (nat, nat) ensures e !in SavedBits(m) {
      var i, j := e.0, e.1;
      assert e == (i, j);
    }
    assert SavedBits(m) == {};
  }

  lemma KeepMember(r: Fed, F: Fed, k: nat, m2: Dbm, n: nat)
    requires SubtractedTo(r, F, k, m2, n) && k < |F| && Apart(F[k], m2) && FedOK(F, n)
    ensures SubtractedTo([F[k]] + r, F, k + 1, m2, n)
  {
    var part := [F[k]];
    forall v: Valuation ensures InFed(v, part) <==> InZone(v, F[k]) && !InZone(v, m2) {
      InFedOne(v, F[k]);
    }
    FedOKAppend(r, part, n);
    SwapLists(r, part, n);
    if PairwiseDisjoint(F) {
      PartsStayDisjoint(r, part, F, k, m2);
    }
    SubtractedOneMore(r, part, part + r, F, k, m2, n);
  }

  /** operator -= for a federation */
  method SubtractFed(F: Fed, G: Fed, n: nat) returns (r: Fed)
    requires FedOK(F, n) && FedOK(G, n) && n <= NONE
    ensures FedOK(r, n) && forall v: Valuation :: InFed(v, r) <==> InFed(v, F) && !InFed(v, G)
    ensures PairwiseDisjoint(F) ==> PairwiseDisjoint(r)
  {
    r := F;
    var k := 0;
    while k < |G| && |r| > 0
      invariant 0 <= k <= |G| && FedOK(r, n) && (PairwiseDisjoint(F) ==> PairwiseDisjoint(r))
      invariant forall v: Valuation :: InFed(v, r) <==> InFed(v, F) && !InFed(v, G[..k])
    {
      ghost var before := r;
      r := SubtractDbm(r, G[k], n);
      forall v: Valuation ensures InFed(v, r) <==> InFed(v, F) && !InFed(v, G[..k + 1]) {
        assert G[..k + 1] == G[..k] + [G[k]];
        InFedAppend(v, G[..k], [G[k]]);
        InFedOne(v, G[k]);
        assert InFed(v, before) <==> InFed(v, F) && !InFed(v, G[..k]);
      }
      k := k + 1;
    }
    forall v: Valuation ensures InFed(v, r) <==> InFed(v, F) && !InFed(v, G) {
      assert G == G[..k] + G[k..];
      InFedAppend(v, G[..k], G[k..]);
    }
  }
}
