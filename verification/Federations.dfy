/** Federations: lists of matrices read as unions of zones (include/dbm/inline_fed.h, src/fed.cpp).

    A list holds matrices as values: the library shares them and copies a matrix before it changes it.
    A routine that works in place on a matrix gets its own copy here, from `CopyOf`. */
module Federations {
  import Bounds
  import opened Zones
  import Closure
  import opened Closing
  import opened Constraining
  import opened Relations

  type Fed = seq<Dbm>

  /** A federation of dimension n: every member is valid, hence not empty. */
  ghost predicate FedOK(F: Fed, n: nat) {
    forall k {:trigger F[k]} :: 0 <= k < |F| ==> |F[k]| == n && Valid(F[k])
  }

  /** v is a point of some member. */
  ghost predicate InFed(v: Valuation, F: Fed) {
    exists k :: 0 <= k < |F| && InZone(v, F[k])
  }

  ghost predicate SameFed(F: Fed, G: Fed) {
    forall v: Valuation :: InFed(v, F) <==> InFed(v, G)
  }

  ghost predicate Covers(F: Fed, G: Fed) {
    forall v: Valuation :: InFed(v, G) ==> InFed(v, F)
  }

  ghost predicate Apart(m: Dbm, m': Dbm) {
    forall v: Valuation :: !(InZone(v, m) && InZone(v, m'))
  }

  ghost predicate PairwiseDisjoint(F: Fed) {
    forall x, y {:trigger F[x], F[y]} :: 0 <= x < y < |F| ==> Apart(F[x], F[y])
  }

  lemma InFedAppend(v: Valuation, F: Fed, G: Fed)
    ensures InFed(v, F + G) <==> InFed(v, F) || InFed(v, G)
  {
    if InFed(v, F) {
      var k :| 0 <= k < |F| && InZone(v, F[k]);
      assert (F + G)[k] == F[k];
    }
    if InFed(v, G) {
      var k :| 0 <= k < |G| && InZone(v, G[k]);
      assert (F + G)[|F| + k] == G[k];
    }
  }

  lemma InFedOne(v: Valuation, m: Dbm)
    ensures InFed(v, [m]) <==> InZone(v, m)
  {
    assert [m][0] == m;
  }

  /** The list without its k-th member. */
  function Without(F: Fed, k: nat): (G: Fed)
    requires k < |F|
    ensures |G| == |F| - 1
  {
    F[..k] + F[k + 1..]
  }

  lemma InFedWithout(v: Valuation, F: Fed, k: nat)
    requires k < |F|
    ensures InFed(v, F) <==> InFed(v, Without(F, k)) || InZone(v, F[k])
  {
    InFedAppend(v, F[..k], F[k + 1..]);
    InFedAppend(v, [F[k]], F[k + 1..]);
    InFedAppend(v, F[..k], [F[k]] + F[k + 1..]);
    InFedOne(v, F[k]);
    assert F == F[..k] + ([F[k]] + F[k + 1..]);
  }

  lemma FedOKWithout(F: Fed, k: nat, n: nat)
    requires k < |F| && FedOK(F, n)
    ensures FedOK(Without(F, k), n)
  {
  }

  lemma FedOKAppend(F: Fed, G: Fed, n: nat)
    requires FedOK(F, n) && FedOK(G, n)
    ensures FedOK(F + G, n)
  {
  }

  /** A federation is empty exactly when its list is. */
  lemma EmptyFed(F: Fed, n: nat)
    requires FedOK(F, n)
    ensures |F| == 0 <==> forall v: Valuation :: !InFed(v, F)
  {
    if |F| > 0 {
      var v := CanonicalHasPoint(F[0]);
      assert InFed(v, F);
    }
  }

  // ----- Matrices of a list -----

  /** A private copy of a matrix that may be shared. */
  method CopyOf(m: Dbm) returns (a: array2<Bounds.Raw>)
    ensures fresh(a) && IsSquare(a) && Mat(a) == m
  {
    a := new Bounds.Raw[|m|, |m|]((i, j) requires 0 <= i < |m| && 0 <= j < |m| => m[i][j]);
    Closure.SameEntries(Mat(a), m);
  }

  method RelationOf(m: Dbm, m': Dbm) returns (r: Relation)
    requires Valid(m) && Valid(m') && |m| == |m'|
    ensures r == ZoneRelation(m, m')
  {
    var a := CopyOf(m);
    var b := CopyOf(m');
    r := ZonesRelation(a, b);
  }

  method MayIntersect(m: Dbm, m': Dbm) returns (r: bool)
    requires |m| == |m'|
    ensures r <==> PairwiseCompatible(m, m')
    ensures !r ==> Apart(m, m')
  {
    var a := CopyOf(m);
    var b := CopyOf(m');
    r := HaveIntersection(a, b);
    if !r {
      forall v: Valuation ensures !(InZone(v, m) && InZone(v, m')) {
        IncompatibleIsDisjoint(m, m', v);
      }
    }
  }

  method Hull(m: Dbm, m': Dbm) returns (h: Dbm)
    requires Valid(m) && Valid(m') && |m| == |m'|
    ensures |h| == |m| && Valid(h) && Included(m, h) && Included(m', h)
    ensures forall g: Dbm :: Included(m, g) && Included(m', g) ==> Included(h, g)
  {
    var a := CopyOf(m);
    var b := CopyOf(m');
    ConvexUnion(a, b);
    h := Mat(a);
  }

  method IsBelow(m: Dbm, m': Dbm) returns (r: bool)
    requires Valid(m) && Valid(m') && |m| == |m'|
    ensures r <==> Included(m, m')
  {
    var a := CopyOf(m);
    var b := CopyOf(m');
    r := IsSubsetEq(a, b);
  }

  // ----- Dropping covered members -----

  lemma DisjointWithout(F: Fed, k: nat)
    requires k < |F| && PairwiseDisjoint(F)
    ensures PairwiseDisjoint(Without(F, k))
  {
    var G := Without(F, k);
    forall x, y {:trigger G[x], G[y]} | 0 <= x < y < |G| ensures Apart(G[x], G[y]) {
      assert G[x] == F[if x < k then x else x + 1] && G[y] == F[if y < k then y else y + 1];
    }
  }

  /** Removing a member that lies in another one changes nothing. */
  lemma DropCovered(F: Fed, k: nat, l: nat, n: nat)
    requires k < |F| && l < |F| && k != l && FedOK(F, n) && Included(F[k], F[l])
    ensures SameFed(Without(F, k), F) && FedOK(Without(F, k), n)
    ensures PairwiseDisjoint(F) ==> PairwiseDisjoint(Without(F, k))
  {
    var G := Without(F, k);
    if PairwiseDisjoint(F) {
      DisjointWithout(F, k);
    }
    assert G[if l < k then l else l - 1] == F[l];
    forall v: Valuation ensures InFed(v, G) <==> InFed(v, F) {
      InFedWithout(v, F, k);
    }
  }

  lemma SameFedTrans(F: Fed, G: Fed, H: Fed)
    requires SameFed(F, G) && SameFed(G, H)
    ensures SameFed(F, H)
  {
  }

  /** What simplifying a list may do to it. */
  ghost predicate Simplifies(F: Fed, G: Fed, n: nat) {
    FedOK(F, n) && SameFed(F, G) && |F| <= |G| && (PairwiseDisjoint(G) ==> PairwiseDisjoint(F))
  }

  lemma SimplifyDrop(F: Fed, k: nat, l: nat, G: Fed, n: nat)
    requires Simplifies(F, G, n) && k < |F| && l < |F| && k != l && Included(F[k], F[l])
    ensures Simplifies(Without(F, k), G, n)
  {
    DropCovered(F, k, l, n);
    SameFedTrans(Without(F, k), F, G);
  }

  lemma WithoutLeft(F: Fed, G: Fed, k: nat)
    requires k < |F|
    ensures Without(F, k) + G == Without(F + G, k)
  {
  }

  lemma WithoutRight(F: Fed, G: Fed, k: nat)
    requires k < |G|
    ensures F + Without(G, k) == Without(F + G, |F| + k)
  {
  }

  ghost predicate Incomparable(m: Dbm, m': Dbm) {
    !Included(m, m') && !Included(m', m)
  }

  /** The first i members of F are comparable with no member of G. */
  ghost predicate NoneComparable(F: Fed, G: Fed, i: nat) {
    forall x, y {:trigger F[x], G[y]} :: 0 <= x < i && x < |F| && 0 <= y < |G| ==> Incomparable(F[x], G[y])
  }

  /** All members of F are members of G. */
  ghost predicate ComesFrom(F: Fed, G: Fed) {
    forall k {:trigger F[k]} :: 0 <= k < |F| ==> F[k] in G
  }

  lemma WithoutComesFrom(F: Fed, k: nat, G: Fed)
    requires k < |F| && ComesFrom(F, G)
    ensures ComesFrom(Without(F, k), G)
  {
    var H := Without(F, k);
    forall l {:trigger H[l]} | 0 <= l < |H| ensures H[l] in G {
      assert H[l] == F[if l < k then l else l + 1];
    }
  }

  /** dbmlist_t::removeIncluded: neither list keeps a member that lies in one of the other. */
  method RemoveIncluded(F0: Fed, G0: Fed, n: nat) returns (F: Fed, G: Fed)
    requires FedOK(F0 + G0, n)
    ensures Simplifies(F + G, F0 + G0, n) && NoneComparable(F, G, |F|) && ComesFrom(F, F0) && ComesFrom(G, G0)
  {
    F, G := F0, G0;
    var i := 0;
    while i < |F| && |G| > 0
      invariant i <= |F| && Simplifies(F + G, F0 + G0, n) && NoneComparable(F, G, i)
      invariant ComesFrom(F, F0) && ComesFrom(G, G0)
      decreases |F| - i
    {
      var removed;
      removed, F, G := CompareWith(F, G, i, F0, G0, n);
      if !removed {
        i := i + 1;
      }
    }
  }

  lemma PairOfLists(F: Fed, G: Fed, i: nat, j: nat, n: nat)
    requires FedOK(F + G, n) && i < |F| && j < |G|
    ensures Valid(F[i]) && Valid(G[j]) && |F[i]| == |G[j]| == n
  {
    assert (F + G)[i] == F[i] && (F + G)[|F| + j] == G[j];
  }

  /** Member i of the first list lies in member j of the second. */
  lemma DropLeft(F: Fed, G: Fed, i: nat, j: nat, F1: Fed, G1: Fed, n: nat)
    requires Simplifies(F + G, F1 + G1, n) && ComesFrom(F, F1) && i < |F| && j < |G| && Included(F[i], G[j])
    ensures Simplifies(Without(F, i) + G, F1 + G1, n) && ComesFrom(Without(F, i), F1)
  {
    assert (F + G)[i] == F[i] && (F + G)[|F| + j] == G[j];
    SimplifyDrop(F + G, i, |F| + j, F1 + G1, n);
    WithoutComesFrom(F, i, F1);
    WithoutLeft(F, G, i);
  }

  lemma DropRight(F: Fed, G: Fed, i: nat, j: nat, F1: Fed, G1: Fed, n: nat)
    requires Simplifies(F + G, F1 + G1, n) && ComesFrom(G, G1) && i < |F| && j < |G| && Included(G[j], F[i])
    ensures Simplifies(F + Without(G, j), F1 + G1, n) && ComesFrom(Without(G, j), G1)
  {
    assert (F + G)[i] == F[i] && (F + G)[|F| + j] == G[j];
    SimplifyDrop(F + G, |F| + j, i, F1 + G1, n);
    WithoutComesFrom(G, j, G1);
    WithoutRight(F, G, j);
  }

  /** The loop on j: compare member i with the other list. */
  method CompareWith(F0: Fed, G0: Fed, i: nat, ghost F1: Fed, ghost G1: Fed, n: nat) returns (removed: bool, F: Fed, G: Fed)
    requires i < |F0| && Simplifies(F0 + G0, F1 + G1, n) && NoneComparable(F0, G0, i) && ComesFrom(F0, F1) && ComesFrom(G0, G1)
    ensures Simplifies(F + G, F1 + G1, n) && |F| == |F0| - (if removed then 1 else 0) && ComesFrom(F, F1) && ComesFrom(G, G1)
    ensures NoneComparable(F, G, if removed then i else i + 1)
  {
    F, G := F0, G0;
    var j := 0;
    while j < |G|
      invariant j <= |G| && F == F0 && Simplifies(F + G, F1 + G1, n) && ComesFrom(G, G1)
      invariant NoneComparable(F, G, i) && forall y {:trigger G[y]} :: 0 <= y < j ==> Incomparable(F[i], G[y])
      decreases |G| - j
    {
      PairOfLists(F, G, i, j, n);
      var r := RelationOf(F[i], G[j]);
      match r
      case Equal | Subset =>
        DropLeft(F, G, i, j, F1, G1, n);
        return true, Without(F, i), G;
      case Superset =>
        DropRight(F, G, i, j, F1, G1, n);
        G := Without(G, j);
      case Different =>
        j := j + 1;
    }
    return false, F, G;
  }

  /** F is A followed by B or the other way round, A comes from F0 and B from G0, and no member of the one lies in one of
      the other. */
  ghost predicate JoinsLists(F: Fed, A: Fed, B: Fed, F0: Fed, G0: Fed) {
    (F == A + B || F == B + A) && ComesFrom(A, F0) && ComesFrom(B, G0) && NoneComparable(A, B, |A|)
  }

  /** dbmlist_t::unionWith; the shorter list is appended to the longer one. */
  method UnionWith(F0: Fed, G0: Fed, n: nat) returns (F: Fed)
    requires FedOK(F0 + G0, n)
    ensures Simplifies(F, F0 + G0, n)
    ensures exists A: Fed, B: Fed {:trigger JoinsLists(F, A, B, F0, G0)} :: JoinsLists(F, A, B, F0, G0)
  {
    var A, B := RemoveIncluded(F0, G0, n);
    F := if |A| > |B| then B + A else A + B;
    assert JoinsLists(F, A, B, F0, G0);
    if |A| > |B| {
      SwapLists(A, B, n);
    }
  }

  lemma SwapLists(A: Fed, B: Fed, n: nat)
    requires FedOK(A + B, n)
    ensures FedOK(B + A, n) && SameFed(B + A, A + B)
    ensures PairwiseDisjoint(A + B) ==> PairwiseDisjoint(B + A)
  {
    forall v: Valuation ensures InFed(v, B + A) <==> InFed(v, A + B) {
      InFedAppend(v, A, B);
      InFedAppend(v, B, A);
    }
    var F, G := A + B, B + A;
    forall k {:trigger G[k]} | 0 <= k < |G| ensures |G[k]| == n && Valid(G[k]) {
      assert G[k] == F[if k < |B| then |A| + k else k - |B|];
    }
    if PairwiseDisjoint(F) {
      forall x, y {:trigger G[x], G[y]} | 0 <= x < y < |G| ensures Apart(G[x], G[y]) {
        assert G[x] == F[if x < |B| then |A| + x else x - |B|];
        assert G[y] == F[if y < |B| then |A| + y else y - |B|];
      }
    }
  }
}
