/** fed_t::convexReduce (src/fed.cpp): merge a member with the convex hull of the later members that are
    compatible with it, if the hull adds nothing to the union.

    Every jump of the source leads back to the start of a visit of the member at some position, with the members
    set aside put back first; so a visit is one method here, and a jump is its return.  The loop ends because
    each visit shortens the list, set-aside members included, or moves on to the next position. */
module ConvexReduction {
  import opened Zones
  import opened Relations
  import opened Analysis
  import opened Federations
  import opened Subtraction
  import opened Reduction

  /** Together the list L and the members R that were set aside make up the union of F. */
  ghost predicate Accounts(L: Fed, R: Fed, F: Fed, n: nat) {
    FedOK(L, n) && FedOK(R, n) && |L| + |R| <= |F| && forall v: Valuation :: InFed(v, L) || InFed(v, R) <==> InFed(v, F)
  }

  // ----- Pairs that can be made one -----

  /** The first zone lies in the second; or they agree on both bounds of some pair of clocks and their union is a zone. */
  ghost predicate Combines(m: Dbm, m': Dbm) {
    Included(m, m') || (AgreesSomewhere(m, m') && UnionIsZone(m, m'))
  }

  ghost predicate Distant(m: Dbm, m': Dbm) {
    !Combines(m, m') && !Combines(m', m)
  }

  lemma IsDistant(m: Dbm, m': Dbm)
    requires |m| == |m'| && Incomparable(m, m') && !(AgreesSomewhere(m, m') && UnionIsZone(m, m'))
    ensures Distant(m, m')
  {
    if AgreesSomewhere(m', m) && |m| > 2 {
      var x: nat, y: nat :| y < x && Before(x, y, |m|, 0) && AgreesAt(m', m, x, y);
      assert AgreesAt(m, m', x, y);
    }
    if UnionIsZone(m', m) {
      var h: Dbm :| IsUnion(h, m', m);
      assert IsUnion(h, m, m');
    }
  }

  /** Some pair of members combines. */
  ghost predicate CanShrink(F: Fed) {
    exists x: nat, y: nat {:trigger F[x], F[y]} :: x < |F| && y < |F| && x != y && Combines(F[x], F[y])
  }

  /** The first p members combine with no later one. */
  ghost predicate SettledTo(F: Fed, p: nat) {
    forall x: nat, y: nat {:trigger F[x], F[y]} :: x < p && x < y < |F| ==> Distant(F[x], F[y])
  }

  lemma SettledCannotShrink(F: Fed)
    requires SettledTo(F, |F|)
    ensures !CanShrink(F)
  {
    forall x: nat, y: nat {:trigger F[x], F[y]} | x < |F| && y < |F| && x != y ensures !Combines(F[x], F[y]) {
      if x < y {
        assert Distant(F[x], F[y]);
      } else {
        assert Distant(F[y], F[x]);
      }
    }
  }

  /** Member q moves behind the other members of its list; this is only a new order. */
  function MovedTo(l: nat, q: nat, k: nat): nat {
    if k < q || k >= l then k else if k == q then l - 1 else k - 1
  }

  lemma MovedMember(L: Fed, R: Fed, q: nat, k: nat)
    requires q < |L| && k < |L + R|
    ensures var G := Without(L, q) + ([L[q]] + R);
      |G| == |L + R| && MovedTo(|L|, q, k) < |G| && G[MovedTo(|L|, q, k)] == (L + R)[k]
  {
  }

  lemma MovedFrom(L: Fed, R: Fed, q: nat, k: nat) returns (o: nat)
    requires q < |L| && k < |L + R|
    ensures o < |L + R| && k == MovedTo(|L|, q, o) && (Without(L, q) + ([L[q]] + R))[k] == (L + R)[o]
  {
    o := if k < q || k >= |L| then k else if k == |L| - 1 then q else k + 1;
    MovedMember(L, R, q, o);
  }

  lemma MovedSettled(L: Fed, R: Fed, q: nat, p: nat)
    requires p < q < |L| && SettledTo(L + R, p)
    ensures SettledTo(Without(L, q) + ([L[q]] + R), p)
  {
    var F, G := L + R, Without(L, q) + ([L[q]] + R);
    forall x: nat, y: nat {:trigger G[x], G[y]} | x < p && x < y < |G| ensures Distant(G[x], G[y]) {
      MovedMember(L, R, q, x);
      var o := MovedFrom(L, R, q, y);
      assert G[x] == F[x] && G[y] == F[o] && x < o;
    }
  }

  lemma MovedCanShrink(L: Fed, R: Fed, q: nat)
    requires q < |L| && CanShrink(L + R)
    ensures CanShrink(Without(L, q) + ([L[q]] + R))
  {
    var F, G := L + R, Without(L, q) + ([L[q]] + R);
    var x: nat, y: nat :| x < |F| && y < |F| && x != y && Combines(F[x], F[y]);
    MovedMember(L, R, q, x);
    MovedMember(L, R, q, y);
    var x', y' := MovedTo(|L|, q, x), MovedTo(|L|, q, y);
    assert x' != y' && Combines(G[x'], G[y']);
  }

  /** As long as the list did not get shorter, L and R are F in a new order, from position p on. */
  ghost predicate OnlyMoved(L: Fed, R: Fed, F: Fed, p: nat) {
    |L| + |R| == |F| ==> (CanShrink(F) ==> CanShrink(L + R)) && (SettledTo(F, p) ==> SettledTo(L + R, p))
  }

  /** Member p combines with none of those behind it before position q, and with none that was set aside. */
  ghost predicate RowSettled(L: Fed, R: Fed, p: nat, q: nat) {
    p < |L| && (forall k {:trigger L[k]} :: p < k < q && k < |L| ==> Distant(L[p], L[k])) &&
    forall k {:trigger R[k]} :: 0 <= k < |R| ==> Distant(L[p], R[k])
  }

  /** The list is as long as before, and one more member is settled. */
  ghost predicate Advances(L: Fed, F: Fed, p: nat) {
    (CanShrink(F) ==> CanShrink(L)) && (SettledTo(F, p) ==> SettledTo(L, p + 1))
  }

  lemma RowAdvances(L: Fed, R: Fed, F: Fed, p: nat)
    requires |L| + |R| == |F| && OnlyMoved(L, R, F, p) && RowSettled(L, R, p, |L|)
    ensures Advances(L + R, F, p)
  {
    var G := L + R;
    if SettledTo(F, p) {
      forall x: nat, y: nat {:trigger G[x], G[y]} | x < p + 1 && x < y < |G| ensures Distant(G[x], G[y]) {
        if x == p {
          assert G[y] == if y < |L| then L[y] else R[y - |L|];
        }
      }
    }
  }

  // ----- Members that join in one hull -----

  /** The zones are not opposed and agree on some bound, so that the second joins in the hull of the first. */
  ghost predicate Joins(m: Dbm, m': Dbm) {
    !SomeOpposed(m, m', |m|, 0) && (|m| <= 2 || SomeAgreesOnOne(m, m', |m|, 0))
  }

  ghost predicate InJoin(v: Valuation, F: Fed, p: nat) {
    p < |F| && (InZone(v, F[p]) || exists k {:trigger F[k]} :: p < k < |F| && Joins(F[p], F[k]) && InZone(v, F[k]))
  }

  ghost predicate IsJoin(h: Dbm, F: Fed, p: nat) {
    p < |F| && |h| == |F[p]| && forall v: Valuation {:trigger InZone(v, h)} :: InZone(v, h) <==> InJoin(v, F, p)
  }

  /** Some members behind position p join, and together with member p they make up a zone. */
  ghost predicate JoinIsZone(F: Fed, p: nat) {
    p < |F| && (exists k {:trigger F[k]} :: p < k < |F| && Joins(F[p], F[k])) && exists h: Dbm {:trigger IsJoin(h, F, p)} :: IsJoin(h, F, p)
  }

  ghost predicate HoldsJoined(g: Dbm, F: Fed, p: nat) {
    p < |F| && Included(F[p], g) && forall k {:trigger F[k]} :: p < k < |F| && Joins(F[p], F[k]) ==> Included(F[k], g)
  }

  /** Where the members are: those behind position p of L come from F; none is lost while the list does not get shorter;
      those before position q do not join; and the hull holds no more than the members that join make necessary. */
  ghost predicate Tracks(L: Fed, R: Fed, hull: Dbm, q: nat, F: Fed, p: nat) {
    p < |L| && p < |F| && L[p] == F[p] &&
    (forall k {:trigger L[k]} :: p < k < |L| ==> L[k] in F[p + 1..]) &&
    (|L| + |R| == |F| ==> forall m {:trigger m in F[p + 1..]} :: m in F[p + 1..] ==> m in L[p + 1..] || m in R) &&
    (forall k {:trigger L[k]} :: p < k < q && k < |L| ==> !Joins(F[p], L[k])) &&
    forall g: Dbm {:trigger Included(hull, g)} :: HoldsJoined(g, F, p) ==> Included(hull, g)
  }

  lemma TrackStart(F: Fed, p: nat)
    requires p < |F|
    ensures Tracks(F, [], F[p], p + 1, F, p)
  {
    forall k {:trigger F[k]} | p < k < |F| ensures F[k] in F[p + 1..] {
      assert F[p + 1..][k - p - 1] == F[k];
    }
  }

  lemma InWithout(L: Fed, q: nat, a: nat, m: Dbm)
    requires a <= q < |L| && m in L[a..] && m != L[q]
    ensures m in Without(L, q)[a..]
  {
    var k :| 0 <= k < |L| - a && L[a..][k] == m;
    assert L[a + k] == m;
    assert Without(L, q)[a..][if a + k < q then k else k - 1] == m;
  }

  /** Member q is set aside, and the hull is what it was or now holds the member too. */
  lemma TrackMove(L: Fed, R: Fed, hull: Dbm, hull': Dbm, q: nat, q': nat, F: Fed, p: nat)
    requires Tracks(L, R, hull, q', F, p) && p < q < |L| && q' <= |L|
    requires hull' == hull || (q' <= q && Joins(F[p], L[q]) && forall g: Dbm :: Included(hull, g) && Included(L[q], g) ==> Included(hull', g))
    ensures Tracks(Without(L, q), [L[q]] + R, hull', if q < q' then q' - 1 else q', F, p)
  {
    var L', R' := Without(L, q), [L[q]] + R;
    forall k {:trigger L'[k]} | p < k < |L'| ensures L'[k] == L[if k < q then k else k + 1] {
    }
    if |L'| + |R'| == |F| {
      forall m {:trigger m in F[p + 1..]} | m in F[p + 1..] ensures m in L'[p + 1..] || m in R' {
        if m in L[p + 1..] && m != L[q] {
          InWithout(L, q, p + 1, m);
        } else if m == L[q] {
          assert R'[0] == m;
        } else {
          var k :| 0 <= k < |R| && R[k] == m;
          assert R'[k + 1] == m;
        }
      }
    }
    forall g: Dbm {:trigger Included(hull', g)} | HoldsJoined(g, F, p) ensures Included(hull', g) {
      assert Included(hull, g);
      var k :| 0 <= k < |F[p + 1..]| && F[p + 1..][k] == L[q];
      assert F[p + 1 + k] == L[q];
    }
  }

  lemma TrackDrop(L: Fed, R: Fed, hull: Dbm, q: nat, F: Fed, p: nat)
    requires Tracks(L, R, hull, q, F, p) && p < q < |L| && |L| + |R| <= |F|
    ensures Tracks(Without(L, q), R, hull, q, F, p)
  {
    var L' := Without(L, q);
    forall k {:trigger L'[k]} | p < k < |L'| ensures L'[k] == L[if k < q then k else k + 1] {
    }
  }

  lemma TrackSkip(L: Fed, R: Fed, hull: Dbm, q: nat, F: Fed, p: nat)
    requires Tracks(L, R, hull, q, F, p) && p < q < |L| && !Joins(F[p], L[q])
    ensures Tracks(L, R, hull, q + 1, F, p)
  {
  }

  /** A member that joins has been set aside. */
  lemma JoinedIsAside(L: Fed, R: Fed, hull: Dbm, F: Fed, p: nat, k: nat)
    requires Tracks(L, R, hull, |L|, F, p) && |L| + |R| == |F| && p < k < |F| && Joins(F[p], F[k])
    ensures F[k] in R
  {
    assert F[p + 1..][k - p - 1] == F[k];
    assert F[k] in F[p + 1..];
  }

  lemma JoinIsCovered(L: Fed, R: Fed, hull: Dbm, F: Fed, p: nat)
    requires Tracks(L, R, hull, |L|, F, p) && |L| + |R| == |F| && JoinIsZone(F, p)
    requires forall k {:trigger F[k]} :: 0 <= k < |F| ==> |F[k]| == |F[p]|
    ensures |R| > 0 && HullIsCovered(hull, F[p], R)
  {
    var k0 :| p < k0 < |F| && Joins(F[p], F[k0]);
    JoinedIsAside(L, R, hull, F, p, k0);
    var h: Dbm :| IsJoin(h, F, p);
    assert HoldsJoined(h, F, p) by {
      JoinHolds(h, F, p);
    }
    assert Included(hull, h);
    forall v: Valuation {:trigger InZone(v, hull)} | InZone(v, hull) ensures InZone(v, F[p]) || InFed(v, R) {
      assert InZone(v, h) && InJoin(v, F, p);
      if !InZone(v, F[p]) {
        var k :| p < k < |F| && Joins(F[p], F[k]) && InZone(v, F[k]);
        JoinedIsAside(L, R, hull, F, p, k);
        var l :| 0 <= l < |R| && R[l] == F[k];
        assert InZone(v, R[l]);
      }
    }
  }

  lemma JoinHolds(h: Dbm, F: Fed, p: nat)
    requires IsJoin(h, F, p) && forall k {:trigger F[k]} :: 0 <= k < |F| ==> |F[k]| == |h|
    ensures HoldsJoined(h, F, p)
  {
    forall v: Valuation | InZone(v, F[p]) ensures InZone(v, h) {
      assert InJoin(v, F, p);
    }
    forall k {:trigger F[k]} | p < k < |F| && Joins(F[p], F[k]) ensures Included(F[k], h) {
      forall v: Valuation | InZone(v, F[k]) ensures InZone(v, h) {
        assert InJoin(v, F, p);
      }
    }
  }

  // ----- Setting members aside -----

  lemma PutBack(L: Fed, R: Fed, F: Fed, n: nat)
    requires Accounts(L, R, F, n)
    ensures Reduces(L + R, F, n)
  {
    forall v: Valuation ensures InFed(v, L + R) <==> InFed(v, F) {
      InFedAppend(v, L, R);
    }
  }

  lemma DropMember(L: Fed, R: Fed, F: Fed, k: nat, l: nat, n: nat)
    requires Accounts(L, R, F, n) && k < |L| && l < |L| && k != l && Included(L[k], L[l])
    ensures Accounts(Without(L, k), R, F, n) && |L| - 1 + |R| < |F|
  {
    DropCovered(L, k, l, n);
  }

  lemma SetAside(L: Fed, R: Fed, F: Fed, k: nat, n: nat)
    requires Accounts(L, R, F, n) && k < |L|
    ensures Accounts(Without(L, k), [L[k]] + R, F, n)
  {
    FedOKWithout(L, k, n);
    FedOKAppend([L[k]], R, n);
    forall v: Valuation ensures InFed(v, Without(L, k)) || InFed(v, [L[k]] + R) <==> InFed(v, F) {
      InFedWithout(v, L, k);
      InFedAppend(v, [L[k]], R);
      InFedOne(v, L[k]);
    }
  }

  lemma MergeMembers(L: Fed, R: Fed, F: Fed, i: nat, j: nat, h: Dbm, n: nat)
    requires Accounts(L, R, F, n) && i < |L| && j < |L| && i != j && |h| == n && Valid(h)
    requires Included(L[i], h) && Included(L[j], h) && HullAddsNothing(h, L[i], L[j])
    ensures Accounts(Merged(L, i, j, h), R, F, n) && |Merged(L, i, j, h)| + |R| < |F|
  {
    forall v: Valuation | InZone(v, h) ensures InFed(v, L) {
    }
    MergeKeepsUnion(L, i, j, h, n);
  }

  /** Replacing the list of set-aside members by one with the same union. */
  lemma ReplaceSetAside(L: Fed, R: Fed, R': Fed, F: Fed, n: nat)
    requires Accounts(L, R, F, n) && Reduces(R', R, n)
    ensures Accounts(L, R', F, n)
  {
  }

  /** The hull h of members i and j adds nothing: ((fed_t(h) -= dbmi) -= dbmj).isEmpty() */
  method HullIsUnion(mi: Dbm, mj: Dbm, h: Dbm, n: nat) returns (r: bool)
    requires FedOK([h], n) && |mi| == |mj| == n <= NONE && Valid(mi) && Valid(mj)
    ensures r <==> HullAddsNothing(h, mi, mj)
  {
    var d := SubtractDbm([h], mi, n);
    d := SubtractDbm(d, mj, n);
    EmptyFed(d, n);
    r := |d| == 0;
    forall v: Valuation ensures InFed(v, [h]) <==> InZone(v, h) {
      InFedOne(v, h);
    }
  }

  /** What is known after the first pass over the members behind position p. */
  ghost predicate Gathered(L: Fed, R: Fed, hull: Dbm, q: nat, F: Fed, p: nat, n: nat) {
    p < |L| && p < |F| && L[p] == F[p] && |hull| == n && Valid(hull) && Included(F[p], hull) &&
    Accounts(L, R, F, n) && OnlyMoved(L, R, F, p) && RowSettled(L, R, p, q) &&
    forall k {:trigger R[k]} :: 0 <= k < |R| ==> Included(R[k], hull)
  }

  lemma InclusionTrans(m: Dbm, m': Dbm, m'': Dbm)
    requires Included(m, m') && Included(m', m'')
    ensures Included(m, m'')
  {
  }

  /** convexi += dbmj, and fj moves to the members set aside. */
  lemma GatherOne(L: Fed, R: Fed, hull: Dbm, hull': Dbm, q: nat, F: Fed, p: nat, n: nat)
    requires Gathered(L, R, hull, q, F, p, n) && p < q < |L| && Distant(F[p], L[q])
    requires |hull'| == n && Valid(hull') && Included(hull, hull') && Included(L[q], hull')
    ensures Gathered(Without(L, q), [L[q]] + R, hull', q, F, p, n)
  {
    SetAside(L, R, F, q, n);
    InclusionTrans(F[p], hull, hull');
    if |L| + |R| == |F| {
      MoveOnly(L, R, F, q, p);
    }
    var R' := [L[q]] + R;
    forall k {:trigger R'[k]} | 0 <= k < |R'| ensures Included(R'[k], hull') && Distant(F[p], R'[k]) {
      if k > 0 {
        assert R'[k] == R[k - 1];
        InclusionTrans(R[k - 1], hull, hull');
      }
    }
  }

  lemma MoveOnly(L: Fed, R: Fed, F: Fed, q: nat, p: nat)
    requires p < q < |L| && |L| + |R| == |F| && OnlyMoved(L, R, F, p)
    ensures OnlyMoved(Without(L, q), [L[q]] + R, F, p)
  {
    if CanShrink(F) {
      MovedCanShrink(L, R, q);
    }
    if SettledTo(F, p) {
      MovedSettled(L, R, q, p);
    }
  }

  lemma GatherDrop(L: Fed, R: Fed, hull: Dbm, q: nat, F: Fed, p: nat, n: nat)
    requires Gathered(L, R, hull, q, F, p, n) && p < q < |L| && Included(L[q], F[p])
    ensures Gathered(Without(L, q), R, hull, q, F, p, n)
  {
    DropMember(L, R, F, q, p, n);
  }

  lemma GatherSkip(L: Fed, R: Fed, hull: Dbm, q: nat, F: Fed, p: nat, n: nat)
    requires Gathered(L, R, hull, q, F, p, n) && p < q < |L| && Distant(F[p], L[q])
    ensures Gathered(L, R, hull, q + 1, F, p, n)
  {
  }

  lemma AgreesIsOnOne(m: Dbm, m': Dbm)
    ensures AgreesSomewhere(m, m') ==> |m| <= 2 || SomeAgreesOnOne(m, m', |m|, 0)
  {
    if AgreesSomewhere(m, m') && |m| > 2 {
      var x: nat, y: nat :| y < x && Before(x, y, |m|, 0) && AgreesAt(m, m', x, y);
      assert AgreesOnOneAt(m, m', x, y);
    }
  }

  /** What becomes of member q in the first pass. */
  datatype Fate = Dropped | Joined | Skipped | Restart

  /** One turn of the first pass: compare the visited member with the one at position q. */
  method Gather(L0: Fed, R0: Fed, hull0: Dbm, q: nat, ghost F: Fed, p: nat, n: nat) returns (fate: Fate, L: Fed, R: Fed, hull: Dbm)
    requires Gathered(L0, R0, hull0, q, F, p, n) && Tracks(L0, R0, hull0, q, F, p) && p < q < |L0| && n <= NONE
    ensures fate.Restart? ==> Reduces(L, F, n) && |L| < |F| && p < |L|
    ensures !fate.Restart? ==> Gathered(L, R, hull, if fate.Skipped? then q + 1 else q, F, p, n)
    ensures !fate.Restart? ==> Tracks(L, R, hull, if fate.Skipped? then q + 1 else q, F, p)
    ensures !fate.Restart? ==> |L| == |L0| - (if fate.Skipped? then 0 else 1)
  {
    L, R, hull := L0, R0, hull0;
    var c := Compare(L[p], L[q]);
    if c.TooFar? {
      IsDistant(L[p], L[q]);
      GatherSkip(L, R, hull, q, F, p, n);
      TrackSkip(L, R, hull, q, F, p);
      return Skipped, L, R, hull;
    }
    if c.subset {
      DropMember(L, R, F, p, q, n);
      PutBack(Without(L, p), R, F, n);
      return Restart, Without(L, p) + R, [], hull;
    }
    if c.superset {
      GatherDrop(L, R, hull, q, F, p, n);
      TrackDrop(L, R, hull, q, F, p);
      return Dropped, Without(L, q), R, hull;
    }
    fate, L, R, hull := JoinOrSkip(L, R, hull, q, c.symCompatible, c.compatible, F, p, n);
  }

  /** The members are not opposed and neither lies in the other: merge them, set the second aside or leave it. */
  method JoinOrSkip(L0: Fed, R0: Fed, hull0: Dbm, q: nat, symCompatible: bool, compatible: bool, ghost F: Fed, p: nat, n: nat)
    returns (fate: Fate, L: Fed, R: Fed, hull: Dbm)
    requires Gathered(L0, R0, hull0, q, F, p, n) && Tracks(L0, R0, hull0, q, F, p) && p < q < |L0| && n <= NONE
    requires Incomparable(L0[p], L0[q]) && !SomeOpposed(L0[p], L0[q], n, 0)
    requires symCompatible <==> AgreesSomewhere(L0[p], L0[q])
    requires compatible <==> n <= 2 || SomeAgreesOnOne(L0[p], L0[q], n, 0)
    ensures fate.Restart? ==> Reduces(L, F, n) && |L| < |F| && p < |L|
    ensures !fate.Restart? ==> Gathered(L, R, hull, if fate.Skipped? then q + 1 else q, F, p, n)
    ensures !fate.Restart? ==> Tracks(L, R, hull, if fate.Skipped? then q + 1 else q, F, p)
    ensures !fate.Restart? ==> |L| == |L0| - (if fate.Skipped? then 0 else 1)
  {
    L, R, hull := L0, R0, hull0;
    if symCompatible {
      var h := Hull(L[p], L[q]);
      var exact := HullIsUnion(L[p], L[q], h, n);
      if exact {
        MergeMembers(L, R, F, p, q, h, n);
        PutBack(Merged(L, p, q, h), R, F, n);
        return Restart, Merged(L, p, q, h) + R, [], hull;
      }
      if UnionIsZone(L[p], L[q]) {
        UnionIsHull(h, L[p], L[q]);
      }
    }
    IsDistant(L[p], L[q]);
    AgreesIsOnOne(L[p], L[q]);
    if symCompatible || compatible {
      hull := Hull(hull0, L[q]);
      GatherOne(L, R, hull0, hull, q, F, p, n);
      TrackMove(L, R, hull0, hull, q, q, F, p);
      return Joined, Without(L, q), [L[q]] + R, hull;
    }
    GatherSkip(L, R, hull, q, F, p, n);
    TrackSkip(L, R, hull, q, F, p);
    return Skipped, L, R, hull;
  }

  /** The first pass. */
  method FirstPass(F: Fed, p: nat, n: nat) returns (restart: bool, L: Fed, R: Fed, hull: Dbm)
    requires FedOK(F, n) && p < |F| && n <= NONE
    ensures restart ==> Reduces(L, F, n) && |L| < |F| && p < |L|
    ensures !restart ==> Gathered(L, R, hull, |L|, F, p, n) && Tracks(L, R, hull, |L|, F, p)
  {
    L, R, hull := F, [], F[p];
    assert L + R == F;
    TrackStart(F, p);
    var q := p + 1;
    while q < |L|
      invariant p < q <= |L| && Gathered(L, R, hull, q, F, p, n) && Tracks(L, R, hull, q, F, p)
      decreases |L| - q
    {
      var fate;
      fate, L, R, hull := Gather(L, R, hull, q, F, p, n);
      if fate.Restart? {
        return true, L, [], hull;
      }
      if fate.Skipped? {
        q := q + 1;
      }
    }
    return false, L, R, hull;
  }

  /** The second pass: members in the hull are set aside too. */
  method SecondPass(L0: Fed, R0: Fed, hull: Dbm, ghost F: Fed, p: nat, n: nat) returns (L: Fed, R: Fed)
    requires Gathered(L0, R0, hull, |L0|, F, p, n) && Tracks(L0, R0, hull, |L0|, F, p)
    ensures Gathered(L, R, hull, |L|, F, p, n) && Tracks(L, R, hull, |L|, F, p) && |R| >= |R0|
  {
    L, R := L0, R0;
    var q := p + 1;
    while q < |L|
      invariant p < q <= |L| && Gathered(L, R, hull, |L|, F, p, n) && Tracks(L, R, hull, |L|, F, p) && |R| >= |R0|
      decreases |L| - q
    {
      var below := IsBelow(L[q], hull);
      if below {
        assert Gathered(L, R, hull, q, F, p, n);
        GatherOne(L, R, hull, hull, q, F, p, n);
        StillSettled(L, R, p, q);
        TrackMove(L, R, hull, hull, q, |L|, F, p);
        L, R := Without(L, q), [L[q]] + R;
      } else {
        q := q + 1;
      }
    }
  }

  lemma StillSettled(L: Fed, R: Fed, p: nat, q: nat)
    requires p < q < |L| && RowSettled(L, R, p, |L|) && RowSettled(Without(L, q), [L[q]] + R, p, q)
    ensures RowSettled(Without(L, q), [L[q]] + R, p, |L| - 1)
  {
    var G := Without(L, q);
    forall k {:trigger G[k]} | p < k < |L| - 1 ensures Distant(G[p], G[k]) {
      assert G[k] == L[if k < q then k else k + 1];
    }
  }

  // ----- Checking the convex hull -----

  /** The members set aside and the visited one are exactly what the hull is compared with. */
  ghost predicate HullCovers(hull: Dbm, m: Dbm, R: Fed) {
    Included(m, hull) && forall v: Valuation :: InFed(v, R) ==> InZone(v, hull)
  }

  lemma GatheredInHull(L: Fed, R: Fed, hull: Dbm, F: Fed, p: nat, n: nat)
    requires Gathered(L, R, hull, |L|, F, p, n)
    ensures HullCovers(hull, F[p], R)
  {
    forall v: Valuation | InFed(v, R) ensures InZone(v, hull) {
      var k :| 0 <= k < |R| && InZone(v, R[k]);
      assert Included(R[k], hull);
    }
  }

  /** The hull replaces the visited member and all that was set aside. */
  lemma HullReplaces(L: Fed, R: Fed, hull: Dbm, F: Fed, p: nat, n: nat)
    requires p < |L| && Accounts(L, R, F, n) && |hull| == n && Valid(hull) && HullCovers(hull, L[p], R)
    requires forall v: Valuation :: InZone(v, hull) ==> InZone(v, L[p]) || InFed(v, R)
    ensures Reduces(L[p := hull], F, n)
  {
    var H := L[p := hull];
    forall v: Valuation ensures InFed(v, H) <==> InFed(v, F) {
      InFedWithout(v, L, p);
      InFedWithout(v, H, p);
      assert Without(H, p) == Without(L, p);
    }
  }

  /** A list with the union of the visited member and of what was set aside replaces both. */
  lemma ListReplaces(L: Fed, R: Fed, N: Fed, F: Fed, p: nat, n: nat)
    requires p < |L| && Accounts(L, R, F, n) && FedOK(N, n) && |N| <= |R| + 1
    requires forall v: Valuation :: InFed(v, N) <==> InZone(v, L[p]) || InFed(v, R)
    ensures Reduces(Without(L, p) + N, F, n)
  {
    FedOKWithout(L, p, n);
    FedOKAppend(Without(L, p), N, n);
    forall v: Valuation ensures InFed(v, Without(L, p) + N) <==> InFed(v, F) {
      InFedWithout(v, L, p);
      InFedAppend(v, Without(L, p), N);
    }
  }

  lemma InFedCons(v: Valuation, m: Dbm, R: Fed)
    ensures InFed(v, [m] + R) <==> InZone(v, m) || InFed(v, R)
  {
    InFedAppend(v, [m], R);
    InFedOne(v, m);
  }

  /** A member that lies beyond m lies beyond it in any list with the same union. */
  lemma SomethingBeyond(R: Fed, m: Dbm, k: nat)
    requires k < |R| && !Included(R[k], m) && |R[k]| == |m|
    ensures exists v: Valuation :: InFed(v, R) && !InZone(v, m)
  {
    var v: Valuation :| InZone(v, R[k]) && !InZone(v, m);
    assert InFed(v, R);
  }

  /** convexi minus dbmi minus removedj */
  method TooMuch(hull: Dbm, m: Dbm, R: Fed, n: nat) returns (d: Fed)
    requires FedOK([hull], n) && |m| == n <= NONE && Valid(m) && FedOK(R, n)
    ensures FedOK(d, n) && forall v: Valuation :: InFed(v, d) <==> InZone(v, hull) && !InZone(v, m) && !InFed(v, R)
  {
    d := SubtractDbm([hull], m, n);
    d := SubtractFed(d, R, n);
    forall v: Valuation ensures InFed(v, [hull]) <==> InZone(v, hull) {
      InFedOne(v, hull);
    }
  }

  /** convexi minus tooMuch: another list for the union of dbmi and removedj. */
  method OtherList(hull: Dbm, m: Dbm, R: Fed, tooMuch0: Fed, n: nat, restrictedMerge: bool) returns (N: Fed)
    requires FedOK([hull], n) && FedOK(tooMuch0, n) && n <= NONE && HullCovers(hull, m, R)
    requires forall v: Valuation :: InFed(v, tooMuch0) <==> InZone(v, hull) && !InZone(v, m) && !InFed(v, R)
    ensures FedOK(N, n) && forall v: Valuation :: InFed(v, N) <==> InZone(v, m) || InFed(v, R)
  {
    var tooMuch := MergeReduce(tooMuch0, n, 0, 0, restrictedMerge);
    N := SubtractFed([hull], tooMuch, n);
    ghost var N0 := N;
    forall v: Valuation ensures InFed(v, N0) <==> InZone(v, m) || InFed(v, R) {
      InFedOne(v, hull);
      assert InFed(v, tooMuch) <==> InFed(v, tooMuch0);
    }
    N := MergeReduce(N, n, 0, 0, restrictedMerge);
    forall v: Valuation ensures InFed(v, N) <==> InZone(v, m) || InFed(v, R) {
      assert InFed(v, N) <==> InFed(v, N0);
    }
  }

  /** One visit of the member at position p.  It leads to a shorter list or to the next position; a jump, which
      skips the loop's own test for the end of the list, always leads to a member. */
  method Visit(F: Fed, p: nat, n: nat, restrictedMerge: bool) returns (L: Fed, p': nat, jump: bool)
    requires FedOK(F, n) && p < |F| && n <= NONE
    ensures Reduces(L, F, n) && p' <= |L| && (|L| < |F| || (|L| == |F| && p' == p + 1 && Advances(L, F, p)))
    ensures jump ==> p' < |L|
    ensures |L| == |F| ==> !JoinIsZone(F, p)
  {
    var restart, R, hull;
    restart, L, R, hull := FirstPass(F, p, n);
    if restart {
      return L, p, true;
    }
    if |R| == 0 {
      PutBack(L, R, F, n);
      assert L + R == L;
      if |L| == |F| {
        RowAdvances(L, R, F, p);
        NoJoin(L, R, hull, F, p);
      }
      return L, p + 1, false;
    }
    L, R := SecondPass(L, R, hull, F, p, n);
    NoJoin(L, R, hull, F, p);
    L, p', jump := CheckHull(L, R, hull, F, p, n, restrictedMerge);
  }

  lemma NoJoin(L: Fed, R: Fed, hull: Dbm, F: Fed, p: nat)
    requires Tracks(L, R, hull, |L|, F, p) && forall k {:trigger F[k]} :: 0 <= k < |F| ==> |F[k]| == |F[p]|
    ensures |L| + |R| == |F| && JoinIsZone(F, p) ==> |R| > 0 && HullIsCovered(hull, L[p], R)
  {
    if |L| + |R| == |F| && JoinIsZone(F, p) {
      JoinIsCovered(L, R, hull, F, p);
    }
  }

  /** "Check the convex hull" and what follows.  A hull that adds nothing makes the list shorter, and so does a member
      of those compared that lies in the union of the others. */
  method CheckHull(L0: Fed, R0: Fed, hull: Dbm, ghost F: Fed, p: nat, n: nat, restrictedMerge: bool) returns (L: Fed, p': nat, jump: bool)
    requires Gathered(L0, R0, hull, |L0|, F, p, n) && |R0| > 0 && n <= NONE
    ensures |L| <= |L0| + |R0| && (|L| == |F| ==> !HullIsCovered(hull, L0[p], R0) && NoneCovered([L0[p]] + R0, |R0| + 1))
    ensures Reduces(L, F, n) && p' <= |L| && (|L| < |F| || (|L| == |F| && p' == p + 1 && Advances(L, F, p)))
    ensures jump ==> p' < |L|
  {
    GatheredInHull(L0, R0, hull, F, p, n);
    SomethingBeyond(R0, L0[p], 0);
    var R := MergeReduce(R0, n, 0, 0, restrictedMerge);
    ReplaceSetAside(L0, R0, R, F, n);
    var tooMuch := TooMuch(hull, L0[p], R, n);
    NothingTooMuch(hull, L0[p], R0, R, tooMuch, n);
    if |tooMuch| == 0 {
      HullReplaces(L0, R, hull, F, p, n);
      L := L0[p := hull];
      return L, if |L| == 1 then 1 else p, |L| != 1;
    }
    L, p', jump := TryOtherList(L0, R, tooMuch, hull, F, p, n, restrictedMerge);
    assert |L| == |F| ==> R == R0;
  }

  lemma NothingTooMuch(hull: Dbm, m: Dbm, R0: Fed, R: Fed, tooMuch: Fed, n: nat)
    requires FedOK(tooMuch, n) && SameFed(R, R0)
    requires forall v: Valuation :: InFed(v, tooMuch) <==> InZone(v, hull) && !InZone(v, m) && !InFed(v, R)
    ensures |tooMuch| == 0 <==> HullIsCovered(hull, m, R0)
  {
    EmptyFed(tooMuch, n);
    if |tooMuch| > 0 {
      var v: Valuation :| InFed(v, tooMuch);
      assert InZone(v, hull) && !InZone(v, m) && !InFed(v, R0);
    } else {
      forall v: Valuation {:trigger InZone(v, hull)} | InZone(v, hull) ensures InZone(v, m) || InFed(v, R0) {
        assert !InFed(v, tooMuch);
      }
    }
  }

  /** The hull adds something: is there a shorter list for the members that were compared? */
  method TryOtherList(L0: Fed, R: Fed, tooMuch: Fed, hull: Dbm, ghost F: Fed, p: nat, n: nat, restrictedMerge: bool)
    returns (L: Fed, p': nat, jump: bool)
    requires p < |L0| && Accounts(L0, R, F, n) && FedOK([hull], n) && FedOK(tooMuch, n) && n <= NONE && HullCovers(hull, L0[p], R)
    requires forall v: Valuation :: InFed(v, tooMuch) <==> InZone(v, hull) && !InZone(v, L0[p]) && !InFed(v, R)
    requires |L0| + |R| == |F| ==> OnlyMoved(L0, R, F, p) && RowSettled(L0, R, p, |L0|)
    requires exists v: Valuation :: InFed(v, R) && !InZone(v, L0[p])
    ensures Reduces(L, F, n) && p' < |L| && (|L| < |F| || (|L| == |F| && p' == p + 1 && Advances(L, F, p))) && jump
    ensures |L| <= |L0| + |R| && (|L| == |F| ==> NoneCovered([L0[p]] + R, |R| + 1))
  {
    var newFed := OtherList(hull, L0[p], R, tooMuch, n, restrictedMerge);
    if |newFed| <= |R| {
      ListReplaces(L0, R, newFed, F, p, n);
      ghost var v := CanonicalHasPoint(L0[p]);
      assert InFed(v, newFed);
      return Without(L0, p) + newFed, p, true;
    }
    L, p' := ReduceSetAside(L0, R, F, p, n);
    jump := true;
  }

  ghost predicate HullIsCovered(hull: Dbm, m: Dbm, R: Fed) {
    forall v: Valuation {:trigger InZone(v, hull)} :: InZone(v, hull) ==> InZone(v, m) || InFed(v, R)
  }

  /** "Try expensiveReduce on removedj" */
  method ReduceSetAside(L0: Fed, R: Fed, ghost F: Fed, p: nat, n: nat) returns (L: Fed, p': nat)
    requires p < |L0| && Accounts(L0, R, F, n) && n <= NONE
    requires |L0| + |R| == |F| ==> OnlyMoved(L0, R, F, p) && RowSettled(L0, R, p, |L0|)
    requires exists v: Valuation :: InFed(v, R) && !InZone(v, L0[p])
    ensures Reduces(L, F, n) && p' < |L| && (|L| < |F| || (|L| == |F| && p' == p + 1 && Advances(L, F, p)))
    ensures |L| <= |L0| + |R| && (|L| == |F| ==> NoneCovered([L0[p]] + R, |R| + 1))
  {
    FedOKAppend([L0[p]], R, n);
    var N, same := ExpensiveReduce([L0[p]] + R, n);
    forall v: Valuation ensures InFed(v, N) <==> InZone(v, L0[p]) || InFed(v, R) {
      InFedCons(v, L0[p], R);
    }
    if same {
      TailReplaces(L0, R, N, F, p, n);
      if |L0 + N[1..]| == |F| {
        assert N[1..] == R;
        RowAdvances(L0, R, F, p);
      }
      return L0 + N[1..], p + 1;
    }
    ListReplaces(L0, R, N, F, p, n);
    return Without(L0, p) + N, p;
  }

  /** The head of N is the visited member, which stays in the list; the tail is put back, and is not empty. */
  lemma TailReplaces(L: Fed, R: Fed, N: Fed, F: Fed, p: nat, n: nat)
    requires p < |L| && Accounts(L, R, F, n) && FedOK(N, n) && 0 < |N| <= |R| + 1 && N[0] == L[p]
    requires forall v: Valuation :: InFed(v, N) <==> InZone(v, L[p]) || InFed(v, R)
    requires exists v: Valuation :: InFed(v, R) && !InZone(v, L[p])
    ensures Reduces(L + N[1..], F, n) && |N| > 1
  {
    FedOKAppend(L, N[1..], n);
    assert N == [N[0]] + N[1..];
    forall v: Valuation ensures InFed(v, L + N[1..]) <==> InFed(v, F) {
      InFedCons(v, N[0], N[1..]);
      InFedAppend(v, L, N[1..]);
    }
    var w: Valuation :| InFed(w, R) && !InZone(w, L[p]);
    InFedCons(w, N[0], N[1..]);
    assert InFed(w, N[1..]);
  }

  /** fed_t::convexReduce.  A list in which some members combine gets shorter, and so does one whose first member makes
      up a zone with the members that join it. */
  method ConvexReduce(F0: Fed, n: nat, restrictedMerge: bool) returns (F: Fed)
    requires FedOK(F0, n) && n <= NONE
    ensures Reduces(F, F0, n) && (CanShrink(F0) || JoinIsZone(F0, 0) ==> |F| < |F0|)
  {
    F := F0;
    if |F| <= 1 {
      return;
    }
    var p: nat := 0;
    while p < |F|
      invariant p <= |F| && Reduces(F, F0, n)
      invariant |F| == |F0| ==> (CanShrink(F0) ==> CanShrink(F)) && SettledTo(F, p)
      invariant |F| == |F0| ==> if p == 0 then F == F0 else !JoinIsZone(F0, 0)
      decreases |F|, |F| - p
    {
      var jump;
      F, p, jump := Visit(F, p, n, restrictedMerge);
    }
    assert p == |F|;
    if SettledTo(F, |F|) {
      SettledCannotShrink(F);
    }
  }
}
