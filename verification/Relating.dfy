/** The relation between a matrix and a packed form (dbm_relationWithMinDBM, src/mingraph_relation.c): when it is
    found without unpacking it is the relation with the matrix that was packed. */
module Relating {
  import opened Bounds
  import opened Zones
  import opened Closing
  import opened Relations
  import opened Words
  import opened Restoring
  import opened Coding
  import opened Positions
  import opened Packed
  import opened Reading

  // ----- Minimal forms -----

  /** The first k listed constraints of m hold in d. */
  ghost predicate BelowTo(d: Dbm, m: Dbm, L: seq<(nat, nat)>, k: nat) {
    |d| == |m| && k <= |L| &&
    forall l {:trigger L[l]} :: 0 <= l < k ==> L[l].0 < |m| && L[l].1 < |m| && Le(d[L[l].0][L[l].1], m[L[l].0][L[l].1])
  }

  /** A zone lies in another when it lies below the saved constraints: the others follow from those. */
  lemma BelowSavedIsIncluded(d: Dbm, m: Dbm, L: seq<(nat, nat)>)
    requires Valid(d) && Valid(m) && IsListing(L, SavedBits(m)) && BelowTo(d, m, L, |L|)
    ensures Included(d, m)
  {
    forall v: Valuation | InZone(v, d) ensures InZone(v, m) {
      forall i: nat, j: nat {:trigger (i, j) in SavedBits(m)} | (i, j) in SavedBits(m) && i < |m| && j < |m|
        ensures Sat(v[i] - v[j], m[i][j])
      {
        ListedAt(L, SavedBits(m), i, j);
        MeetsAt(v, d, i, j);
        SatLe(v[i] - v[j], d[i][j], m[i][j]);
      }
      forall j | 0 <= j < |m| ensures v[0] <= v[j] {
        MeetsAt(v, d, 0, j);
        SatLe(v[0] - v[j], d[0][j], LE_ZERO);
      }
      SavedSuffice(m, v);
    }
  }

  lemma NoneListed(m: Dbm)
    requires |SavedBits(m)| == 0
    ensures ListOf(SavedBits(m)) == []
  {
    assert SavedBits(m) == {};
    ListOfIs([], SavedBits(m));
  }

  /** "everything is included in the trivial zone" */
  lemma NothingSavedIncludes(d: Dbm, m: Dbm)
    requires Valid(d) && Valid(m) && |d| == |m| && |SavedBits(m)| == 0
    ensures Included(d, m)
  {
    assert SavedBits(m) == {};
    BelowSavedIsIncluded(d, m, []);
  }

  /** Some constraint among the first k is strictly tighter in d. */
  ghost predicate StrictTo(d: Dbm, m: Dbm, L: seq<(nat, nat)>, k: nat) {
    |d| == |m| && exists l: nat {:trigger L[l]} :: l < k && l < |L| && L[l].0 < |m| && L[l].1 < |m| && Lt(d[L[l].0][L[l].1], m[L[l].0][L[l].1])
  }

  /** How far the list can be read until, all constraints so far holding in d, some has been strictly tighter. */
  ghost function Sightings(d: Dbm, m: Dbm, L: seq<(nat, nat)>): (K: set<nat>)
    ensures forall k: nat {:trigger k in K} :: k in K <==> BelowTo(d, m, L, k) && StrictTo(d, m, L, k)
  {
    set k: nat | k <= |L| && BelowTo(d, m, L, k) && StrictTo(d, m, L, k)
  }

  lemma StopsAtViolated(d: Dbm, m: Dbm, L: seq<(nat, nat)>, k: nat)
    requires BelowTo(d, m, L, k) && (k < |L| ==> !BelowTo(d, m, L, k + 1))
    ensures Sightings(d, m, L) != {} <==> StrictTo(d, m, L, k)
  {
    if Sightings(d, m, L) != {} {
      var k' :| k' in Sightings(d, m, L);
      assert BelowTo(d, m, L, k') && StrictTo(d, m, L, k');
      if k' > k {
        assert BelowTo(d, m, L, k + 1);
      }
    }
    if StrictTo(d, m, L, k) {
      assert k in Sightings(d, m, L);
    }
  }

  /** mingraph_relationWithMinBitMatrix32, ...16 and mingraph_relationWithMinCouplesij32, ...16.  The answer tells
      whether d lies in the packed zone; a constraint that is strictly tighter in d rules out equality and the
      other inclusion, and then the answer is the whole relation. */
  method CompareSaved(dbm: array2<Raw>, s: seq<Word>, h: Head, cnt: nat, ghost m: Dbm) returns (r: Relation, isExact: bool)
    requires IsSquare(dbm) && Valid(Mat(dbm)) && dbm.Length0 == |m| == h.dim && Valid(m) && cnt == |SavedBits(m)|
    requires EncodesMinimal(s, m, SavedBits(m), h) && |s| == PackedSize(h, cnt) && h.minimal && (cnt == 0 ==> h.codedIJ)
    ensures r == if Included(Mat(dbm), m) then Subset else Different
    ensures isExact ==> r == ZoneRelation(Mat(dbm), m)
    ensures isExact <==> Sightings(Mat(dbm), m, ListOf(SavedBits(m))) != {}
  {
    if cnt == 0 {
      NothingSavedIncludes(Mat(dbm), m);
      NoneListed(m);
      return Subset, false;
    }
    r, isExact := CompareSome(dbm, s, h, cnt, m);
  }

  method CompareSome(dbm: array2<Raw>, s: seq<Word>, h: Head, cnt: nat, ghost m: Dbm) returns (r: Relation, isExact: bool)
    requires IsSquare(dbm) && Valid(Mat(dbm)) && dbm.Length0 == |m| == h.dim && Valid(m) && cnt == |SavedBits(m)| > 0
    requires EncodesMinimal(s, m, SavedBits(m), h) && |s| == PackedSize(h, cnt) && h.minimal
    ensures r == if Included(Mat(dbm), m) then Subset else Different
    ensures isExact ==> r == ZoneRelation(Mat(dbm), m)
    ensures isExact <==> Sightings(Mat(dbm), m, ListOf(SavedBits(m))) != {}
  {
    var L := ReadList(s, h, cnt, m);
    r, isExact := CompareListed(dbm, s, 1 + Flag(h.many), h.coded16, L, m);
  }

  method CompareListed(dbm: array2<Raw>, s: seq<Word>, c0: nat, coded16: bool, L: seq<(nat, nat)>, ghost m: Dbm)
    returns (r: Relation, isExact: bool)
    requires IsSquare(dbm) && Valid(Mat(dbm)) && dbm.Length0 == |m| && Valid(m)
    requires HoldsConstraints(s, c0, m, SavedBits(m), coded16) && IsListing(L, SavedBits(m))
    ensures r == if Included(Mat(dbm), m) then Subset else Different
    ensures isExact ==> r == ZoneRelation(Mat(dbm), m)
    ensures isExact <==> Sightings(Mat(dbm), m, ListOf(SavedBits(m))) != {}
  {
    ghost var d := Mat(dbm);
    ListOfIs(L, SavedBits(m));
    var hasStrictLess, k := false, 0;
    while k < |L|
      invariant BelowTo(d, m, L, k) && (hasStrictLess ==> !Included(m, d)) && (hasStrictLess <==> StrictTo(d, m, L, k))
    {
      var below, strict := CompareOne(dbm, s, c0, coded16, L, k, m);
      hasStrictLess := hasStrictLess || strict;
      if !below {
        StopsAtViolated(d, m, L, k);
        return Different, hasStrictLess;
      }
      k := k + 1;
    }
    BelowSavedIsIncluded(d, m, L);
    StopsAtViolated(d, m, L, k);
    return Subset, hasStrictLess;
  }

  /** One constraint: is the entry of the matrix above it, or strictly below? */
  method CompareOne(dbm: array2<Raw>, s: seq<Word>, c0: nat, coded16: bool, L: seq<(nat, nat)>, k: nat, ghost m: Dbm)
    returns (below: bool, strict: bool)
    requires IsSquare(dbm) && Valid(Mat(dbm)) && dbm.Length0 == |m| && Valid(m)
    requires HoldsConstraints(s, c0, m, SavedBits(m), coded16) && IsListing(L, SavedBits(m)) && k < |L|
    requires BelowTo(Mat(dbm), m, L, k)
    ensures below <==> BelowTo(Mat(dbm), m, L, k + 1)
    ensures !below ==> !Included(Mat(dbm), m) && !strict
    ensures strict ==> !Included(m, Mat(dbm))
    ensures StrictTo(Mat(dbm), m, L, k + 1) <==> StrictTo(Mat(dbm), m, L, k) || strict
  {
    ghost var d := Mat(dbm);
    var i, j, c := ListedConstraint(s, c0, coded16, L, k, m, SavedBits(m));
    below, strict := !Lt(c, dbm[i, j]), Lt(dbm[i, j], c);
    OneMoreSeen(d, m, L, k);
    if !below {
      EntryAboveIsNotIncluded(d, m, i, j);
    }
    if strict {
      EntryAboveIsNotIncluded(m, d, i, j);
    }
  }

  lemma OneMoreSeen(d: Dbm, m: Dbm, L: seq<(nat, nat)>, k: nat)
    requires BelowTo(d, m, L, k) && k < |L| && L[k].0 < |m| && L[k].1 < |m|
    ensures BelowTo(d, m, L, k + 1) <==> Le(d[L[k].0][L[k].1], m[L[k].0][L[k].1])
    ensures StrictTo(d, m, L, k + 1) <==> StrictTo(d, m, L, k) || Lt(d[L[k].0][L[k].1], m[L[k].0][L[k].1])
  {
  }

  /** The k-th couple and its constraint. */
  method ListedConstraint(s: seq<Word>, c0: nat, coded16: bool, L: seq<(nat, nat)>, k: nat, ghost m: Dbm, ghost S: set<(nat, nat)>)
    returns (i: nat, j: nat, c: Raw)
    requires HoldsConstraints(s, c0, m, S, coded16) && IsListing(L, S) && k < |L|
    ensures i < |m| && j < |m| && L[k] == (i, j) && c == m[i][j]
  {
    i, j := L[k].0, L[k].1;
    assert HoldsConstraint(s, c0, m, S, coded16, i, j);
    c := Stored(s, c0, k, coded16);
  }

  // ----- Copies -----

  /** The scan of a copy is at entry (i, j); k constraints were passed. */
  ghost predicate ScanAt(d: Dbm, m: Dbm, i: nat, j: nat, k: nat) {
    |d| == |m| && i < |m| && j < |m| && k == CopyIndex(|m|, i, j)
  }

  lemma NextScan(d: Dbm, m: Dbm, i: nat, j: nat, k: nat)
    requires |d| == |m| && i < |m| && j < |m| && k == CopyIndex(|m|, i, j + 1) && !(i == |m| - 1 && j == |m| - 1)
    ensures var (i', j') := Next(|m|, i, j); ScanAt(d, m, i', j', k)
  {
  }

  /** The entries before (i, j) are below, or above, those of m. */
  ghost predicate SoFar(d: Dbm, m: Dbm, below: bool, i: nat, j: nat) {
    |d| == |m| && if below then BelowBefore(d, m, i, j) else BelowBefore(m, d, i, j)
  }

  ghost predicate Compares(d: Dbm, m: Dbm, below: bool) {
    if below then Included(d, m) else Included(m, d)
  }

  lemma WrongEntry(d: Dbm, m: Dbm, below: bool, i: nat, j: nat)
    requires Canonical(d) && Canonical(m) && |d| == |m| && i < |m| && j < |m|
    requires if below then Lt(m[i][j], d[i][j]) else Lt(d[i][j], m[i][j])
    ensures !Compares(d, m, below)
  {
    if below {
      EntryAboveIsNotIncluded(d, m, i, j);
    } else {
      EntryAboveIsNotIncluded(m, d, i, j);
    }
  }

  lemma SoFarStep(d: Dbm, m: Dbm, below: bool, i: nat, j: nat)
    requires SoFar(d, m, below, i, j) && i < |m| && j < |m|
    requires if below then Le(d[i][j], m[i][j]) else Le(m[i][j], d[i][j])
    ensures var (i', j') := Next(|m|, i, j); SoFar(d, m, below, i', j')
  {
  }

  lemma ScanDone(d: Dbm, m: Dbm, below: bool)
    requires Canonical(d) && Canonical(m) && SoFar(d, m, below, |m| - 1, |m| - 1)
    ensures Compares(d, m, below)
  {
    assert d[|m| - 1][|m| - 1] == LE_ZERO && m[|m| - 1][|m| - 1] == LE_ZERO;
    if below {
      BelowEverywhereIsIncluded(d, m);
    } else {
      BelowEverywhereIsIncluded(m, d);
    }
  }

  /** Second or third copy of the scan, from where the first one left off: is the matrix still below, or above? */
  method ScanCopy(dbm: array2<Raw>, s: seq<Word>, coded16: bool, below: bool, i0: nat, j0: nat, k0: nat, ghost m: Dbm) returns (r: bool)
    requires IsSquare(dbm) && Canonical(Mat(dbm)) && Canonical(m) && ScanAt(Mat(dbm), m, i0, j0, k0)
    requires InPlace(s, m, coded16) == OffDiagonal(|m|)
    requires SoFar(Mat(dbm), m, below, i0, j0)
    ensures r <==> Compares(Mat(dbm), m, below)
  {
    ghost var d := Mat(dbm);
    var n := dbm.Length0;
    var i, j, k := i0, j0, k0;
    while !(i == n - 1 && j == n - 1)
      invariant ScanAt(d, m, i, j, k) && SoFar(d, m, below, i, j)
      decreases n - i, n - j
    {
      var c, k' := SavedEntry(s, coded16, i, j, k, m);
      assert d[i][j] == dbm[i, j];
      if if below then Lt(c, dbm[i, j]) else Lt(dbm[i, j], c) {
        WrongEntry(d, m, below, i, j);
        return false;
      }
      SoFarStep(d, m, below, i, j);
      NextScan(d, m, i, j, k');
      var (i', j') := Next(n, i, j);
      i, j, k := i', j', k';
    }
    ScanDone(d, m, below);
    return true;
  }

  /** mingraph_relationWithCopy32 and mingraph_relationWithCopy16, when the exact relation is asked for */
  method CompareCopy(dbm: array2<Raw>, s: seq<Word>, coded16: bool, ghost m: Dbm) returns (r: Relation)
    requires IsSquare(dbm) && Canonical(Mat(dbm)) && Canonical(m) && dbm.Length0 == |m|
    requires InPlace(s, m, coded16) == OffDiagonal(|m|)
    ensures r == ZoneRelation(Mat(dbm), m)
  {
    ghost var d := Mat(dbm);
    var n := dbm.Length0;
    var i, j, k := 0, 0, 0;
    while !(i == n - 1 && j == n - 1)
      invariant ScanAt(d, m, i, j, k) && EqualBefore(d, m, i, j)
      decreases n - i, n - j
    {
      var c, k' := SavedEntry(s, coded16, i, j, k, m);
      if dbm[i, j] != c {
        r := JumpFromEqual(dbm, s, coded16, i, j, k, c, m);
        return;
      }
      EqualStep(d, m, i, j);
      NextScan(d, m, i, j, k');
      var (i', j') := Next(n, i, j);
      i, j, k := i', j', k';
    }
    SameEntriesAreEqual(d, m);
    return Equal;
  }

  lemma EqualStep(d: Dbm, m: Dbm, i: nat, j: nat)
    requires |d| == |m| && i < |m| && j < |m| && EqualBefore(d, m, i, j) && d[i][j] == m[i][j]
    ensures var (i', j') := Next(|m|, i, j); EqualBefore(d, m, i', j')
  {
  }

  /** The first difference decides which of the other two copies of the scan goes on. */
  method JumpFromEqual(dbm: array2<Raw>, s: seq<Word>, coded16: bool, i: nat, j: nat, k: nat, c: Raw, ghost m: Dbm) returns (r: Relation)
    requires IsSquare(dbm) && Canonical(Mat(dbm)) && Canonical(m) && ScanAt(Mat(dbm), m, i, j, k)
    requires InPlace(s, m, coded16) == OffDiagonal(|m|)
    requires EqualBefore(Mat(dbm), m, i, j) && c == m[i][j] && dbm[i, j] != c
    ensures r == ZoneRelation(Mat(dbm), m)
  {
    ghost var d := Mat(dbm);
    assert d[i][j] == dbm[i, j];
    EqualIsBelow(d, m, i, j);
    if Lt(c, dbm[i, j]) {
      EntryAboveIsNotIncluded(d, m, i, j);
      var superset := ScanCopy(dbm, s, coded16, false, i, j, k, m);
      return if superset then Superset else Different;
    } else {
      EntryAboveIsNotIncluded(m, d, i, j);
      var subset := ScanCopy(dbm, s, coded16, true, i, j, k, m);
      return if subset then Subset else Different;
    }
  }

  // ----- The relation -----

  /** dbm_relationWithMinDBM.  With a buffer the answer is the exact relation, unpacked or not; without one it tells
      only whether the matrix lies in the packed zone. */
  method RelationWithMinDBM(dbm: array2<Raw>, s: seq<Word>, unpackBuffer: array2?<Raw>, ghost m: Dbm) returns (r: Relation)
    requires IsSquare(dbm) && Valid(Mat(dbm)) && Encodes(s, m) && Valid(m) && |SavedBits(m)| < 0x8000_0000
    requires ReadHead(s[0]).minimal ==> CountIsRead(|SavedBits(m)|)
    requires unpackBuffer != null ==> unpackBuffer != dbm && IsSquare(unpackBuffer) && unpackBuffer.Length0 == dbm.Length0
    modifies unpackBuffer
    ensures dbm.Length0 != |m| ==> r == Different
    ensures dbm.Length0 == |m| && unpackBuffer != null ==> r == ZoneRelation(Mat(dbm), m)
    ensures dbm.Length0 == |m| && unpackBuffer == null ==> r == if Included(Mat(dbm), m) then Subset else Different
  {
    var h := ReadHead(s[0]);
    if s[0] == 1 {
      OneClock(s[0]);
      r := RelationWithOne(dbm, unpackBuffer != null, m);
      return;
    }
    if h.dim != dbm.Length0 {
      return Different;
    }
    if h.minimal {
      r := RelationWithMinimal(dbm, s, unpackBuffer, m);
    } else {
      r := RelationWithCopy(dbm, s, unpackBuffer != null, m);
    }
  }

  lemma OneClock(w: Word)
    requires w == 1
    ensures ReadHead(w).dim == 1
  {
  }

  method RelationWithCopy(dbm: array2<Raw>, s: seq<Word>, exact: bool, ghost m: Dbm) returns (r: Relation)
    requires IsSquare(dbm) && Valid(Mat(dbm)) && Encodes(s, m) && Valid(m) && !ReadHead(s[0]).minimal && dbm.Length0 == |m|
    ensures r == if exact then ZoneRelation(Mat(dbm), m) else if Included(Mat(dbm), m) then Subset else Different
  {
    var h := ReadHead(s[0]);
    AllInPlace(s, m, h.coded16);
    if exact {
      r := CompareCopy(dbm, s, h.coded16, m);
    } else {
      var subset := ScanCopy(dbm, s, h.coded16, true, 0, 0, 0, m);
      r := if subset then Subset else Different;
    }
  }

  method RelationWithMinimal(dbm: array2<Raw>, s: seq<Word>, unpackBuffer: array2?<Raw>, ghost m: Dbm) returns (r: Relation)
    requires IsSquare(dbm) && Valid(Mat(dbm)) && Encodes(s, m) && Valid(m) && |SavedBits(m)| < 0x8000_0000
    requires ReadHead(s[0]).minimal && CountIsRead(|SavedBits(m)|) && dbm.Length0 == |m|
    requires unpackBuffer != null ==> unpackBuffer != dbm && IsSquare(unpackBuffer) && unpackBuffer.Length0 == dbm.Length0
    modifies unpackBuffer
    ensures r == if unpackBuffer != null then ZoneRelation(Mat(dbm), m) else if Included(Mat(dbm), m) then Subset else Different
  {
    CountReadBack(s, |SavedBits(m)|);
    var isExact;
    r, isExact := CompareSaved(dbm, s, ReadHead(s[0]), NbConstraints(s), m);
    if unpackBuffer != null && !isExact {
      ReadFromMinDBM(unpackBuffer, s, m);
      r := ZonesRelation(dbm, unpackBuffer);
    }
  }

  /** "trivial case if only ref clock" */
  method RelationWithOne(dbm: array2<Raw>, exact: bool, ghost m: Dbm) returns (r: Relation)
    requires IsSquare(dbm) && Valid(Mat(dbm)) && |m| == 1 && Valid(m)
    ensures r == if dbm.Length0 != 1 then Different else if exact then ZoneRelation(Mat(dbm), m) else Subset
    ensures dbm.Length0 == 1 ==> Included(Mat(dbm), m)
  {
    assert Mat(dbm)[0][0] == LE_ZERO && m[0][0] == LE_ZERO;
    if dbm.Length0 == 1 && dbm[0, 0] == LE_ZERO {
      SameEntriesAreEqual(Mat(dbm), m);
      return if exact then Equal else Subset;
    }
    return Different;
  }
}
