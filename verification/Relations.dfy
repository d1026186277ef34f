/** dbm_relation, dbm_isSubsetEq and dbm_convexUnion (src/dbm.c). */
module Relations {
  import opened Bounds
  import opened Zones
  import opened Closure
  import opened Closing

  datatype Relation = Equal | Subset | Superset | Different

  ghost predicate Included(m: Dbm, m': Dbm) {
    |m| == |m'| && forall v: Valuation :: InZone(v, m) ==> InZone(v, m')
  }

  /** The relation between two zones, as sets. */
  ghost function ZoneRelation(m: Dbm, m': Dbm): Relation {
    if Included(m, m') then (if Included(m', m) then Equal else Subset)
    else if Included(m', m) then Superset else Different
  }

  ghost predicate BelowBefore(m: Dbm, m': Dbm, i: nat, j: nat)
    requires |m| == |m'|
  {
    forall x, y {:trigger m[x][y]} :: 0 <= x < |m| && 0 <= y < |m| && Before(x, y, i, j) ==> Le(m[x][y], m'[x][y])
  }

  ghost predicate EqualBefore(m: Dbm, m': Dbm, i: nat, j: nat)
    requires |m| == |m'|
  {
    forall x, y {:trigger m[x][y]} :: 0 <= x < |m| && 0 <= y < |m| && Before(x, y, i, j) ==> m[x][y] == m'[x][y]
  }

  lemma BelowEverywhereIsIncluded(m: Dbm, m': Dbm)
    requires Canonical(m) && |m| == |m'|
    ensures BelowBefore(m, m', |m|, 0) <==> Included(m, m')
  {
    InclusionIsEntrywise(m, m');
    if BelowBefore(m, m', |m|, 0) {
      forall i, j {:trigger m[i][j]} | 0 <= i < |m| && 0 <= j < |m| ensures Le(m[i][j], m'[i][j]) {
        assert Before(i, j, |m|, 0);
      }
    }
  }

  lemma EntryAboveIsNotIncluded(m: Dbm, m': Dbm, i: nat, j: nat)
    requires Canonical(m) && |m| == |m'| && i < |m| && j < |m| && Lt(m'[i][j], m[i][j])
    ensures !Included(m, m')
  {
    InclusionIsEntrywise(m, m');
  }

  /** One step of ++dbm1, ++dbm2 through the matrices in row order. */
  function Next(n: nat, i: nat, j: nat): (nat, nat) {
    if j + 1 < n then (i, j + 1) else (i + 1, 0)
  }

  /** Advance along the entries while those of a are at or below those of b.  The first and the last
      entry are on the diagonal and are not compared. */
  method ScanBelow(a: array2<Raw>, b: array2<Raw>, i0: nat, j0: nat) returns (below: bool)
    requires IsSquare(a) && IsSquare(b) && a.Length0 == b.Length0
    requires Canonical(Mat(a)) && Canonical(Mat(b))
    requires i0 < a.Length0 && j0 < a.Length0 && BelowBefore(Mat(a), Mat(b), i0, j0)
    ensures below <==> Included(Mat(a), Mat(b))
  {
    ghost var m, m' := Mat(a), Mat(b);
    var n := a.Length0;
    var i, j := i0, j0;
    while !(i == n - 1 && j == n - 1)
      invariant 0 <= i < n && 0 <= j < n && BelowBefore(m, m', i, j)
      decreases n - i, n - j
    {
      assert m[i][j] == a[i, j] && m'[i][j] == b[i, j];
      if Lt(b[i, j], a[i, j]) {
        EntryAboveIsNotIncluded(m, m', i, j);
        return false;
      }
      var (i', j') := Next(n, i, j);
      i, j := i', j';
    }
    assert m[n - 1][n - 1] == LE_ZERO && m'[n - 1][n - 1] == LE_ZERO;
    BelowEverywhereIsIncluded(m, m');
    return true;
  }

  /** dbm_relation.  The C code fuses three copies of one scan and jumps from the first copy into the
      middle of another at the first difference; here the jump is the call of `ScanBelow` from the
      entry where it happens. */
  method ZonesRelation(dbm1: array2<Raw>, dbm2: array2<Raw>) returns (r: Relation)
    requires IsSquare(dbm1) && IsSquare(dbm2) && dbm1.Length0 == dbm2.Length0
    requires Canonical(Mat(dbm1)) && Canonical(Mat(dbm2))
    ensures r == ZoneRelation(Mat(dbm1), Mat(dbm2))
  {
    ghost var m, m' := Mat(dbm1), Mat(dbm2);
    var n := dbm1.Length0;
    assert m[0][0] == LE_ZERO && m'[0][0] == LE_ZERO && m[n - 1][n - 1] == LE_ZERO && m'[n - 1][n - 1] == LE_ZERO;
    if n <= 1 || dbm1 == dbm2 {
      SameEntriesAreEqual(m, m');
      return Equal;
    }
    var i, j := 0, 1;
    while !(i == n - 1 && j == n - 1)
      invariant 0 <= i < n && 0 <= j < n && EqualBefore(m, m', i, j)
      decreases n - i, n - j
    {
      assert m[i][j] == dbm1[i, j] && m'[i][j] == dbm2[i, j];
      if dbm1[i, j] != dbm2[i, j] {
        EqualIsBelow(m, m', i, j);
        if Lt(dbm2[i, j], dbm1[i, j]) {
          EntryAboveIsNotIncluded(m, m', i, j);
          var superset := ScanBelow(dbm2, dbm1, i, j);
          return if superset then Superset else Different;
        } else {
          EntryAboveIsNotIncluded(m', m, i, j);
          var subset := ScanBelow(dbm1, dbm2, i, j);
          return if subset then Subset else Different;
        }
      }
      var (i', j') := Next(n, i, j);
      i, j := i', j';
    }
    SameEntriesAreEqual(m, m');
    return Equal;
  }

  lemma EqualIsBelow(m: Dbm, m': Dbm, i: nat, j: nat)
    requires |m| == |m'| && EqualBefore(m, m', i, j)
    ensures BelowBefore(m, m', i, j) && BelowBefore(m', m, i, j)
  {
    forall x, y {:trigger m'[x][y]} | 0 <= x < |m| && 0 <= y < |m| && Before(x, y, i, j)
      ensures Le(m'[x][y], m[x][y])
    {
      assert m[x][y] == m'[x][y];
    }
  }

  lemma SameEntriesAreEqual(m: Dbm, m': Dbm)
    requires Canonical(m) && Canonical(m') && |m| == |m'| && EqualBefore(m, m', |m| - 1, |m| - 1)
    ensures ZoneRelation(m, m') == Equal
  {
    assert m[|m| - 1][|m| - 1] == LE_ZERO && m'[|m| - 1][|m| - 1] == LE_ZERO;
    SameEntries(m, m');
  }

  /** dbm_isSubsetEq */
  method IsSubsetEq(dbm1: array2<Raw>, dbm2: array2<Raw>) returns (r: bool)
    requires IsSquare(dbm1) && IsSquare(dbm2) && dbm1.Length0 == dbm2.Length0
    requires Canonical(Mat(dbm1)) && Canonical(Mat(dbm2))
    ensures r <==> Included(Mat(dbm1), Mat(dbm2))
  {
    ghost var m, m' := Mat(dbm1), Mat(dbm2);
    assert m[0][0] == LE_ZERO && m'[0][0] == LE_ZERO;
    if dbm1.Length0 <= 1 || dbm1 == dbm2 {
      SameEntriesAreEqual(m, m');
      return true;
    }
    r := ScanBelow(dbm1, dbm2, 0, 1);
  }

  // ----- Convex union -----

  function Max(x: Raw, y: Raw): Raw {
    if Lt(x, y) then y else x
  }

  ghost predicate IsMax(d: Dbm, s: Dbm, m: Dbm) {
    |d| == |s| == |m| &&
    forall i, j {:trigger m[i][j]} :: 0 <= i < |m| && 0 <= j < |m| ==> m[i][j] == Max(d[i][j], s[i][j])
  }

  /** The entrywise maximum of two valid matrices is valid without closing, contains both zones,
      and lies in every matrix that contains both: it is the smallest such zone. */
  lemma MaxIsHull(d: Dbm, s: Dbm, m: Dbm)
    requires Valid(d) && Valid(s) && IsMax(d, s, m)
    ensures Valid(m) && Included(d, m) && Included(s, m)
    ensures forall h: Dbm :: Included(d, h) && Included(s, h) ==> Included(m, h)
  {
    forall p | 0 <= p < |m| ensures Through(m, p) {
      forall i, j {:trigger m[i][j]} | 0 <= i < |m| && 0 <= j < |m| ensures Le(m[i][j], Add(m[i][p], m[p][j])) {
        Triangle(d, i, p, j);
        Triangle(s, i, p, j);
      }
    }
    forall i | 0 <= i < |m| ensures m[i][i] == LE_ZERO {
      assert d[i][i] == LE_ZERO && s[i][i] == LE_ZERO;
    }
    InclusionIsEntrywise(d, m);
    InclusionIsEntrywise(s, m);
    forall h: Dbm | Included(d, h) && Included(s, h) ensures Included(m, h) {
      InclusionIsEntrywise(d, h);
      InclusionIsEntrywise(s, h);
      InclusionIsEntrywise(m, h);
      forall i, j {:trigger m[i][j]} | 0 <= i < |m| && 0 <= j < |m| ensures Le(m[i][j], h[i][j]) {
        assert Le(d[i][j], h[i][j]) && Le(s[i][j], h[i][j]);
      }
    }
  }

  /** dbm_convexUnion */
  method ConvexUnion(dst: array2<Raw>, src: array2<Raw>)
    requires IsSquare(dst) && IsSquare(src) && dst.Length0 == src.Length0
    requires Valid(Mat(dst)) && Valid(Mat(src))
    modifies dst
    ensures IsMax(old(Mat(dst)), old(Mat(src)), Mat(dst)) && Valid(Mat(dst))
    ensures Included(old(Mat(dst)), Mat(dst)) && Included(old(Mat(src)), Mat(dst))
    ensures forall h: Dbm :: Included(old(Mat(dst)), h) && Included(old(Mat(src)), h) ==> Included(Mat(dst), h)
  {
    ghost var d, s := Mat(dst), Mat(src);
    var n := dst.Length0;
    if n > 1 {
      var i, j := 0, 1;
      while !(i == n - 1 && j == n - 1)
        invariant 0 <= i < n && 0 <= j < n && Mat(src) == (if dst == src then Mat(dst) else s)
        invariant dst == src ==> Mat(dst) == d
        invariant forall x, y {:trigger dst[x, y]} :: 0 <= x < n && 0 <= y < n ==>
          dst[x, y] == if Before(x, y, i, j) && !(x == 0 && y == 0) then Max(d[x][y], s[x][y]) else d[x][y]
        decreases n - i, n - j
      {
        assert s[i][j] == src[i, j];
        if Lt(dst[i, j], src[i, j]) {
          dst[i, j] := src[i, j];
        }
        var (i', j') := Next(n, i, j);
        i, j := i', j';
      }
    }
    assert d[0][0] == s[0][0] == LE_ZERO && d[n - 1][n - 1] == s[n - 1][n - 1] == LE_ZERO;
    assert IsMax(d, s, Mat(dst));
    MaxIsHull(d, s, Mat(dst));
  }
}
