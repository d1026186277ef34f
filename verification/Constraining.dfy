/** Cutting zones: dbm_tighten, dbm_constrain1, dbm_constrainN, dbm_intersection and the tests
    that go with them (src/dbm.c, include/dbm/dbm.h). */
module Constraining {
  import opened Bounds
  import opened Zones
  import opened Closure
  import opened Closing

  /** xi - xj meets value. */
  datatype Constraint = Constraint(i: nat, j: nat, value: Raw)

  ghost predicate WellFormed(c: Constraint, n: nat) {
    c.i < n && c.j < n && c.i != c.j
  }

  ghost predicate AllWellFormed(cs: seq<Constraint>, n: nat) {
    forall k {:trigger cs[k]} :: 0 <= k < |cs| ==> WellFormed(cs[k], n)
  }

  ghost predicate MeetsAll(v: Valuation, cs: seq<Constraint>)
    requires AllWellFormed(cs, |v|)
  {
    forall k {:trigger cs[k]} :: 0 <= k < |cs| ==> Sat(v[cs[k].i] - v[cs[k].j], cs[k].value)
  }

  /** dbm_tighten */
  method Tighten(a: array2<Raw>, i: nat, j: nat, c: Raw)
    requires IsSquare(a) && i < a.Length0 && j < a.Length0
    requires Canonical(Mat(a)) && CanTighten(Mat(a), i, j, c)
    modifies a
    ensures Mat(a) == Tightened(old(Mat(a)), i, j, c) && Canonical(Mat(a))
    ensures forall v: Valuation :: InZone(v, Mat(a)) <==> InZone(v, old(Mat(a))) && Sat(v[i] - v[j], c)
  {
    ghost var m := Mat(a);
    a[i, j] := c;
    SameEntries(Mat(a), Set(m, i, j, c));
    CloseEntry(a, i, j, m);
    TightenedCanonical(m, i, j, c);
    TightenedCutsZone(m, i, j, c);
  }

  lemma TightenedCutsZone(m: Dbm, i: nat, j: nat, c: Raw)
    requires Canonical(m) && i < |m| && j < |m| && Lt(c, m[i][j])
    ensures forall v: Valuation :: InZone(v, Tightened(m, i, j, c)) <==> InZone(v, m) && Sat(v[i] - v[j], c)
  {
    forall v: Valuation
      ensures InZone(v, Tightened(m, i, j, c)) <==> InZone(v, m) && Sat(v[i] - v[j], c)
    {
      TightenedMeets(m, i, j, c, v);
    }
  }

  /** dbm_satisfies */
  predicate Satisfies(m: Dbm, i: nat, j: nat, c: Raw)
    requires i < |m| && j < |m|
  {
    !(Lt(c, m[i][j]) && Le(m[j][i], Neg(c)))
  }

  /** On a closed non-empty matrix dbm_satisfies tells exactly whether some point meets the constraint. */
  lemma SatisfiesIsExact(m: Dbm, i: nat, j: nat, c: Raw)
    requires Canonical(m) && i < |m| && j < |m| && i != j
    ensures Satisfies(m, i, j, c) <==> exists v: Valuation :: InZone(v, m) && Sat(v[i] - v[j], c)
  {
    if !Lt(c, m[i][j]) {
      var v := CanonicalHasPoint(m);
      SatLe(v[i] - v[j], m[i][j], c);
      assert InZone(v, m) && Sat(v[i] - v[j], c);
    } else if Le(m[j][i], Neg(c)) {
      forall v: Valuation | InZone(v, m) ensures !Sat(v[i] - v[j], c) {
        SatLe(v[j] - v[i], m[j][i], Neg(c));
        NegComplements(v[i] - v[j], c);
      }
    } else {
      TightenedCanonical(m, i, j, c);
      var v := CanonicalHasPoint(Tightened(m, i, j, c));
      TightenedMeets(m, i, j, c, v);
      assert InZone(v, m) && Sat(v[i] - v[j], c);
    }
  }

  /** dbm_constrain1 */
  method Constrain1(a: array2<Raw>, i: nat, j: nat, c: Raw) returns (ok: bool)
    requires IsSquare(a) && i < a.Length0 && j < a.Length0 && i != j
    requires Canonical(Mat(a))
    modifies a
    ensures ok <==> exists v: Valuation :: InZone(v, old(Mat(a))) && Sat(v[i] - v[j], c)
    ensures ok ==> Canonical(Mat(a))
    ensures ok ==> forall v: Valuation :: InZone(v, Mat(a)) <==> InZone(v, old(Mat(a))) && Sat(v[i] - v[j], c)
    ensures !ok ==> LooksEmpty(Mat(a))
  {
    ghost var m := Mat(a);
    SatisfiesIsExact(m, i, j, c);
    if Lt(c, a[i, j]) {
      a[i, j] := c;
      if Le(a[j, i], Neg(c)) {
        a[0, 0] := EMPTY_MARK;
        assert Lt(Mat(a)[0][0], LE_ZERO);
        return false;
      }
      SameEntries(Mat(a), Set(m, i, j, c));
      CloseEntry(a, i, j, m);
      TightenedCanonical(m, i, j, c);
      TightenedCutsZone(m, i, j, c);
    } else {
      LooseConstraintCutsNothing(m, i, j, c);
    }
    return true;
  }

  lemma LooseConstraintCutsNothing(m: Dbm, i: nat, j: nat, c: Raw)
    requires i < |m| && j < |m| && Le(m[i][j], c)
    ensures forall v: Valuation :: InZone(v, m) <==> InZone(v, m) && Sat(v[i] - v[j], c)
  {
    forall v: Valuation | InZone(v, m) ensures Sat(v[i] - v[j], c) {
      SatLe(v[i] - v[j], m[i][j], c);
    }
  }

  // ----- Tightening many entries, then closing once -----

  /** m is the canonical d with some entries between touched clocks tightened; `changed` counts
      the tightenings and (ci, cj) is the last one. */
  ghost predicate Tightenings(d: Dbm, m: Dbm, touched: set<int>, changed: nat, ci: nat, cj: nat) {
    |m| == |d| && ZeroDiagonal(m) &&
    (forall i, j {:trigger m[i][j]} :: 0 <= i < |m| && 0 <= j < |m| ==>
      Le(m[i][j], d[i][j]) && (m[i][j] == d[i][j] || (i in touched && j in touched))) &&
    (changed == 0 ==> m == d) &&
    (changed == 1 ==> ci < |d| && cj < |d| && CanTighten(d, ci, cj, m[ci][cj]) && m == Set(d, ci, cj, m[ci][cj]))
  }

  /** The body of DBM_CONSTRAIN, also inlined in dbm_intersection: tighten one entry, stop if that
      leaves a negative cycle, remember what was touched. */
  method ConstrainEntry(a: array2<Raw>, i: nat, j: nat, c: Raw, touched: set<int>, changed: nat, ci: nat, cj: nat, ghost d: Dbm)
    returns (ok: bool, touched': set<int>, changed': nat, ci': nat, cj': nat)
    requires IsSquare(a) && i < a.Length0 && j < a.Length0 && (Lt(c, a[i, j]) ==> i != j)
    requires Tightenings(d, Mat(a), touched, changed, ci, cj)
    modifies a
    ensures ok ==> Mat(a) == WithConstraint(old(Mat(a)), i, j, c) && Tightenings(d, Mat(a), touched', changed', ci', cj')
    ensures !ok ==> LooksEmpty(Mat(a)) && c.Bound? && Le(old(a[j, i]), Neg(c))
  {
    touched', changed', ci', cj' := touched, changed, ci, cj;
    if Lt(c, a[i, j]) {
      ghost var m := Mat(a);
      a[i, j] := c;
      if Le(a[j, i], Neg(c)) {
        a[0, 0] := EMPTY_MARK;
        assert Lt(Mat(a)[0][0], LE_ZERO);
        return false, touched, changed, ci, cj;
      }
      SameEntries(Mat(a), Set(m, i, j, c));
      changed' := changed + 1;
      touched' := touched + {i} + {j};
      ci', cj' := i, j;
    }
    return true, touched', changed', ci', cj';
  }

  function WithConstraint(m: Dbm, i: nat, j: nat, c: Raw): Dbm
    requires i < |m| && j < |m|
  {
    if Lt(c, m[i][j]) then Set(m, i, j, c) else m
  }

  lemma UntouchedThrough(d: Dbm, m: Dbm, touched: set<int>, changed: nat, ci: nat, cj: nat)
    requires Canonical(d) && Tightenings(d, m, touched, changed, ci, cj)
    ensures ThroughOutside(m, touched)
  {
    forall p | 0 <= p < |m| && p !in touched ensures Through(m, p) {
      forall i, j {:trigger m[i][j]} | 0 <= i < |m| && 0 <= j < |m|
        ensures Le(m[i][j], Add(m[i][p], m[p][j]))
      {
        Triangle(d, i, p, j);
        assert m[i][p] == d[i][p] && m[p][j] == d[p][j];
      }
    }
  }

  /** "choose best close": close after a series of tightenings of the canonical matrix d. */
  method BestClose(a: array2<Raw>, touched: set<int>, changed: nat, ci: nat, cj: nat, ghost d: Dbm) returns (ok: bool)
    requires IsSquare(a) && Canonical(d) && Tightenings(d, Mat(a), touched, changed, ci, cj)
    modifies a
    ensures ok ==> Canonical(Mat(a)) && SameZone(old(Mat(a)), Mat(a))
    ensures !ok ==> EmptyZone(old(Mat(a))) && LooksEmpty(Mat(a))
  {
    if changed > 1 {
      UntouchedThrough(d, Mat(a), touched, changed, ci, cj);
      ok := CloseTouched(a, touched);
      return;
    }
    if changed == 1 {
      ghost var c := a[ci, cj];
      CloseEntry(a, ci, cj, d);
      TightenedCanonical(d, ci, cj, c);
      TightenedSameZone(d, ci, cj, c);
    }
    return true;
  }

  lemma TightenedSameZone(d: Dbm, i: nat, j: nat, c: Raw)
    requires Canonical(d) && i < |d| && j < |d| && Lt(c, d[i][j])
    ensures SameZone(Set(d, i, j, c), Tightened(d, i, j, c))
  {
    forall v: Valuation ensures InZone(v, Set(d, i, j, c)) <==> InZone(v, Tightened(d, i, j, c)) {
      TightenedMeets(d, i, j, c, v);
      SetMeets(d, i, j, c, v);
    }
  }

  /** Two opposite bounds below a zero cycle leave no point. */
  lemma OppositeBoundsEmpty(m: Dbm, i: nat, j: nat, c: Raw, v: Valuation)
    requires i < |m| && j < |m| && c.Bound? && Le(m[j][i], Neg(c)) && Meets(v, m)
    ensures !Sat(v[i] - v[j], c)
  {
    SatLe(v[j] - v[i], m[j][i], Neg(c));
    NegComplements(v[i] - v[j], c);
  }

  /** One turn of the loop of dbm_constrainN. */
  method ConstrainNext(a: array2<Raw>, cs: seq<Constraint>, k: nat, touched: set<int>, changed: nat, ci: nat, cj: nat, ghost d: Dbm)
    returns (ok: bool, touched': set<int>, changed': nat, ci': nat, cj': nat)
    requires IsSquare(a) && a.Length0 == |d| && AllWellFormed(cs, |d|) && k < |cs|
    requires Tightenings(d, Mat(a), touched, changed, ci, cj) && CutBy(d, cs[..k], Mat(a))
    modifies a
    ensures ok ==> Tightenings(d, Mat(a), touched', changed', ci', cj') && CutBy(d, cs[..k + 1], Mat(a))
    ensures !ok ==> LooksEmpty(Mat(a)) && NothingLeft(d, cs)
  {
    var c := cs[k];
    assert cs[..k + 1] == cs[..k] + [c];
    ghost var m := Mat(a);
    CutByOneMore(d, cs[..k], m, c);
    ok, touched', changed', ci', cj' := ConstrainEntry(a, c.i, c.j, c.value, touched, changed, ci, cj, d);
    if !ok {
      CutToNothing(d, cs, k, m);
    }
  }

  /** dbm_constrainN: exact conjunction of constraints. */
  method ConstrainN(a: array2<Raw>, cs: seq<Constraint>) returns (ok: bool)
    requires IsSquare(a) && Canonical(Mat(a)) && AllWellFormed(cs, a.Length0)
    modifies a
    ensures ok ==> Canonical(Mat(a)) && SameCut(old(Mat(a)), cs, Mat(a))
    ensures !ok ==> LooksEmpty(Mat(a)) && NothingLeft(old(Mat(a)), cs)
  {
    ghost var d := Mat(a);
    var touched: set<int> := {};
    var changed, ci, cj := 0, 0, 0;
    var k := 0;
    while k < |cs|
      invariant 0 <= k <= |cs|
      invariant Tightenings(d, Mat(a), touched, changed, ci, cj)
      invariant CutBy(d, cs[..k], Mat(a))
    {
      ok, touched, changed, ci, cj := ConstrainNext(a, cs, k, touched, changed, ci, cj, d);
      if !ok {
        return;
      }
      k := k + 1;
    }
    assert cs[..k] == cs;
    ok := CloseCut(a, cs, touched, changed, ci, cj, d);
  }

  /** The closing at the end of dbm_constrainN. */
  method CloseCut(a: array2<Raw>, ghost cs: seq<Constraint>, touched: set<int>, changed: nat, ci: nat, cj: nat, ghost d: Dbm) returns (ok: bool)
    requires IsSquare(a) && a.Length0 == |d| && Canonical(d) && AllWellFormed(cs, |d|)
    requires Tightenings(d, Mat(a), touched, changed, ci, cj) && CutBy(d, cs, Mat(a))
    modifies a
    ensures ok ==> Canonical(Mat(a)) && SameCut(d, cs, Mat(a))
    ensures !ok ==> LooksEmpty(Mat(a)) && NothingLeft(d, cs)
  {
    ghost var cut := Mat(a);
    ok := BestClose(a, touched, changed, ci, cj, d);
    if ok {
      SameZoneSameCut(d, cs, cut, Mat(a));
    } else {
      NothingLeftOfEmpty(d, cs, cut);
    }
  }

  /** The zone of m is the zone of d cut by the constraints. */
  ghost predicate SameCut(d: Dbm, cs: seq<Constraint>, m: Dbm)
    requires AllWellFormed(cs, |d|)
  {
    |m| == |d| && forall v: Valuation | |v| == |d| :: InZone(v, m) <==> InZone(v, d) && MeetsAll(v, cs)
  }

  ghost predicate NothingLeft(d: Dbm, cs: seq<Constraint>)
    requires AllWellFormed(cs, |d|)
  {
    forall v: Valuation | |v| == |d| :: !(InZone(v, d) && MeetsAll(v, cs))
  }

  lemma CutZone(d: Dbm, cs: seq<Constraint>, cut: Dbm)
    requires AllWellFormed(cs, |d|) && CutBy(d, cs, cut)
    ensures SameCut(d, cs, cut)
  {
    forall v: Valuation | |v| == |d| ensures InZone(v, cut) <==> InZone(v, d) && MeetsAll(v, cs) {
      assert Meets(v, cut) <==> Meets(v, d) && MeetsAll(v, cs);
    }
  }

  lemma NothingLeftOfEmpty(d: Dbm, cs: seq<Constraint>, cut: Dbm)
    requires AllWellFormed(cs, |d|) && CutBy(d, cs, cut) && EmptyZone(cut)
    ensures NothingLeft(d, cs)
  {
    CutZone(d, cs, cut);
  }

  lemma SameZoneSameCut(d: Dbm, cs: seq<Constraint>, cut: Dbm, m: Dbm)
    requires AllWellFormed(cs, |d|) && CutBy(d, cs, cut) && SameZone(cut, m)
    ensures SameCut(d, cs, m)
  {
    CutZone(d, cs, cut);
    forall v: Valuation | |v| == |d| ensures InZone(v, m) <==> InZone(v, d) && MeetsAll(v, cs) {
      assert InZone(v, cut) <==> InZone(v, m);
    }
  }

  /** The valuations that meet m are those that meet d and the constraints. */
  ghost predicate CutBy(d: Dbm, cs: seq<Constraint>, m: Dbm)
    requires AllWellFormed(cs, |d|)
  {
    |m| == |d| && forall v: Valuation {:trigger Meets(v, m)} | |v| == |d| :: Meets(v, m) <==> Meets(v, d) && MeetsAll(v, cs)
  }

  lemma CutByOneMore(d: Dbm, cs: seq<Constraint>, m: Dbm, c: Constraint)
    requires AllWellFormed(cs, |d|)
    requires WellFormed(c, |d|) && CutBy(d, cs, m)
    ensures CutBy(d, cs + [c], WithConstraint(m, c.i, c.j, c.value))
  {
    var m' := WithConstraint(m, c.i, c.j, c.value);
    forall v: Valuation | |v| == |d| ensures Meets(v, m') <==> Meets(v, d) && MeetsAll(v, cs + [c]) {
      MeetsOneMore(v, cs, c);
      if Lt(c.value, m[c.i][c.j]) {
        SetMeets(m, c.i, c.j, c.value, v);
      } else if Meets(v, m) {
        SatLe(v[c.i] - v[c.j], m[c.i][c.j], c.value);
      }
    }
  }

  lemma MeetsOneMore(v: Valuation, cs: seq<Constraint>, c: Constraint)
    requires AllWellFormed(cs, |v|)
    requires WellFormed(c, |v|)
    ensures MeetsAll(v, cs + [c]) <==> MeetsAll(v, cs) && Sat(v[c.i] - v[c.j], c.value)
  {
    var all := cs + [c];
    if MeetsAll(v, all) {
      assert all[|cs|] == c;
      forall k {:trigger cs[k]} | 0 <= k < |cs| ensures Sat(v[cs[k].i] - v[cs[k].j], cs[k].value) {
        assert all[k] == cs[k];
      }
    }
  }

  lemma CutToNothing(d: Dbm, cs: seq<Constraint>, k: nat, m: Dbm)
    requires AllWellFormed(cs, |d|)
    requires k < |cs| && WellFormed(cs[k], |d|) && CutBy(d, cs[..k], m)
    requires cs[k].value.Bound? && Le(m[cs[k].j][cs[k].i], Neg(cs[k].value))
    ensures NothingLeft(d, cs)
  {
    forall v: Valuation | |v| == |d| ensures !(InZone(v, d) && MeetsAll(v, cs)) {
      if InZone(v, d) && MeetsAll(v, cs) {
        var c := cs[k];
        assert MeetsAll(v, cs[..k]);
        OppositeBoundsEmpty(m, c.i, c.j, c.value, v);
      }
    }
  }

  // ----- Intersection -----

  /** The entries before (i, j), in row order, are the tighter ones of d and s; the rest are d's. */
  ghost predicate MinUpTo(d: Dbm, s: Dbm, m: Dbm, i: nat, j: nat)
    requires |d| == |s|
  {
    |m| == |d| && forall x, y {:trigger m[x][y]} :: 0 <= x < |d| && 0 <= y < |d| ==>
      m[x][y] == if x < i || (x == i && y < j) then Min(d[x][y], s[x][y]) else d[x][y]
  }

  lemma MinMeets(d: Dbm, s: Dbm, m: Dbm, v: Valuation)
    requires |d| == |s| && MinUpTo(d, s, m, |d|, 0)
    ensures Meets(v, m) <==> Meets(v, d) && Meets(v, s)
  {
    if Meets(v, m) {
      forall x, y {:trigger d[x][y]} {:trigger s[x][y]} | 0 <= x < |d| && 0 <= y < |d|
        ensures Sat(v[x] - v[y], d[x][y]) && Sat(v[x] - v[y], s[x][y])
      {
        SatLe(v[x] - v[y], m[x][y], d[x][y]);
        SatLe(v[x] - v[y], m[x][y], s[x][y]);
      }
    }
  }

  lemma DisjointByEntry(d: Dbm, s: Dbm, m: Dbm, i: nat, j: nat)
    requires |d| == |s| && i < |d| && j < |d| && MinUpTo(d, s, m, i, j)
    requires s[i][j].Bound? && Le(m[j][i], Neg(s[i][j]))
    ensures forall v: Valuation :: !(InZone(v, d) && InZone(v, s))
  {
    forall v: Valuation ensures !(InZone(v, d) && InZone(v, s)) {
      if InZone(v, d) && InZone(v, s) {
        assert m[j][i] == d[j][i] || m[j][i] == s[j][i];
        SatLe(v[j] - v[i], m[j][i], Neg(s[i][j]));
        NegComplements(v[i] - v[j], s[i][j]);
      }
    }
  }

  lemma SelfMinimum(d: Dbm, m: Dbm, i: nat, j: nat)
    requires MinUpTo(d, d, m, i, j)
    ensures m == d
  {
    SameEntries(m, d);
  }

  /** One entry of the intersection. */
  method IntersectEntry(dst: array2<Raw>, i: nat, j: nat, c: Raw, touched: set<int>, count: nat, ci: nat, cj: nat, ghost d: Dbm, ghost s: Dbm)
    returns (ok: bool, touched': set<int>, count': nat, ci': nat, cj': nat)
    requires IsSquare(dst) && i < dst.Length0 && j < dst.Length0 && |d| == |s| && ZeroDiagonal(d) && ZeroDiagonal(s)
    requires MinUpTo(d, s, Mat(dst), i, j) && c == s[i][j] && Tightenings(d, Mat(dst), touched, count, ci, cj)
    modifies dst
    ensures ok ==> MinUpTo(d, s, Mat(dst), i, j + 1) && Tightenings(d, Mat(dst), touched', count', ci', cj')
    ensures !ok ==> LooksEmpty(Mat(dst)) && forall v: Valuation :: !(InZone(v, d) && InZone(v, s))
  {
    ghost var m := Mat(dst);
    assert m[i][j] == d[i][j] && dst[i, j] == d[i][j];
    assert d[i][i] == LE_ZERO && s[i][i] == LE_ZERO;
    ok, touched', count', ci', cj' := ConstrainEntry(dst, i, j, c, touched, count, ci, cj, d);
    if !ok {
      DisjointByEntry(d, s, m, i, j);
    }
  }

  /** dbm_intersection: exact, and it reports emptiness exactly. */
  method Intersection(dst: array2<Raw>, src: array2<Raw>) returns (ok: bool)
    requires IsSquare(dst) && IsSquare(src) && dst.Length0 == src.Length0
    requires Valid(Mat(dst)) && Valid(Mat(src))
    modifies dst
    ensures ok ==> Valid(Mat(dst))
    ensures ok ==> forall v: Valuation :: InZone(v, Mat(dst)) <==> InZone(v, old(Mat(dst))) && InZone(v, old(Mat(src)))
    ensures !ok ==> forall v: Valuation :: !(InZone(v, old(Mat(dst))) && InZone(v, old(Mat(src))))
    ensures !ok ==> LooksEmpty(Mat(dst))
  {
    ghost var d, s := Mat(dst), Mat(src);
    var dim := dst.Length0;
    if dim > 1 {
      var ci, cj, count := 0, 0, 0;
      var touched: set<int> := {};
      var i := 0;
      while i < dim
        invariant 0 <= i <= dim
        invariant MinUpTo(d, s, Mat(dst), i, 0) && Mat(src) == s
        invariant Tightenings(d, Mat(dst), touched, count, ci, cj)
      {
        var j := 0;
        while j < dim
          invariant 0 <= j <= dim
          invariant MinUpTo(d, s, Mat(dst), i, j) && Mat(src) == s
          invariant Tightenings(d, Mat(dst), touched, count, ci, cj)
        {
          ok, touched, count, ci, cj := IntersectEntry(dst, i, j, src[i, j], touched, count, ci, cj, d, s);
          if !ok {
            return false;
          }
          if dst == src {
            SelfMinimum(d, Mat(dst), i, j + 1);
          }
          j := j + 1;
        }
        i := i + 1;
      }
      IntersectionZone(d, s, Mat(dst));
      ok := BestClose(dst, touched, count, ci, cj, d);
      if ok {
        CutKeepsValid(d, Mat(dst));
      }
    } else {
      assert d[0][0] == LE_ZERO && s[0][0] == LE_ZERO;
      SameEntries(d, s);
      return true;
    }
  }

  lemma IntersectionZone(d: Dbm, s: Dbm, m: Dbm)
    requires |d| == |s| && MinUpTo(d, s, m, |d|, 0)
    ensures forall v: Valuation :: InZone(v, m) <==> InZone(v, d) && InZone(v, s)
  {
    forall v: Valuation ensures InZone(v, m) <==> InZone(v, d) && InZone(v, s) {
      MinMeets(d, s, m, v);
    }
  }

  /** A canonical matrix whose zone lies in a valid one is valid. */
  lemma CutKeepsValid(d: Dbm, m: Dbm)
    requires Valid(d) && Canonical(m) && |m| == |d|
    requires forall v: Valuation :: InZone(v, m) ==> InZone(v, d)
    ensures Valid(m)
  {
    InclusionIsEntrywise(m, d);
    forall j | 0 <= j < |m| ensures Le(m[0][j], LE_ZERO) {
      assert Le(m[0][j], d[0][j]) && Le(d[0][j], LE_ZERO);
    }
  }

  // ----- The pairwise intersection test -----

  /** The bound x on (i, j) and the bound y on (j, i) leave no point. */
  predicate Opposed(x: Raw, y: Raw) {
    x.Bound? && Le(y, Neg(x))
  }

  predicate PairCompatible(m: Dbm, m': Dbm, i: nat, j: nat)
    requires |m| == |m'| && i < |m| && j < |m|
  {
    !Opposed(m[i][j], m'[j][i]) && !Opposed(m'[i][j], m[j][i])
  }

  ghost predicate PairwiseCompatible(m: Dbm, m': Dbm)
    requires |m| == |m'|
  {
    forall i, j :: 0 <= j < i < |m| ==> PairCompatible(m, m', i, j)
  }

  /** dbm_haveIntersection */
  method HaveIntersection(a: array2<Raw>, b: array2<Raw>) returns (r: bool)
    requires IsSquare(a) && IsSquare(b) && a.Length0 == b.Length0
    ensures r <==> PairwiseCompatible(Mat(a), Mat(b))
  {
    ghost var m, m' := Mat(a), Mat(b);
    var i := 1;
    while i < a.Length0
      invariant 1 <= i <= a.Length0
      invariant forall x, y :: 0 <= y < x < i ==> PairCompatible(m, m', x, y)
    {
      var j := 0;
      while j < i
        invariant 0 <= j <= i
        invariant forall y :: 0 <= y < j ==> PairCompatible(m, m', i, y)
      {
        assert m[i][j] == a[i, j] && m'[j][i] == b[j, i] && m'[i][j] == b[i, j] && m[j][i] == a[j, i];
        if a[i, j] != Inf && Le(b[j, i], Neg(a[i, j])) {
          assert !PairCompatible(m, m', i, j);
          return false;
        }
        if b[i, j] != Inf && Le(a[j, i], Neg(b[i, j])) {
          assert !PairCompatible(m, m', i, j);
          return false;
        }
        j := j + 1;
      }
      i := i + 1;
    }
    return true;
  }

  /** When dbm_haveIntersection says no, the zones are disjoint... */
  lemma IncompatibleIsDisjoint(m: Dbm, m': Dbm, v: Valuation)
    requires |m| == |m'| && !PairwiseCompatible(m, m')
    ensures !(InZone(v, m) && InZone(v, m'))
  {
    var x, y :| 0 <= y < x < |m| && !PairCompatible(m, m', x, y);
    if InZone(v, m) && InZone(v, m') {
      if Opposed(m[x][y], m'[y][x]) {
        OppositeBoundsEmpty(m', x, y, m[x][y], v);
      } else {
        OppositeBoundsEmpty(m, x, y, m'[x][y], v);
      }
    }
  }
}
