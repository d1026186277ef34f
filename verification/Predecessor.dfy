/** The timed predecessor of src/fed.cpp: predt(good, bad) holds the points that can delay into good while every
    point on the way, the last one included, avoids bad.  The optional argument `restrict` is not modelled. */
module Predecessor {
  import Bounds
  import opened Zones
  import Closing
  import Constraining
  import opened Images
  import Analysis
  import opened Federations
  import opened Subtraction
  import opened Reduction

  // ----- Images and intersections of federations -----

  ghost predicate IsPoint(v: Valuation, n: nat) {
    n > 0 && |v| == n && v[0] == 0.0
  }

  /** v reaches F by letting time pass. */
  ghost predicate Arrives(v: Valuation, F: Fed) {
    exists d: real :: d >= 0.0 && InFed(Delay(v, d), F)
  }

  method DownOf(m: Dbm) returns (h: Dbm)
    requires Valid(m)
    ensures |h| == |m| && Valid(h)
    ensures forall v: Valuation | IsPoint(v, |m|) :: InZone(v, h) <==> NonNegative(v) && Reaches(v, m)
  {
    var a := CopyOf(m);
    Down(a);
    h := Closing.Mat(a);
  }

  /** fed_t::down */
  method FedDown(F: Fed, n: nat) returns (r: Fed)
    requires FedOK(F, n)
    ensures FedOK(r, n) && |r| == |F|
    ensures forall v: Valuation | IsPoint(v, n) :: InFed(v, r) <==> NonNegative(v) && Arrives(v, F)
  {
    r := [];
    var k := 0;
    while k < |F|
      invariant 0 <= k <= |F| && |r| == k && FedOK(r, n)
      invariant forall l {:trigger r[l]} :: 0 <= l < k ==>
        forall v: Valuation | IsPoint(v, n) :: InZone(v, r[l]) <==> NonNegative(v) && Reaches(v, F[l])
    {
      var h := DownOf(F[k]);
      r := r + [h];
      k := k + 1;
    }
    forall v: Valuation | IsPoint(v, n) ensures InFed(v, r) <==> NonNegative(v) && Arrives(v, F) {
      if InFed(v, r) {
        var l :| 0 <= l < |r| && InZone(v, r[l]);
        var d: real :| d >= 0.0 && InZone(Delay(v, d), F[l]);
        assert InFed(Delay(v, d), F);
      }
      if NonNegative(v) && Arrives(v, F) {
        var d: real :| d >= 0.0 && InFed(Delay(v, d), F);
        var l :| 0 <= l < |F| && InZone(Delay(v, d), F[l]);
        assert Reaches(v, F[l]);
        assert InZone(v, r[l]);
      }
    }
  }

  /** dbmlist_t::intersection: members without a point in arg are removed. */
  method IntersectDbm(F: Fed, arg: Dbm, n: nat) returns (r: Fed)
    requires FedOK(F, n) && |arg| == n && Valid(arg)
    ensures FedOK(r, n) && |r| <= |F|
    ensures forall v: Valuation :: InFed(v, r) <==> InFed(v, F) && InZone(v, arg)
  {
    r := [];
    var k := 0;
    while k < |F|
      invariant 0 <= k <= |F| && |r| <= k && FedOK(r, n)
      invariant forall v: Valuation :: InFed(v, r) <==> InFed(v, F[..k]) && InZone(v, arg)
    {
      var a := CopyOf(F[k]);
      var b := CopyOf(arg);
      var ok := Constraining.Intersection(a, b);
      ghost var r0 := r;
      if ok {
        r := r + [Closing.Mat(a)];
      }
      forall v: Valuation ensures InFed(v, r) <==> InFed(v, F[..k + 1]) && InZone(v, arg) {
        assert F[..k + 1] == F[..k] + [F[k]];
        InFedAppend(v, F[..k], [F[k]]);
        InFedOne(v, F[k]);
        if ok {
          InFedAppend(v, r0, [Closing.Mat(a)]);
          InFedOne(v, Closing.Mat(a));
        }
      }
      k := k + 1;
    }
    assert F[..k] == F;
  }

  lemma AppendedFed(F: Fed, G: Fed, n: nat)
    requires FedOK(F, n) && FedOK(G, n)
    ensures FedOK(F + G, n) && forall v: Valuation :: InFed(v, F + G) <==> InFed(v, F) || InFed(v, G)
  {
    forall v: Valuation ensures InFed(v, F + G) <==> InFed(v, F) || InFed(v, G) {
      InFedAppend(v, F, G);
    }
  }

  /** fed_t::steal: append at the end, then reduce incrementally; no member behind those of F that are left lies in an
      earlier one, holds it or could be merged with it. */
  method Steal(F: Fed, G: Fed, n: nat, restrictedMerge: bool) returns (r: Fed)
    requires FedOK(F, n) && FedOK(G, n) && n <= Analysis.NONE
    ensures FedOK(r, n) && forall v: Valuation :: InFed(v, r) <==> InFed(v, F) || InFed(v, G)
    ensures exists head: nat {:trigger MergedFrom(r, head, |r|, 0, restrictedMerge, F + G)} ::
      head <= |F| && MergedFrom(r, head, |r|, 0, restrictedMerge, F + G)
  {
    AppendedFed(F, G, n);
    r := MergeReduce(F + G, n, |F|, 0, restrictedMerge);
  }

  /** operator &= for two federations: the first member of G is treated last. */
  method IntersectFed(F: Fed, G: Fed, n: nat, restrictedMerge: bool) returns (r: Fed)
    requires FedOK(F, n) && FedOK(G, n) && n <= Analysis.NONE
    ensures FedOK(r, n) && forall v: Valuation :: InFed(v, r) <==> InFed(v, F) && InFed(v, G)
  {
    r := [];
    if |G| == 0 || |F| == 0 {
      return;
    }
    var k := 1;
    while k < |G|
      invariant 1 <= k <= |G| && FedOK(r, n)
      invariant forall v: Valuation :: InFed(v, r) <==> InFed(v, F) && InFed(v, G[1..k])
    {
      ghost var r0 := r;
      var part := IntersectDbm(F, G[k], n);
      r := Steal(r, part, n, restrictedMerge);
      forall v: Valuation ensures InFed(v, r) <==> InFed(v, F) && InFed(v, G[1..k + 1]) {
        assert G[1..k + 1] == G[1..k] + [G[k]];
        InFedAppend(v, G[1..k], [G[k]]);
        InFedOne(v, G[k]);
        assert InFed(v, r0) <==> InFed(v, F) && InFed(v, G[1..k]);
      }
      k := k + 1;
    }
    ghost var r1 := r;
    var part := IntersectDbm(F, G[0], n);
    r := Steal(r, part, n, restrictedMerge);
    forall v: Valuation ensures InFed(v, r) <==> InFed(v, F) && InFed(v, G) {
      assert G == [G[0]] + G[1..k];
      InFedAppend(v, [G[0]], G[1..k]);
      InFedOne(v, G[0]);
      assert InFed(v, r1) <==> InFed(v, F) && InFed(v, G[1..k]);
    }
  }

  // ----- Avoiding one bad zone -----

  /** Up to delay d, included, v stays out of b. */
  ghost predicate Avoids(v: Valuation, d: real, b: Dbm) {
    forall e: real {:trigger Delay(v, e)} :: 0.0 <= e <= d ==> !InZone(Delay(v, e), b)
  }

  /** v can delay into g and stay out of b. */
  ghost predicate Escapes(v: Valuation, g: Dbm, b: Dbm) {
    exists d: real :: d >= 0.0 && InZone(Delay(v, d), g) && Avoids(v, d, b)
  }

  /** The delays that lead into a zone form an interval. */
  lemma DelaysAreConvex(v: Valuation, b: Dbm, lo: real, mid: real, hi: real)
    requires lo <= mid <= hi && InZone(Delay(v, lo), b) && InZone(Delay(v, hi), b)
    ensures InZone(Delay(v, mid), b)
  {
    var l, w, h := Delay(v, lo), Delay(v, mid), Delay(v, hi);
    forall i, j {:trigger b[i][j]} | 0 <= i < |b| && 0 <= j < |b| ensures Bounds.Sat(w[i] - w[j], b[i][j]) {
      MeetsAt(l, b, i, j);
      MeetsAt(h, b, i, j);
    }
  }

  lemma DelayTwice(v: Valuation, d: real, e: real)
    ensures Delay(Delay(v, d), e) == Delay(v, d + e)
  {
  }

  /** The formula of the source for convex g and b: (down(g) - down(b)) + down((down(b) & g) - b). */
  ghost predicate ByFormula(v: Valuation, g: Dbm, b: Dbm) {
    Reaches(v, g) && (!Reaches(v, b) || exists d: real {:trigger Delay(v, d)} ::
      d >= 0.0 && InZone(Delay(v, d), g) && Reaches(Delay(v, d), b) && !InZone(Delay(v, d), b))
  }

  lemma FormulaIsExact(v: Valuation, g: Dbm, b: Dbm)
    ensures ByFormula(v, g, b) <==> Escapes(v, g, b)
  {
    if ByFormula(v, g, b) {
      if !Reaches(v, b) {
        var d: real :| d >= 0.0 && InZone(Delay(v, d), g);
        assert Avoids(v, d, b);
      } else {
        var d: real :| d >= 0.0 && InZone(Delay(v, d), g) && Reaches(Delay(v, d), b) && !InZone(Delay(v, d), b);
        BeforeBad(v, b, d);
      }
    }
    if Escapes(v, g, b) {
      var d: real :| d >= 0.0 && InZone(Delay(v, d), g) && Avoids(v, d, b);
      assert Reaches(v, g);
      if Reaches(v, b) {
        var e: real :| e >= 0.0 && InZone(Delay(v, e), b);
        assert d < e;
        DelayTwice(v, d, e - d);
        assert Reaches(Delay(v, d), b);
      }
    }
  }

  /** A point outside b that still reaches b has not been in b before. */
  lemma BeforeBad(v: Valuation, b: Dbm, d: real)
    requires Reaches(Delay(v, d), b) && !InZone(Delay(v, d), b)
    ensures Avoids(v, d, b)
  {
    var e: real :| e >= 0.0 && InZone(Delay(Delay(v, d), e), b);
    DelayTwice(v, d, e);
    forall f: real {:trigger Delay(v, f)} | 0.0 <= f <= d ensures !InZone(Delay(v, f), b) {
      if InZone(Delay(v, f), b) {
        DelaysAreConvex(v, b, f, d, d + e);
      }
    }
  }

  /** When the past of g does not meet b, nothing has to be avoided. */
  lemma NothingToAvoid(v: Valuation, g: Dbm, b: Dbm, downGood: Dbm)
    requires IsPoint(v, |g|) && NonNegative(v) && Apart(downGood, b)
    requires forall w: Valuation | IsPoint(w, |g|) :: InZone(w, downGood) <==> NonNegative(w) && Reaches(w, g)
    ensures Reaches(v, g) <==> Escapes(v, g, b)
  {
    if Reaches(v, g) {
      var d: real :| d >= 0.0 && InZone(Delay(v, d), g);
      forall e: real {:trigger Delay(v, e)} | 0.0 <= e <= d ensures !InZone(Delay(v, e), b) {
        var w := Delay(v, e);
        DelayTwice(v, e, d - e);
        assert Reaches(w, g) && NonNegative(w);
        assert InZone(w, downGood);
      }
      assert Avoids(v, d, b);
    }
  }

  ghost predicate IsPast(h: Dbm, m: Dbm) {
    |h| == |m| && Valid(h) && forall v: Valuation | IsPoint(v, |m|) :: InZone(v, h) <==> NonNegative(v) && Reaches(v, m)
  }

  ghost predicate IsPartOf(part: Fed, g: Dbm, b: Dbm) {
    FedOK(part, |g|) && forall v: Valuation | IsPoint(v, |g|) :: InFed(v, part) <==> NonNegative(v) && Escapes(v, g, b)
  }

  /** The predecessor for one good and one bad zone that may meet. */
  method PredtPart(good: Dbm, bad: Dbm, downGood: Dbm, downBad: Dbm, n: nat, restrictedMerge: bool) returns (part: Fed)
    requires |good| == |bad| == n <= Analysis.NONE && Valid(good) && Valid(bad) && IsPast(downGood, good) && IsPast(downBad, bad)
    ensures IsPartOf(part, good, bad)
  {
    var early := SubtractDbm([downGood], downBad, n);
    var late := IntersectDbm([downBad], good, n);
    ghost var both := late;
    late := SubtractDbm(late, bad, n);
    ghost var outside := late;
    late := FedDown(late, n);
    part := Steal(early, late, n, restrictedMerge);
    forall v: Valuation | IsPoint(v, n) ensures InFed(v, part) <==> NonNegative(v) && Escapes(v, good, bad) {
      InFedOne(v, downGood);
      assert InFed(v, early) <==> InZone(v, downGood) && !InZone(v, downBad);
      LateIsExact(v, good, bad, downBad, both, outside);
      FormulaIsExact(v, good, bad);
      LateReachesGood(v, good, bad);
    }
  }

  lemma LateIsExact(v: Valuation, good: Dbm, bad: Dbm, downBad: Dbm, both: Fed, outside: Fed)
    requires |good| == |bad| && IsPoint(v, |good|) && IsPast(downBad, bad)
    requires forall w: Valuation :: InFed(w, both) <==> InFed(w, [downBad]) && InZone(w, good)
    requires IsFedDifference(outside, both, bad)
    ensures NonNegative(v) ==> (Arrives(v, outside) <==> LateDelay(v, good, bad))
  {
    if NonNegative(v) {
      forall d: real {:trigger Delay(v, d)} | d >= 0.0
        ensures InFed(Delay(v, d), outside) <==> InZone(Delay(v, d), good) && Reaches(Delay(v, d), bad) && !InZone(Delay(v, d), bad)
      {
        var w := Delay(v, d);
        InFedOne(w, downBad);
        assert IsPoint(w, |good|) && NonNegative(w);
      }
    }
  }

  /** v can delay to a point of g that is still before b. */
  ghost predicate LateDelay(v: Valuation, g: Dbm, b: Dbm) {
    exists d: real {:trigger Delay(v, d)} ::
      d >= 0.0 && InZone(Delay(v, d), g) && Reaches(Delay(v, d), b) && !InZone(Delay(v, d), b)
  }

  lemma LateReachesGood(v: Valuation, g: Dbm, b: Dbm)
    ensures ByFormula(v, g, b) <==> (Reaches(v, g) && !Reaches(v, b)) || LateDelay(v, g, b)
  {
    if LateDelay(v, g, b) {
      var d: real :| d >= 0.0 && InZone(Delay(v, d), g) && Reaches(Delay(v, d), b) && !InZone(Delay(v, d), b);
      assert Reaches(v, g);
    }
  }

  // ----- Avoiding all bad zones -----

  /** Up to delay d, included, v stays out of all members of B. */
  ghost predicate AvoidsAll(v: Valuation, d: real, B: Fed) {
    forall e: real {:trigger Delay(v, e)} :: 0.0 <= e <= d ==> !InFed(Delay(v, e), B)
  }

  /** v can delay into F and stay out of B. */
  ghost predicate EscapesAll(v: Valuation, F: Fed, B: Fed) {
    exists d: real :: d >= 0.0 && InFed(Delay(v, d), F) && AvoidsAll(v, d, B)
  }

  /** For each of the first k members of B there is some delay. */
  ghost predicate EscapesEach(v: Valuation, g: Dbm, B: Fed, k: nat) {
    k <= |B| && forall l {:trigger B[l]} :: 0 <= l < k ==> Escapes(v, g, B[l])
  }

  /** The least of the delays works for all bad zones. */
  lemma {:induction false} LeastDelay(v: Valuation, g: Dbm, B: Fed, k: nat) returns (d: real)
    requires Reaches(v, g) && EscapesEach(v, g, B, k)
    ensures d >= 0.0 && InZone(Delay(v, d), g)
    ensures forall l {:trigger B[l]} :: 0 <= l < k ==> Avoids(v, d, B[l])
  {
    if k == 0 {
      d :| d >= 0.0 && InZone(Delay(v, d), g);
    } else {
      var d1 := LeastDelay(v, g, B, k - 1);
      assert Escapes(v, g, B[k - 1]);
      var d2: real :| d2 >= 0.0 && InZone(Delay(v, d2), g) && Avoids(v, d2, B[k - 1]);
      d := if d1 < d2 then d1 else d2;
      forall l {:trigger B[l]} | 0 <= l < k ensures Avoids(v, d, B[l]) {
        assert l < k - 1 ==> Avoids(v, d1, B[l]);
      }
    }
  }

  lemma EscapesAllIsEach(v: Valuation, g: Dbm, B: Fed)
    ensures EscapesAll(v, [g], B) <==> Reaches(v, g) && EscapesEach(v, g, B, |B|)
  {
    if EscapesAll(v, [g], B) {
      var d: real :| d >= 0.0 && InFed(Delay(v, d), [g]) && AvoidsAll(v, d, B);
      InFedOne(Delay(v, d), g);
      forall l {:trigger B[l]} | 0 <= l < |B| ensures Escapes(v, g, B[l]) {
        forall e: real {:trigger Delay(v, e)} | 0.0 <= e <= d ensures !InZone(Delay(v, e), B[l]) {
          assert !InFed(Delay(v, e), B);
        }
        assert Avoids(v, d, B[l]);
      }
    }
    if Reaches(v, g) && EscapesEach(v, g, B, |B|) {
      var d := LeastDelay(v, g, B, |B|);
      InFedOne(Delay(v, d), g);
      forall e: real {:trigger Delay(v, e)} | 0.0 <= e <= d ensures !InFed(Delay(v, e), B) {
        forall l | 0 <= l < |B| ensures !InZone(Delay(v, e), B[l]) {
          assert Avoids(v, d, B[l]);
        }
      }
      assert AvoidsAll(v, d, B);
    }
  }

  /** The partial result for the first k bad zones. */
  ghost predicate PartialPredt(part: Fed, g: Dbm, B: Fed, k: nat) {
    FedOK(part, |g|) &&
    forall v: Valuation | IsPoint(v, |g|) :: InFed(v, part) <==> NonNegative(v) && Reaches(v, g) && EscapesEach(v, g, B, k)
  }

  lemma OneMoreBad(part: Fed, part': Fed, p: Fed, g: Dbm, B: Fed, k: nat)
    requires PartialPredt(part, g, B, k) && k < |B| && IsPartOf(p, g, B[k]) && FedOK(part', |g|)
    requires forall v: Valuation :: InFed(v, part') <==> InFed(v, part) && InFed(v, p)
    ensures PartialPredt(part', g, B, k + 1)
  {
    forall v: Valuation | IsPoint(v, |g|)
      ensures InFed(v, part') <==> NonNegative(v) && Reaches(v, g) && EscapesEach(v, g, B, k + 1)
    {
      assert EscapesEach(v, g, B, k + 1) <==> EscapesEach(v, g, B, k) && Escapes(v, g, B[k]);
    }
  }

  lemma HarmlessBad(part: Fed, g: Dbm, B: Fed, k: nat, downGood: Dbm)
    requires PartialPredt(part, g, B, k) && k < |B| && IsPast(downGood, g) && Apart(downGood, B[k])
    ensures PartialPredt(part, g, B, k + 1)
  {
    forall v: Valuation | IsPoint(v, |g|)
      ensures InFed(v, part) <==> NonNegative(v) && Reaches(v, g) && EscapesEach(v, g, B, k + 1)
    {
      if NonNegative(v) {
        NothingToAvoid(v, g, B[k], downGood);
      }
      assert EscapesEach(v, g, B, k + 1) <==> EscapesEach(v, g, B, k) && Escapes(v, g, B[k]);
    }
  }

  /** The predecessor of one good zone: the intersection over the bad zones of the partial predecessors. */
  method PredtOfGood(good: Dbm, bad: Fed, n: nat, restrictedMerge: bool) returns (r: Fed)
    requires |good| == n <= Analysis.NONE && Valid(good) && FedOK(bad, n)
    ensures IsPredt(r, [good], bad, n)
  {
    var downGood := DownOf(good);
    r := [downGood];
    forall v: Valuation ensures InFed(v, r) <==> InZone(v, downGood) {
      InFedOne(v, downGood);
    }
    var k := 0;
    while k < |bad| && (k == 0 || |r| > 0)
      invariant 0 <= k <= |bad| && PartialPredt(r, good, bad, k)
    {
      var may := MayIntersect(downGood, bad[k]);
      if may {
        var downBad := DownOf(bad[k]);
        var p := PredtPart(good, bad[k], downGood, downBad, n, restrictedMerge);
        ghost var r0 := r;
        if k == 0 {
          StartWithPart(r0, p, good, bad);
          r := p;
        } else {
          r := IntersectFed(r, p, n, restrictedMerge);
          OneMoreBad(r0, r, p, good, bad, k);
        }
      } else {
        HarmlessBad(r, good, bad, k, downGood);
      }
      k := k + 1;
    }
    forall v: Valuation {:trigger InFed(v, r)} | IsPoint(v, n) ensures InFed(v, r) <==> NonNegative(v) && EscapesAll(v, [good], bad) {
      EscapesAllIsEach(v, good, bad);
      if k < |bad| {
        assert EscapesEach(v, good, bad, |bad|) ==> EscapesEach(v, good, bad, k);
      }
    }
  }

  /** For the first bad zone the partial predecessor is the result so far. */
  lemma StartWithPart(r: Fed, p: Fed, good: Dbm, bad: Fed)
    requires |bad| > 0 && IsPartOf(p, good, bad[0])
    ensures PartialPredt(p, good, bad, 1)
  {
    forall v: Valuation | IsPoint(v, |good|)
      ensures InFed(v, p) <==> NonNegative(v) && Reaches(v, good) && EscapesEach(v, good, bad, 1)
    {
      assert EscapesEach(v, good, bad, 1) <==> Escapes(v, good, bad[0]);
      if Escapes(v, good, bad[0]) {
        var d: real :| d >= 0.0 && InZone(Delay(v, d), good) && Avoids(v, d, bad[0]);
        assert Reaches(v, good);
      }
    }
  }

  lemma EscapesUnion(v: Valuation, F: Fed, k: nat, B: Fed)
    requires k < |F|
    ensures EscapesAll(v, F[..k + 1], B) <==> EscapesAll(v, F[..k], B) || EscapesAll(v, [F[k]], B)
  {
    assert F[..k + 1] == F[..k] + [F[k]];
    forall d: real {:trigger Delay(v, d)} ensures InFed(Delay(v, d), F[..k + 1]) <==> InFed(Delay(v, d), F[..k]) || InFed(Delay(v, d), [F[k]]) {
      InFedAppend(Delay(v, d), F[..k], [F[k]]);
    }
    if EscapesAll(v, F[..k + 1], B) {
      var d: real :| d >= 0.0 && InFed(Delay(v, d), F[..k + 1]) && AvoidsAll(v, d, B);
      assert InFed(Delay(v, d), F[..k]) || InFed(Delay(v, d), [F[k]]);
    }
    if EscapesAll(v, F[..k], B) {
      var d: real :| d >= 0.0 && InFed(Delay(v, d), F[..k]) && AvoidsAll(v, d, B);
      assert InFed(Delay(v, d), F[..k + 1]);
    }
    if EscapesAll(v, [F[k]], B) {
      var d: real :| d >= 0.0 && InFed(Delay(v, d), [F[k]]) && AvoidsAll(v, d, B);
      assert InFed(Delay(v, d), F[..k + 1]);
    }
  }

  /** Nothing escapes from a federation into itself. */
  lemma NoEscapeFromItself(v: Valuation, F: Fed)
    ensures !EscapesAll(v, F, F)
  {
  }

  /** The union over the good zones. */
  method PredtOfAll(F: Fed, bad: Fed, n: nat, restrictedMerge: bool) returns (r: Fed)
    requires FedOK(F, n) && FedOK(bad, n) && n <= Analysis.NONE
    ensures IsPredt(r, F, bad, n)
  {
    r := [];
    var k := 0;
    assert F[..0] == [];
    while k < |F|
      invariant 0 <= k <= |F| && IsPredt(r, F[..k], bad, n)
    {
      var part := PredtOfGood(F[k], bad, n, restrictedMerge);
      r := StealPart(r, part, F, k, bad, n, restrictedMerge);
      k := k + 1;
    }
    assert F[..k] == F;
  }

  ghost predicate IsPredt(r: Fed, F: Fed, bad: Fed, n: nat) {
    FedOK(r, n) && forall v: Valuation {:trigger InFed(v, r)} | IsPoint(v, n) :: InFed(v, r) <==> NonNegative(v) && EscapesAll(v, F, bad)
  }

  /** result.steal(intersecPredt) */
  method StealPart(r0: Fed, part: Fed, F: Fed, k: nat, bad: Fed, n: nat, restrictedMerge: bool) returns (r: Fed)
    requires FedOK(F, n) && n <= Analysis.NONE && k < |F|
    requires IsPredt(r0, F[..k], bad, n) && IsPredt(part, [F[k]], bad, n)
    ensures IsPredt(r, F[..k + 1], bad, n)
  {
    r := Steal(r0, part, n, restrictedMerge);
    forall v: Valuation {:trigger InFed(v, r)} | IsPoint(v, n) ensures InFed(v, r) <==> NonNegative(v) && EscapesAll(v, F[..k + 1], bad) {
      EscapesUnion(v, F, k, bad);
      assert InFed(v, r0) <==> NonNegative(v) && EscapesAll(v, F[..k], bad);
      assert InFed(v, part) <==> NonNegative(v) && EscapesAll(v, [F[k]], bad);
    }
  }

  /** The overload for one bad zone, whose past is computed when it is first needed. */
  method PredtDbm(F: Fed, bad: Dbm, n: nat, restrictedMerge: bool) returns (r: Fed)
    requires FedOK(F, n) && |bad| == n <= Analysis.NONE && Valid(bad)
    ensures IsPredt(r, F, [bad], n)
  {
    var downBad, downBadOK := bad, false;
    r := [];
    var k := 0;
    assert F[..0] == [];
    while k < |F|
      invariant 0 <= k <= |F| && IsPredt(r, F[..k], [bad], n)
      invariant downBadOK ==> IsPast(downBad, bad)
    {
      var downGood := DownOf(F[k]);
      var part := [downGood];
      var may := MayIntersect(downGood, bad);
      if may {
        if !downBadOK {
          downBad := DownOf(bad);
          downBadOK := true;
        }
        part := PredtPart(F[k], bad, downGood, downBad, n, restrictedMerge);
      } else {
        HarmlessAlone(part, F[k], bad, downGood);
      }
      PartIsPredt(part, F[k], bad);
      r := StealPart(r, part, F, k, [bad], n, restrictedMerge);
      k := k + 1;
    }
    assert F[..k] == F;
  }

  lemma HarmlessAlone(part: Fed, g: Dbm, b: Dbm, downGood: Dbm)
    requires part == [downGood] && Valid(g) && IsPast(downGood, g) && Apart(downGood, b)
    ensures IsPartOf(part, g, b)
  {
    forall v: Valuation | IsPoint(v, |g|) ensures InFed(v, part) <==> NonNegative(v) && Escapes(v, g, b) {
      InFedOne(v, downGood);
      if NonNegative(v) {
        NothingToAvoid(v, g, b, downGood);
      }
    }
  }

  lemma PartIsPredt(part: Fed, g: Dbm, b: Dbm)
    requires IsPartOf(part, g, b)
    ensures IsPredt(part, [g], [b], |g|)
  {
    StartWithPart(part, part, g, [b]);
    forall v: Valuation {:trigger InFed(v, part)} | IsPoint(v, |g|) ensures InFed(v, part) <==> NonNegative(v) && EscapesAll(v, [g], [b]) {
      EscapesAllIsEach(v, g, [b]);
    }
  }

  lemma NothingBad(v: Valuation, F: Fed)
    ensures EscapesAll(v, F, []) <==> Arrives(v, F)
  {
    if Arrives(v, F) {
      var d: real :| d >= 0.0 && InFed(Delay(v, d), F);
      assert AvoidsAll(v, d, []);
    }
  }

  /** fed_t::predt without `restrict`; same tells that the two federations are one object. */
  method Predt(F: Fed, bad: Fed, same: bool, n: nat, restrictedMerge: bool) returns (r: Fed)
    requires FedOK(F, n) && FedOK(bad, n) && n <= Analysis.NONE && (same ==> F == bad)
    ensures IsPredt(r, F, bad, n)
  {
    if same {
      forall v: Valuation ensures !EscapesAll(v, F, bad) {
        NoEscapeFromItself(v, F);
      }
      return [];
    }
    if |bad| == 1 {
      r := PredtDbm(F, bad[0], n, restrictedMerge);
      assert [bad[0]] == bad;
    } else if |bad| == 0 {
      r := FedDown(F, n);
      forall v: Valuation ensures EscapesAll(v, F, bad) <==> Arrives(v, F) {
        NothingBad(v, F);
      }
    } else if |F| > 0 {
      r := PredtOfAll(F, bad, n, restrictedMerge);
    } else {
      r := F;
    }
  }
}
