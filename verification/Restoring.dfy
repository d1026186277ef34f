/** What is saved of a minimal graph and how the reader gets the matrix back: dbm_cleanBitMatrix
    (src/mingraph_write.c) drops the constraints that say a clock is not negative, and the readers
    (src/mingraph_read.c) close over some clocks only. */
module Restoring {
  import opened Bounds
  import opened Zones
  import opened Closure
  import opened Closing
  import opened MinimalGraph
  import opened Words
  import opened Analysis

  /** dbm_init */
  ghost predicate IsInit(m: Dbm) {
    forall i, j {:trigger m[i][j]} :: 0 <= i < |m| && 0 <= j < |m| ==> m[i][j] == InitEntry(i, j)
  }

  function InitEntry(i: int, j: int): Raw {
    if i == 0 || i == j then LE_ZERO else Inf
  }

  method Init(a: array2<Raw>)
    requires IsSquare(a)
    modifies a
    ensures IsInit(Mat(a))
  {
    var i := 0;
    while i < a.Length0
      invariant 0 <= i <= a.Length0
      invariant forall x, y {:trigger a[x, y]} :: 0 <= x < i && 0 <= y < a.Length0 ==> a[x, y] == InitEntry(x, y)
    {
      var j := 0;
      while j < a.Length0
        invariant 0 <= j <= a.Length0
        invariant forall x, y {:trigger a[x, y]} :: 0 <= x < a.Length0 && 0 <= y < a.Length0 && (x < i || (x == i && y < j)) ==>
          a[x, y] == InitEntry(x, y)
      {
        a[i, j] := InitEntry(i, j);
        j := j + 1;
      }
      i := i + 1;
    }
  }

  /** The kept constraints but those that only say that a clock is not negative. */
  ghost function SavedBits(m: Dbm): (s: set<(nat, nat)>)
    ensures s <= KeptBits(m)
    ensures forall i: nat, j: nat {:trigger (i, j) in s} :: (i, j) in s <==>
      (i, j) in KeptBits(m) && !(i == 0 && Le(LE_ZERO, m[0][j]))
  {
    set e | e in KeptBits(m) && !(e.0 == 0 && e.1 < |m| && Le(LE_ZERO, m[0][e.1]))
  }

  /** ~0 masks for clearing a bit: base_toggleOneBit on a set bit. */
  function ClearBit(w: nat, k: nat): nat {
    if k == 0 then w / 2 * 2 else ClearBit(w / 2, k - 1) * 2 + w % 2
  }

  lemma {:induction false} ClearBitBits(w: nat, k: nat, l: nat)
    ensures Bit(ClearBit(w, k), l) <==> l != k && Bit(w, l)
    ensures ClearBit(w, k) <= w
  {
    if k > 0 && l > 0 {
      ClearBitBits(w / 2, k - 1, l - 1);
    } else if k > 0 {
      ClearBitBits(w / 2, k - 1, 0);
    }
  }

  method ClearMark(bits: array<Word>, n: nat, i: nat, j: nat, ghost S: set<(nat, nat)>)
    requires i < n && j < n && MarksPairs(bits[..], n, S)
    modifies bits
    ensures MarksPairs(bits[..], n, S - {(i, j)})
  {
    FlatInRange(n, i, j);
    ghost var s := bits[..];
    var f := Flat(n, i, j);
    ClearBitBits(bits[f / 32], f % 32, 0);
    bits[f / 32] := ClearBit(bits[f / 32], f % 32);
    forall x: nat, y: nat {:trigger Marked(bits[..], n, x, y)}
      ensures Marked(bits[..], n, x, y) <==> (x, y) in S - {(i, j)}
    {
      assert Marked(s, n, x, y) <==> (x, y) in S;
      if x < n && y < n {
        FlatInRange(n, x, y);
        var g := Flat(n, x, y);
        if g == f {
          FlatInjective(n, x, y, i, j);
        }
        if g / 32 == f / 32 {
          ClearBitBits(s[f / 32], f % 32, g % 32);
        }
      }
    }
    SameMarks(bits[..], n, S - {(i, j)});
  }

  /** dbm_cleanBitMatrix */
  method CleanBitMatrix(dbm: array2<Raw>, bits: array<Word>, nb: nat) returns (cnt: nat)
    requires IsSquare(dbm)
    requires MarksPairs(bits[..], dbm.Length0, KeptBits(Mat(dbm))) && nb == |KeptBits(Mat(dbm))|
    modifies bits
    ensures MarksPairs(bits[..], dbm.Length0, SavedBits(Mat(dbm))) && cnt == |SavedBits(Mat(dbm))|
  {
    ghost var m := Mat(dbm);
    var n := dbm.Length0;
    ghost var S := KeptBits(m);
    cnt := nb;
    var j := 1;
    while j < n
      invariant 1 <= j <= n && Mat(dbm) == m
      invariant MarksPairs(bits[..], n, S) && cnt == |S|
      invariant CleanedTo(m, S, j)
    {
      FlatInRange(n, 0, j);
      assert Marked(bits[..], n, 0, j) <==> (0, j) in S;
      CleanStep(m, S, j);
      if Le(LE_ZERO, dbm[0, j]) && Bit(bits[Flat(n, 0, j) / 32], Flat(n, 0, j) % 32) {
        ClearMark(bits, n, 0, j, S);
        S := S - {(0, j)};
        cnt := cnt - 1;
      }
      j := j + 1;
    }
    CleanedIsSaved(m, S);
  }

  ghost predicate CleanedTo(m: Dbm, S: set<(nat, nat)>, c: nat) {
    forall i: nat, j: nat {:trigger (i, j) in S} :: (i, j) in S <==>
      (i, j) in KeptBits(m) && !(i == 0 && 0 < j < c && Le(LE_ZERO, m[0][j]))
  }

  lemma CleanStep(m: Dbm, S: set<(nat, nat)>, j: nat)
    requires 0 < j < |m| && CleanedTo(m, S, j)
    ensures CleanedTo(m, if Le(LE_ZERO, m[0][j]) && (0, j) in S then S - {(0, j)} else S, j + 1)
  {
  }

  lemma CleanedIsSaved(m: Dbm, S: set<(nat, nat)>)
    requires CleanedTo(m, S, |m|)
    ensures S == SavedBits(m)
  {
    forall e: (nat, nat) ensures e in S <==> e in SavedBits(m) {
      var i, j := e.0, e.1;
      assert e == (i, j);
      if (i, j) in KeptBits(m) {
        KeptIsOffDiagonal(m, i, j);
      }
    }
  }

  // ----- Reading back -----

  /** What a reader has written before closing: the saved constraints over dbm_init. */
  ghost predicate IsRestored(m: Dbm, S: set<(nat, nat)>, k: Dbm) {
    |k| == |m| && forall i: nat, j: nat {:trigger k[i][j]} :: i < |m| && j < |m| ==>
      k[i][j] == if (i, j) in S then m[i][j] else InitEntry(i, j)
  }

  /** The clocks a reader touches: both ends of a saved constraint, unless it is a lower bound (i = 0). */
  ghost predicate Touches(S: set<(nat, nat)>, T: set<int>) {
    forall p: nat :: p in T <==> exists i: nat, j: nat {:trigger (i, j) in S} :: (i, j) in S && i > 0 && (p == i || p == j)
  }

  lemma UntouchedGivesNothing(m: Dbm, S: set<(nat, nat)>, k: Dbm, T: set<int>)
    requires IsRestored(m, S, k) && Touches(S, T)
    requires forall i: nat, j: nat {:trigger (i, j) in S} :: (i, j) in S ==> i < |m| && j < |m| && i != j
    ensures ThroughOutside(k, T)
  {
    forall p: nat | p < |k| && p !in T ensures Through(k, p) {
      forall i, j {:trigger k[i][j]} | 0 <= i < |k| && 0 <= j < |k| ensures Le(k[i][j], Add(k[i][p], k[p][j])) {
        assert (i as nat, p) in S ==> i == 0;
        assert (p, j as nat) in S ==> p == 0;
        assert k[i][p] == if (i as nat, p) in S then m[i][p] else InitEntry(i, p);
        assert k[p][j] == if (p, j as nat) in S then m[p][j] else InitEntry(p, j);
        assert k[p][p] == LE_ZERO;
      }
    }
  }

  /** Any point that meets what the reader wrote meets the whole matrix. */
  lemma RestoredMeets(m: Dbm, k: Dbm, v: Valuation)
    requires Valid(m) && IsRestored(m, SavedBits(m), k)
    ensures Meets(v, k) <==> Meets(v, m)
  {
    if Meets(v, k) {
      forall i: nat, j: nat {:trigger Kept(m, i, j)} | i < |m| && j < |m| && Kept(m, i, j) ensures Sat(v[i] - v[j], m[i][j]) {
        MeetsAt(v, k, i, j);
        assert (i, j) in KeptBits(m);
        if (i, j) !in SavedBits(m) {
          SatLe(v[0] - v[j], LE_ZERO, m[0][j]);
        }
      }
      KeptSuffice(m, v);
    }
    if Meets(v, m) {
      forall i, j {:trigger k[i][j]} | 0 <= i < |m| && 0 <= j < |m| ensures Sat(v[i] - v[j], k[i][j]) {
        MeetsAt(v, m, i, j);
        assert k[i][j] == if (i as nat, j as nat) in SavedBits(m) then m[i][j] else InitEntry(i, j);
        assert i == j ==> m[i][j] == LE_ZERO;
        assert i == 0 ==> Le(m[0][j], LE_ZERO);
        if k[i][j] == LE_ZERO {
          SatLe(v[i] - v[j], m[i][j], LE_ZERO);
        }
      }
    }
  }

  /** Closing what the reader wrote over the clocks it touched gives back the whole matrix, although the
      clocks that only have lower bounds are left out. */
  lemma RestoreIsExact(m: Dbm, k: Dbm, T: set<int>)
    requires Valid(m) && IsRestored(m, SavedBits(m), k) && Touches(SavedBits(m), T)
    ensures ZeroDiagonal(k) && ThroughOutside(k, T) && CloseOver(k, T, |k|) == m
  {
    forall i: nat, j: nat {:trigger (i, j) in SavedBits(m)} | (i, j) in SavedBits(m) ensures i < |m| && j < |m| && i != j {
      KeptIsOffDiagonal(m, i, j);
    }
    forall i | 0 <= i < |k| ensures k[i][i] == LE_ZERO {
      assert (i as nat, i as nat) !in SavedBits(m);
    }
    UntouchedGivesNothing(m, SavedBits(m), k, T);
    forall v: Valuation ensures InZone(v, k) <==> InZone(v, m) {
      RestoredMeets(m, k, v);
    }
    var v := CanonicalHasPoint(m);
    RestoredMeets(m, k, v);
    TouchedClosingIsFull(k, T, v);
    CanonicalIsClosed(k, m);
  }
}
