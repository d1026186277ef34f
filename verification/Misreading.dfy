/** A matrix that is packed with 600 saved constraints, so that reader and size function get the number of
    constraints wrong (mingraph_getNbConstraints, src/mingraph_coding.h). */
module Misreading {
  import opened Bounds
  import opened Zones
  import Closure
  import opened MinimalGraph
  import opened Words
  import opened Restoring
  import opened Coding
  import opened Packed
  import opened Encoding
  import opened Reading

  /** The clocks 1 to p are at most 5 ahead of the q clocks after them. */
  function AheadEntry(p: nat, i: nat, j: nat): Raw {
    if i == 0 || i == j then LE_ZERO
    else if i <= p < j then Bound(5, true)
    else Inf
  }

  ghost predicate IsAhead(m: Dbm, p: nat, q: nat) {
    |m| == 1 + p + q && forall i, j {:trigger m[i][j]} :: 0 <= i < |m| && 0 <= j < |m| ==> m[i][j] == AheadEntry(p, i, j)
  }

  lemma AheadIsValid(m: Dbm, p: nat, q: nat)
    requires IsAhead(m, p, q)
    ensures Valid(m) && CodableMatrix(m, false)
  {
    forall r | 0 <= r < |m| ensures Through(m, r) {
      forall i, j {:trigger m[i][j]} | 0 <= i < |m| && 0 <= j < |m| ensures Le(m[i][j], Add(m[i][r], m[r][j])) {
        AheadTriangle(p, i, r, j);
      }
    }
  }

  lemma AheadTriangle(p: nat, i: nat, r: nat, j: nat)
    ensures Le(AheadEntry(p, i, j), Add(AheadEntry(p, i, r), AheadEntry(p, r, j)))
  {
    if i == r {
    } else if r == j {
    } else if i == j {
    } else {
    }
  }

  /** No constraint follows from the others; those of the reference are not saved. */
  lemma AheadSaved(m: Dbm, p: nat, q: nat, i: nat, j: nat)
    requires IsAhead(m, p, q)
    ensures (i, j) in SavedBits(m) <==> 1 <= i <= p < j < 1 + p + q
  {
    forall x: nat, y: nat | x < |m| && y < |m| && x != y ensures !Tied(m, x, y) {
      assert m[x][y] == AheadEntry(p, x, y) && m[y][x] == AheadEntry(p, y, x);
    }
    if i < |m| && j < |m| {
      assert m[i][j] == AheadEntry(p, i, j) && m[0][j] == AheadEntry(p, 0, j);
      if 1 <= i <= p < j {
        assert IsRep(m, i) && IsRep(m, j);
        forall r: nat | r < |m| && r != i && r != j ensures !Implied(m, i, r, j) {
          assert m[i][r] == AheadEntry(p, i, r) && m[r][j] == AheadEntry(p, r, j);
        }
        assert KeptBetween(m, i, j);
      } else if Kept(m, i, j) {
        KeptIsOffDiagonal(m, i, j);
      }
    }
  }

  /** The pairs of one clock up to p with one behind it, in the first rows. */
  ghost function Rectangle(p: nat, q: nat, rows: nat): (S: set<(nat, nat)>)
    ensures forall i: nat, j: nat {:trigger (i, j) in S} :: (i, j) in S <==> 1 <= i <= rows && p < j <= p + q
  {
    if rows == 0 then {} else Rectangle(p, q, rows - 1) + RowOf(p, q, rows)
  }

  ghost function RowOf(p: nat, q: nat, i: nat): (S: set<(nat, nat)>)
    ensures forall x: nat, j: nat {:trigger (x, j) in S} :: (x, j) in S <==> x == i && p < j <= p + q
  {
    if q == 0 then {} else RowOf(p, q - 1, i) + {(i, p + q)}
  }

  lemma {:induction false} RowSize(p: nat, q: nat, i: nat)
    ensures |RowOf(p, q, i)| == q
  {
    if q > 0 {
      RowSize(p, q - 1, i);
      assert (i, p + q) !in RowOf(p, q - 1, i);
    }
  }

  lemma Apart<T>(A: set<T>, B: set<T>)
    requires A !! B
    ensures |A + B| == |A| + |B|
  {
  }

  lemma OneRowMore(rows: nat, q: nat)
    ensures rows * q == (rows - 1) * q + q
  {
  }

  lemma {:induction false} RectangleSize(p: nat, q: nat, rows: nat)
    ensures |Rectangle(p, q, rows)| == rows * q
  {
    if rows > 0 {
      RectangleSize(p, q, rows - 1);
      RowSize(p, q, rows);
      forall e: (nat, nat) ensures !(e in Rectangle(p, q, rows - 1) && e in RowOf(p, q, rows)) {
        assert e == (e.0, e.1);
      }
      Apart(Rectangle(p, q, rows - 1), RowOf(p, q, rows));
      OneRowMore(rows, q);
    }
  }

  lemma AheadCount(m: Dbm, p: nat, q: nat)
    requires IsAhead(m, p, q)
    ensures |SavedBits(m)| == p * q
  {
    forall e: (nat, nat) ensures e in SavedBits(m) <==> e in Rectangle(p, q, p) {
      assert e == (e.0, e.1);
      AheadSaved(m, p, q, e.0, e.1);
    }
    assert SavedBits(m) == Rectangle(p, q, p);
    RectangleSize(p, q, p);
  }

  /** For 600 constraints among 51 clocks the bit table takes less room than the copy, on 32 and on 16 bits. */
  lemma TableIsChosen(coded16: bool)
    ensures ChosenHead(51, coded16, 600) == TableHead(51, coded16, 600)
  {
    RowsIsProduct(51, 51);
    assert Cells(51) == 2601;
  }

  lemma HeadIsMinimal(m: Dbm, try16: bool)
    requires |m| == 51 && |SavedBits(m)| == 600
    ensures WrittenHead(m, true, try16).minimal
  {
    TableIsChosen(false);
    TableIsChosen(true);
    assert forall coded16: bool :: HeadOfMinimal(m, coded16).minimal;
  }

  lemma IsMisread(s: seq<Word>, m: Dbm)
    requires Encodes(s, m) && ReadHead(s[0]).minimal && |SavedBits(m)| == 600
    ensures NbConstraints(s) != 600 && SizeOfMinDBM(s) != |s|
  {
    CountReadBack(s, 600);
    SizeIsRecovered(s, m);
  }

  lemma AheadMatrix(p: nat, q: nat) returns (m: Dbm)
    ensures IsAhead(m, p, q)
  {
    m := Closure.Build(1 + p + q, (i, j) requires 0 <= i < 1 + p + q && 0 <= j < 1 + p + q => AheadEntry(p, i, j));
  }

  /** A valid matrix for which every form that is written with minimizeGraph is misread: the reader goes on with
      another number of constraints, and the size that is computed is not the size that was allocated. */
  lemma SomeMatrixIsMisread() returns (m: Dbm)
    ensures Valid(m) && |m| == 51 && CodableMatrix(m, false) && |SavedBits(m)| == 600
    ensures forall s: seq<Word>, try16: bool {:trigger Encodes(s, m), WrittenHead(m, true, try16)} ::
      Encodes(s, m) && ReadHead(s[0]) == WrittenHead(m, true, try16) ==> NbConstraints(s) != 600 && SizeOfMinDBM(s) != |s|
  {
    m := AheadMatrix(20, 30);
    AheadIsValid(m, 20, 30);
    AheadCount(m, 20, 30);
    forall s: seq<Word>, try16: bool {:trigger Encodes(s, m), WrittenHead(m, true, try16)}
      | Encodes(s, m) && ReadHead(s[0]) == WrittenHead(m, true, try16)
      ensures NbConstraints(s) != 600 && SizeOfMinDBM(s) != |s|
    {
      HeadIsMinimal(m, try16);
      IsMisread(s, m);
    }
  }
}
