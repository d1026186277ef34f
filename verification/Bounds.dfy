/** The bound algebra of include/dbm/constraints.h.

    A bound on a difference of two clocks is "< value", "<= value" or "< infinity".
    The library packs it in one integer, 2 * value + (1 if weak), with one reserved
    integer for infinity.  `Raw` is the unpacked bound; the lemmas at the end of the
    module connect it with the packed integers the library computes with. */
module Bounds {

  datatype Raw = Inf | Bound(value: int, weak: bool)

  /** "<= 0" */
  const LE_ZERO: Raw := Bound(0, true)

  /** The order of the packed integers: a smaller bound is a tighter bound. */
  predicate Le(x: Raw, y: Raw) {
    y.Inf? || (x.Bound? && (x.value < y.value || (x.value == y.value && (x.weak ==> y.weak))))
  }

  predicate Lt(x: Raw, y: Raw) {
    !Le(y, x)
  }

  function Min(x: Raw, y: Raw): Raw {
    if Lt(y, x) then y else x
  }

  /** The sum of two bounds: infinite when either is, strict when either is. */
  function Add(x: Raw, y: Raw): Raw {
    if x.Inf? || y.Inf? then Inf else Bound(x.value + y.value, x.weak && y.weak)
  }

  /** The negation of a bound: the complement of xi - xj < c is xj - xi <= -c. */
  function Neg(x: Raw): Raw
    requires x.Bound?
  {
    Bound(-x.value, !x.weak)
  }

  /** dbm_raw2bound(x) == -dbm_raw2bound(y) */
  predicate Opposite(x: Raw, y: Raw) {
    x.Bound? && y.Bound? && x.value == -y.value
  }

  /** fed_checkWeakAdd (src/fed.cpp): the two opposite bounds leave no point between them, nor a point where
      they touch when one of them is weak. */
  predicate WeaklyOpposed(x: Raw, y: Raw) {
    x.Bound? && y.Bound? && Lt(Bound(x.value + y.value, x.weak || y.weak), LE_ZERO)
  }

  /** The difference d meets the bound r. */
  ghost predicate Sat(d: real, r: Raw) {
    match r
    case Inf => true
    case Bound(value, weak) => if weak then d <= value as real else d < value as real
  }

  // ----- What the algebra means on differences of clocks -----

  lemma SatAdd(d: real, e: real, x: Raw, y: Raw)
    requires Sat(d, x) && Sat(e, y)
    ensures Sat(d + e, Add(x, y))
  {
  }

  lemma SatLe(d: real, x: Raw, y: Raw)
    requires Sat(d, x) && Le(x, y)
    ensures Sat(d, y)
  {
    if x.Bound? && y.Bound? && x.value < y.value {
      assert x.value as real < y.value as real;
    }
  }

  /** A bound at or below another is exactly one that every difference meeting it also meets. */
  lemma LeMeansImplied(x: Raw, y: Raw)
    ensures Le(x, y) <==> forall d: real :: Sat(d, x) ==> Sat(d, y)
  {
    if Le(x, y) {
      forall d: real | Sat(d, x) ensures Sat(d, y) {
        SatLe(d, x, y);
      }
    } else {
      var d := if x.Inf? then y.value as real + 1.0
               else if x.weak then x.value as real
               else (x.value as real + y.value as real) / 2.0;
      if x.Bound? && x.value > y.value {
        assert x.value as real > y.value as real;
      }
      assert Sat(d, x) && !Sat(d, y);
    }
  }

  /** Negation is complement: this is what makes subtraction and emptiness tests exact. */
  lemma NegComplements(d: real, c: Raw)
    requires c.Bound?
    ensures Sat(-d, Neg(c)) <==> !Sat(d, c)
  {
  }

  // ----- Algebra used by every closing argument -----

  lemma AddMonotone(x: Raw, x': Raw, y: Raw, y': Raw)
    requires Le(x, x') && Le(y, y')
    ensures Le(Add(x, y), Add(x', y'))
  {
  }

  // ----- The packed integers -----

  /** dbm_INFINITY = INT_MAX >> 1 */
  const INFINITY: int := 0x3fff_ffff
  const LS_INFINITY: int := 2 * INFINITY
  const LE_OVERFLOW: int := LS_INFINITY / 2

  /** raw & 1: Dafny's remainder is never negative, like the bit of a two's complement integer. */
  function RawBit(raw: int): int { raw % 2 }

  /** raw >> 1, an arithmetic shift: it rounds down, as Dafny's division by 2 does. */
  function RawBound(raw: int): int { raw / 2 }

  predicate IsValidRaw(x: int) {
    x == LS_INFINITY || (x < LE_OVERFLOW && -x < LE_OVERFLOW)
  }

  /** dbm_addRawRaw: (x + y) - ((x | y) & 1) on finite operands. */
  function AddRawRaw(x: int, y: int): int
    requires IsValidRaw(x) && IsValidRaw(y)
  {
    if x == LS_INFINITY || y == LS_INFINITY then LS_INFINITY
    else x + y - (if RawBit(x) == 1 || RawBit(y) == 1 then 1 else 0)
  }

  function Unpack(raw: int): Raw {
    if raw == LS_INFINITY then Inf else Bound(RawBound(raw), RawBit(raw) == 1)
  }

  function Pack(r: Raw): int {
    match r
    case Inf => LS_INFINITY
    case Bound(value, weak) => 2 * value + (if weak then 1 else 0)
  }

  /** dbm_raw2bound; infinity decodes to a number like any other. */
  function BoundOf(r: Raw): int {
    match r
    case Inf => INFINITY
    case Bound(value, _) => value
  }

  predicate InRange(r: Raw) {
    r.Bound? ==> -LE_OVERFLOW < Pack(r) < LE_OVERFLOW
  }

  /** On valid packed bounds, the packed order, sum and negation are those of `Raw`,
      a sum never leaves 32 bits and never turns into infinity, and nothing is lost by unpacking. */
  lemma PackedArithmeticIsExact(x: int, y: int)
    requires IsValidRaw(x) && IsValidRaw(y)
    ensures Pack(Unpack(x)) == x && InRange(Unpack(x))
    ensures x <= y <==> Le(Unpack(x), Unpack(y))
    ensures AddRawRaw(x, y) == Pack(Add(Unpack(x), Unpack(y)))
    ensures -0x8000_0000 <= AddRawRaw(x, y) <= LS_INFINITY
    ensures AddRawRaw(x, y) == LS_INFINITY <==> x == LS_INFINITY || y == LS_INFINITY
    ensures x != LS_INFINITY ==> Unpack(1 - x) == Neg(Unpack(x))
    ensures x != LS_INFINITY && y != LS_INFINITY && x + y - (if RawBit(x) == 1 && RawBit(y) == 1 then 1 else 0) < Pack(LE_ZERO)
      <==> WeaklyOpposed(Unpack(x), Unpack(y))
  {
  }

  /** Infinity decodes to a bound that is opposite to no valid bound, so the test for a zero cycle on
      decoded bounds needs no case for it. */
  lemma OppositeIsExact(x: int, y: int)
    requires IsValidRaw(x) && IsValidRaw(y)
    ensures RawBound(x) == -RawBound(y) <==> Opposite(Unpack(x), Unpack(y))
  {
  }

  lemma UnpackInvertsPack(r: Raw)
    requires InRange(r)
    ensures IsValidRaw(Pack(r)) && Unpack(Pack(r)) == r
  {
  }
}
