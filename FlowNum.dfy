/**
  The numeric vocabulary that the flow solvers are written against: the
  default methods of the `Flow` and `Cost` traits and their instances for the
  signed machine integers (i8 ... i128, isize).

  Values are mathematical integers; `InRange` describes the range of a signed
  machine integer of a given width so that the one operation that can leave
  it (`Abs` of the minimum value) is stated explicitly.
*/
module FlowNum {

  /** `Zero::zero` for every integer instance. */
  function Zero(): int { 0 }

  /** `One::one` for every integer instance. */
  function One(): int { 1 }

  /** `is_zero`: the value equals `zero()`. */
  predicate IsZero(x: int) { x == Zero() }

  /** `is_positive`: the value compares greater than `zero()`. */
  predicate IsPositive(x: int) { x > Zero() }

  /** `is_negative`: the value compares less than `zero()`. */
  predicate IsNegative(x: int) { x < Zero() }

  /** `Flow::abs`: negate a negative value, keep the others. */
  function Abs(x: int): (r: int)
    ensures r >= 0
    ensures r == x || r == -x
    ensures IsNegative(x) <==> r == -x && r != x
  {
    if IsNegative(x) then -x else x
  }

  /** Exactly one of the three sign tests holds for every value. */
  lemma SignTrichotomy(x: int)
    ensures IsZero(x) || IsPositive(x) || IsNegative(x)
    ensures !(IsZero(x) && IsPositive(x))
    ensures !(IsZero(x) && IsNegative(x))
    ensures !(IsPositive(x) && IsNegative(x))
  {
  }

  /** The instances of `implement!`: signed machine integers of these widths. */
  predicate IsInstanceWidth(bits: nat) {
    bits == 8 || bits == 16 || bits == 32 || bits == 64 || bits == 128
  }

  function Pow2(k: nat): (r: nat)
    ensures r >= 1
  {
    if k == 0 then 1 else 2 * Pow2(k - 1)
  }

  /** Smallest value of a `bits`-wide two's-complement integer. */
  function MinValue(bits: nat): int
    requires bits >= 1
  {
    0 - Pow2(bits - 1)
  }

  /** Largest value of a `bits`-wide two's-complement integer. */
  function MaxValue(bits: nat): int
    requires bits >= 1
  {
    Pow2(bits - 1) - 1
  }

  predicate InRange(bits: nat, x: int)
    requires bits >= 1
  {
    MinValue(bits) <= x <= MaxValue(bits)
  }

  /**
    For a value of a machine width, `abs` stays within that width exactly
    when the value is not the minimum of the width; `zero()` and `one()`
    always fit.
  */
  lemma AbsInRange(bits: nat, x: int)
    requires IsInstanceWidth(bits)
    requires InRange(bits, x)
    ensures InRange(bits, Abs(x)) <==> x != MinValue(bits)
    ensures InRange(bits, Zero()) && InRange(bits, One())
  {
    AbsInWideRange(bits, x);
  }

  lemma AbsInWideRange(bits: nat, x: int)
    requires bits >= 2
    requires InRange(bits, x)
    ensures InRange(bits, Abs(x)) <==> x != MinValue(bits)
    ensures InRange(bits, Zero()) && InRange(bits, One())
  {
    var h: nat := bits - 1;
    assert Pow2(h) == 2 * Pow2(h - 1);
  }
}
