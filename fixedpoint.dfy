/**
 * The choice of `shift_size`, the number of fraction bits of the span
 * stepping fixed-point values (`shift20_t`), made when the video context
 * is created: fewer fraction bits on screens 2048 pixels wide or more when
 * `shift20_t` is a 32-bit type.
 */
module FixedPoint {
  import opened Common

  const INT32_LIMIT: nat := 0x8000_0000

  /** `shift_size` for a screen `width` wide and a `shift20_t` of `shiftBytes` bytes. */
  function ShiftSize(width: nat, shiftBytes: nat): (r: nat)
  {
    if width >= 2048 && shiftBytes == 4 then 18 else 20
  }

  /** A screen coordinate `x` with `shift` fraction bits. */
  function Fixed(x: nat, shift: nat): nat
  {
    x * Pow2(shift)
  }

  lemma Pow2Values()
    ensures Pow2(18) == 0x4_0000 && Pow2(20) == 0x10_0000
  {
    assert Pow2(10) == 0x400;
    assert Pow2(18) == 0x100 * Pow2(10);
    assert Pow2(20) == 0x400 * Pow2(10);
  }

  /**
   * With a 32-bit `shift20_t`, `shift_size` keeps the most fraction bits
   * that still hold the last column of the screen in a signed 32-bit value:
   * 20 exactly when they fit, on every width but 2048, where 20 bits would
   * just fit and the source takes 18.
   */
  lemma MostFractionBitsThatFit(width: nat)
    requires 0 < width && width != 2048
    ensures ShiftSize(width, 4) == 20 <==> Fixed(width - 1, 20) < INT32_LIMIT
    ensures ShiftSize(width, 4) == 18 ==> width > 2048
  {
    Pow2Values();
    if width > 2048 {
      TwentyBitsOverflowWide(width);
    }
  }

  /** At a width of exactly 2048 the source gives up two bits that would have fit. */
  lemma ConservativeAt2048()
    ensures ShiftSize(2048, 4) == 18 && Fixed(2047, 20) < INT32_LIMIT
  {
    Pow2Values();
  }

  /**
   * With a 32-bit `shift20_t`, every coordinate of a screen up to 8192
   * pixels wide fits a signed 32-bit value with `shift_size` fraction bits.
   */
  lemma CoordinatesFit32(width: nat, x: nat)
    requires width <= 8192 && x < width
    ensures Fixed(x, ShiftSize(width, 4)) < INT32_LIMIT
  {
    Pow2Values();
  }

  /** With a 64-bit `shift20_t`, 20 fraction bits leave the whole range of screen widths below 2^43. */
  lemma CoordinatesFit64(width: nat, x: nat)
    requires width <= 0x800_0000_0000 && x < width
    ensures Fixed(x, ShiftSize(width, 8)) < 0x8000_0000_0000_0000
  {
    Pow2Values();
  }

  /** On a screen wider than 2048 pixels, 20 fraction bits would overflow a signed 32-bit value at the last column. */
  lemma TwentyBitsOverflowWide(width: nat)
    requires width > 2048
    ensures Fixed(width - 1, 20) >= INT32_LIMIT
  {
    Pow2Values();
  }
}
