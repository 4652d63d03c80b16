/** Fixed-width unsigned integers of the ESP32 target, written out over
    Dafny's unbounded `int`: `uint8_t`, the 32-bit `unsigned long`
    returned by `millis()` and the 32-bit signed `int`. */
module Words {

  const TWO_POW_8: int := 0x100
  const TWO_POW_32: int := 0x1_0000_0000

  type U8 = x: int | 0 <= x < TWO_POW_8
  type U32 = x: int | 0 <= x < TWO_POW_32

  /** The 32-bit signed `int` of the target. */
  type I32 = x: int | -0x8000_0000 <= x < 0x8000_0000

  /** Conversion of any integer into a `uint8_t` (keeps the low 8 bits). */
  function Wrap8(x: int): (r: U8)
    ensures 0 <= x < TWO_POW_8 ==> r == x
    ensures x == -1 ==> r == TWO_POW_8 - 1
  {
    x % TWO_POW_8
  }

  /** Conversion of any integer into an `unsigned long` (keeps the low 32 bits). */
  function Wrap32(x: int): (r: U32)
    ensures 0 <= x < TWO_POW_32 ==> r == x
    ensures x == TWO_POW_32 ==> r == 0
  {
    x % TWO_POW_32
  }

  /** Wrapping once at the end is the same as wrapping along the way. */
  lemma Wrap32Add(x: int, n: int)
    ensures Wrap32(Wrap32(x) + n) == Wrap32(x + n)
  {
    var q := x / TWO_POW_32;
    assert x == q * TWO_POW_32 + Wrap32(x);
    assert x + n == q * TWO_POW_32 + (Wrap32(x) + n);
  }

  /** `a - b` on two `unsigned long` values: the distance travelled from `b`
      forward to `a` on the 32-bit clock face. */
  function Sub32(a: U32, b: U32): (r: U32)
    ensures b <= a ==> r == a - b
    ensures a < b ==> r == a - b + TWO_POW_32
  {
    if b <= a then a - b else a - b + TWO_POW_32
  }

  /** Whatever the start reading, a clock that advanced by fewer than 2^32
      ticks shows exactly that advance through `Sub32`: elapsed time is
      measured correctly across the 49-day wrap of `millis()`. */
  lemma ElapsedAcrossWrap(start: U32, advance: nat)
    requires advance < TWO_POW_32
    ensures Sub32(Wrap32(start + advance), start) == advance
  {
    if start + advance >= TWO_POW_32 {
      assert Wrap32(start + advance) == start + advance - TWO_POW_32;
    }
  }
}
