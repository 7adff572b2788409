/** Fixed-width integers of the register layer and the bit-level conversions
    the decoders apply to raw holding-register words. */
module Words {

  /** A Modbus slave address (`u8`). */
  type U8 = x: int | 0 <= x < 0x100

  /** One 16-bit holding register as it comes off the wire (`u16`). */
  type Word = x: int | 0 <= x < 0x1_0000

  /** A 16-bit two's-complement value (`i16`). */
  type I16 = x: int | -0x8000 <= x < 0x8000

  /** A 32-bit unsigned value (`u32`). */
  type U32 = x: int | 0 <= x < 0x1_0000_0000

  /** `w as i16`: the same sixteen bits read as two's complement. */
  function ToSigned16(w: Word): (x: I16)
    ensures x % 0x1_0000 == w
    ensures x < 0 <==> w >= 0x8000
  {
    if w < 0x8000 then w else w - 0x1_0000
  }

  /** `x as u16`: the sixteen bits of a signed value read back as unsigned. */
  function ToUnsigned16(x: I16): (w: Word)
    ensures ToSigned16(w) == x
  {
    x % 0x1_0000
  }

  /** Reading a word as signed and back as unsigned gives the word again. */
  lemma UnsignedOfSigned(w: Word)
    ensures ToUnsigned16(ToSigned16(w)) == w
  {
  }

  /** Two signed values with the same bit pattern are equal. */
  lemma ToUnsigned16Injective(x: I16, y: I16)
    requires ToUnsigned16(x) == ToUnsigned16(y)
    ensures x == y
  {
    assert ToSigned16(ToUnsigned16(x)) == x;
  }

  /** `u16::swap_bytes`: the high byte becomes the low byte and vice versa. */
  function SwapBytes16(w: Word): (r: Word)
    ensures r / 0x100 == w % 0x100
    ensures r % 0x100 == w / 0x100
  {
    (w % 0x100) * 0x100 + w / 0x100
  }

  /** Swapping the bytes twice gives the word back. */
  lemma SwapBytes16Involutive(w: Word)
    ensures SwapBytes16(SwapBytes16(w)) == w
  {
    var r := SwapBytes16(w);
    var s := SwapBytes16(r);
    assert s == (r % 0x100) * 0x100 + r / 0x100;
    assert w == (w / 0x100) * 0x100 + w % 0x100;
  }

  /** `i16::swap_bytes`: swaps the two bytes of the value's bit pattern. */
  function SwapBytesI16(x: I16): (r: I16)
    ensures ToUnsigned16(r) == SwapBytes16(ToUnsigned16(x))
  {
    UnsignedOfSigned(SwapBytes16(ToUnsigned16(x)));
    ToSigned16(SwapBytes16(ToUnsigned16(x)))
  }

  /** Swapping the bytes of a signed value twice gives the value back. */
  lemma SwapBytesI16Involutive(x: I16)
    ensures SwapBytesI16(SwapBytesI16(x)) == x
  {
    SwapBytes16Involutive(ToUnsigned16(x));
    ToUnsigned16Injective(SwapBytesI16(SwapBytesI16(x)), x);
  }

  /** Reading a word as `i16` and then swapping its bytes is the same as
      swapping the bytes of the word first and reading the result as `i16`. */
  lemma SwapAfterSignedIsSignedAfterSwap(w: Word)
    ensures SwapBytesI16(ToSigned16(w)) == ToSigned16(SwapBytes16(w))
  {
    UnsignedOfSigned(w);
    UnsignedOfSigned(SwapBytes16(w));
    ToUnsigned16Injective(SwapBytesI16(ToSigned16(w)), ToSigned16(SwapBytes16(w)));
  }

  /** `low as u32 + ((high as u32) << 16)`: two words joined into one 32-bit
      value, `high` supplying the upper sixteen bits. */
  function CombineU32(high: Word, low: Word): (v: U32)
    ensures v / 0x1_0000 == high
    ensures v % 0x1_0000 == low
  {
    low + high * 0x1_0000
  }

  /** The two words of a 32-bit value, high half first. */
  function SplitU32(v: U32): (halves: (Word, Word))
    ensures CombineU32(halves.0, halves.1) == v
  {
    (v / 0x1_0000, v % 0x1_0000)
  }

  /** Splitting a combined value gives back the two words in their order. */
  lemma SplitCombine(high: Word, low: Word)
    ensures SplitU32(CombineU32(high, low)) == (high, low)
  {
  }

  /** Joining is one-to-one: different word pairs give different values. */
  lemma CombineU32Injective(h1: Word, l1: Word, h2: Word, l2: Word)
    requires CombineU32(h1, l1) == CombineU32(h2, l2)
    ensures h1 == h2 && l1 == l2
  {
  }
}
