/** The raw decoders `read_u16`, `read_i16` and `read_u32`, applied to what
    a register read returned, and the table-driven raw value of a quantity. */
module Decode {
  import opened Words
  import opened Errors
  import opened Registers

  /** `r` is what a decoder expecting `n` words makes of `res`: a value
      exactly when `n` words came back, the read's own error when it failed,
      and a panic (the length `assert!`) otherwise. */
  predicate DecodedFrom<T>(res: Outcome<seq<Word>>, n: nat, r: Outcome<T>)
  {
    && (r.Ok? <==> res.Ok? && |res.value| == n)
    && (r.Err? <==> res.Err?)
    && (r.Err? ==> r.error == res.error)
  }

  /** `read_u16`: the single word returned, unchanged. */
  function U16Of(res: Outcome<seq<Word>>): (r: Outcome<Word>)
    ensures DecodedFrom(res, 1, r)
    ensures r.Ok? ==> r.value == res.value[0]
  {
    match res
    case Ok(words) => if |words| == 1 then Ok(words[0]) else Panic
    case Err(e) => Err(e)
    case Panic => Panic
  }

  /** `read_i16`: the single word returned, read as two's complement. */
  function I16Of(res: Outcome<seq<Word>>): (r: Outcome<I16>)
    ensures DecodedFrom(res, 1, r)
    ensures r.Ok? ==> r.value % 0x1_0000 == res.value[0]
    ensures r.Ok? ==> (r.value < 0 <==> res.value[0] >= 0x8000)
  {
    match res
    case Ok(words) => if |words| == 1 then Ok(ToSigned16(words[0])) else Panic
    case Err(e) => Err(e)
    case Panic => Panic
  }

  /** `read_u32`: the two words returned, the first one on the wire
      supplying the high sixteen bits and the second the low sixteen. */
  function U32Of(res: Outcome<seq<Word>>): (r: Outcome<U32>)
    ensures DecodedFrom(res, 2, r)
    ensures r.Ok? ==> r.value / 0x1_0000 == res.value[0]
    ensures r.Ok? ==> r.value % 0x1_0000 == res.value[1]
  {
    match res
    case Ok(words) => if |words| == 2 then Ok(CombineU32(words[0], words[1])) else Panic
    case Err(e) => Err(e)
    case Panic => Panic
  }

  /** The raw integer of quantity `q` from what its register read returned,
      as the register table lays it out. */
  function RawValue(q: RegAddr, res: Outcome<seq<Word>>): (r: Outcome<int>)
    ensures DecodedFrom(res, WordCount(q), r)
    ensures r.Ok? ==> InRange(LayoutOf(q), r.value)
  {
    match LayoutOf(q)
    case Unsigned16 => U16Of(res)
    case Signed16 => I16Of(res)
    case Unsigned32 => U32Of(res)
    case SwappedSigned16 =>
      match I16Of(res)
      case Ok(x) => Ok(SwapBytesI16(x))
      case Err(e) => Err(e)
      case Panic => Panic
  }

  /** The raw value scaled into the quantity's physical unit. */
  function Physical(q: RegAddr, raw: Outcome<int>): (r: Outcome<real>)
    ensures r.Ok? <==> raw.Ok?
    ensures r.Err? <==> raw.Err?
    ensures r.Err? ==> r.error == raw.error
  {
    match raw
    case Ok(v) => Ok(v as real * Scale(q))
    case Err(e) => Err(e)
    case Panic => Panic
  }

  /** A single-word unsigned quantity reads word `w` as `w` itself. */
  lemma UnsignedReading(q: RegAddr, w: Word)
    requires LayoutOf(q) == Unsigned16
    ensures RawValue(q, Ok([w])) == Ok(w)
  {
  }

  /** A single-word signed quantity reads word `w` as `w` below 0x8000 and
      as `w - 65536` from there on. */
  lemma SignedReading(q: RegAddr, w: Word)
    requires LayoutOf(q) == Signed16
    ensures RawValue(q, Ok([w])) == Ok(if w < 0x8000 then w else w - 0x1_0000)
  {
  }

  /** The current register decodes as if its bytes were swapped before
      being read as a signed word. */
  lemma CurrentReading(w: Word)
    ensures RawValue(Current, Ok([w])) == Ok(ToSigned16(SwapBytes16(w)))
  {
    SwapAfterSignedIsSignedAfterSwap(w);
  }

  /** A two-word quantity reads words `[hi, lo]` as `hi * 65536 + lo`, and
      splitting that value gives the two words back in wire order. */
  lemma TwoWordReading(q: RegAddr, hi: Word, lo: Word)
    requires LayoutOf(q) == Unsigned32
    ensures RawValue(q, Ok([hi, lo])) == Ok(hi * 0x1_0000 + lo)
    ensures SplitU32(RawValue(q, Ok([hi, lo])).value) == (hi, lo)
  {
    SplitCombine(hi, lo);
  }

  /** Worked values: 0xFFFF in a cell-temperature register is -0.1 degrees;
      0x6400 in the current register is 1.00 A; the words [0x0000, 0x2710]
      of remaining charge are 10.0 Ah, while [0x2710, 0x0000] are 655360.0 Ah. */
  lemma WorkedValues()
    ensures Physical(CellTemp1, RawValue(CellTemp1, Ok([0xFFFF]))) == Ok(-0.1)
    ensures Physical(Current, RawValue(Current, Ok([0x6400]))) == Ok(1.0)
    ensures Physical(RemainingCharge, RawValue(RemainingCharge, Ok([0x0000, 0x2710]))) == Ok(10.0)
    ensures Physical(RemainingCharge, RawValue(RemainingCharge, Ok([0x2710, 0x0000]))) == Ok(655360.0)
  {
    CurrentReading(0x6400);
    assert SwapBytes16(0x6400) == 0x0064;
  }
}
