/** The battery's fixed holding-register map: where each quantity lives, how
    many words it spans, how its words are laid out and the scale that turns
    the raw integer into physical units. */
module Registers {
  import opened Words

  /** One named quantity of the battery (`RegAddr`). */
  datatype RegAddr =
    | Current | Voltage | RemainingCharge | Capacity | CycleNumber
    | CellVoltage1 | CellVoltage2 | CellVoltage3 | CellVoltage4
    | CellTemp1 | CellTemp2 | CellTemp3 | CellTemp4
    | HeaterLevel

  /** How the words of a quantity make up its raw integer. */
  datatype Layout =
    | Unsigned16        // one word, unsigned
    | Signed16          // one word, two's complement
    | SwappedSigned16   // one word, bytes swapped, two's complement
    | Unsigned32        // two words, first one the high half

  /** The starting register address of a quantity (its `RegAddr`
      discriminant). Every register the battery is read from lies in the
      block 0x1389-0x13ef. */
  function Address(q: RegAddr): (a: Word)
    ensures 0x1389 <= a && a + WordCount(q) <= 0x13f0
  {
    match q
    case Current => 0x13b2
    case Voltage => 0x13b3
    case RemainingCharge => 0x13b4
    case Capacity => 0x13b6
    case CycleNumber => 0x13b8
    case CellVoltage1 => 0x1389
    case CellVoltage2 => 0x138a
    case CellVoltage3 => 0x138b
    case CellVoltage4 => 0x138c
    case CellTemp1 => 0x139a
    case CellTemp2 => 0x139b
    case CellTemp3 => 0x139c
    case CellTemp4 => 0x139d
    case HeaterLevel => 0x13ef
  }

  /** The decoder an accessor applies: `current` alone is byte-swapped,
      the two charge quantities alone span two words, and the cell
      temperatures alone are plain signed words. */
  function LayoutOf(q: RegAddr): (l: Layout)
    ensures l.SwappedSigned16? <==> q == Current
    ensures l.Unsigned32? <==> q == RemainingCharge || q == Capacity
    ensures l.Signed16? <==> q.CellTemp1? || q.CellTemp2? || q.CellTemp3? || q.CellTemp4?
  {
    match q
    case Current => SwappedSigned16
    case RemainingCharge | Capacity => Unsigned32
    case CellTemp1 | CellTemp2 | CellTemp3 | CellTemp4 => Signed16
    case _ => Unsigned16
  }

  /** How many consecutive registers a layout occupies. */
  function Width(l: Layout): Word
  {
    if l == Unsigned32 then 2 else 1
  }

  function WordCount(q: RegAddr): Word
  {
    Width(LayoutOf(q))
  }

  /** The multiplier from the raw integer to physical units: amperes,
      volts, ampere-hours, degrees Celsius, percent; 1 for the cycle counter.
      Every scale is positive and at most 1, so scaling keeps the raw
      value's sign and never enlarges it. */
  function Scale(q: RegAddr): (s: real)
    ensures 0.0 < s <= 1.0
  {
    match q
    case Current => 0.01
    case Voltage => 0.1
    case RemainingCharge | Capacity => 0.001
    case CycleNumber => 1.0
    case CellVoltage1 | CellVoltage2 | CellVoltage3 | CellVoltage4 => 0.1
    case CellTemp1 | CellTemp2 | CellTemp3 | CellTemp4 => 0.1
    case HeaterLevel => 0.3922
  }

  /** The raw integers a layout can produce. */
  predicate InRange(l: Layout, v: int)
  {
    match l
    case Unsigned16 => 0 <= v < 0x1_0000
    case Signed16 | SwappedSigned16 => -0x8000 <= v < 0x8000
    case Unsigned32 => 0 <= v < 0x1_0000_0000
  }

  /** The register addresses a read of `q` covers. */
  function Footprint(q: RegAddr): (f: set<int>)
    ensures Address(q) in f
    ensures |f| == WordCount(q)
  {
    if WordCount(q) == 1 then {Address(q)} else {Address(q), Address(q) + 1}
  }

  /** Distinct quantities live at distinct addresses. */
  lemma AddressInjective(p: RegAddr, q: RegAddr)
    requires p != q
    ensures Address(p) != Address(q)
  {
  }

  /** No two quantities share a register: in particular the two-word reads
      at 0x13b4 and 0x13b6 cover 0x13b4-0x13b5 and 0x13b6-0x13b7, which no
      other quantity touches. */
  lemma FootprintsDisjoint(p: RegAddr, q: RegAddr)
    requires p != q
    ensures Footprint(p) !! Footprint(q)
  {
  }

  /** Every read stays within the 16-bit register address space. */
  lemma FootprintInAddressSpace(q: RegAddr)
    ensures forall a :: a in Footprint(q) ==> 0 <= a < 0x1_0000
  {
  }
}
