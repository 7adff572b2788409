/** The snapshot `read_all` assembles from one read per quantity: the order
    of the reads, the fail-fast combination of their outcomes and the reads
    that combination issues. Everything here is stated over the per-quantity
    outcomes alone, whatever bus produced them. */
module Snapshot {
  import opened Words
  import opened Errors
  import opened Registers

  /** `BatteryState`: one value per quantity, in physical units except the
      cycle counter, which keeps its word. */
  datatype BatteryState = BatteryState(
    current: real,
    voltage: real,
    remainingCharge: real,
    capacity: real,
    cycleNumber: Word,
    cellVoltage1: real,
    cellVoltage2: real,
    cellVoltage3: real,
    cellVoltage4: real,
    cellTemp1: real,
    cellTemp2: real,
    cellTemp3: real,
    cellTemp4: real,
    heaterLevel: real)

  /** The field of a snapshot that holds quantity `q`. */
  function Field(s: BatteryState, q: RegAddr): real
  {
    match q
    case Current => s.current
    case Voltage => s.voltage
    case RemainingCharge => s.remainingCharge
    case Capacity => s.capacity
    case CycleNumber => s.cycleNumber as real
    case CellVoltage1 => s.cellVoltage1
    case CellVoltage2 => s.cellVoltage2
    case CellVoltage3 => s.cellVoltage3
    case CellVoltage4 => s.cellVoltage4
    case CellTemp1 => s.cellTemp1
    case CellTemp2 => s.cellTemp2
    case CellTemp3 => s.cellTemp3
    case CellTemp4 => s.cellTemp4
    case HeaterLevel => s.heaterLevel
  }

  /** The order in which `read_all` reads the quantities. */
  const ReadOrder: seq<RegAddr> := [
    RegAddr.Current, RegAddr.Voltage, RegAddr.RemainingCharge, RegAddr.Capacity,
    RegAddr.CellVoltage1, RegAddr.CellVoltage2, RegAddr.CellVoltage3, RegAddr.CellVoltage4,
    RegAddr.CycleNumber,
    RegAddr.CellTemp1, RegAddr.CellTemp2, RegAddr.CellTemp3, RegAddr.CellTemp4,
    RegAddr.HeaterLevel]

  /** Where `q` stands in `ReadOrder`: every quantity is read. */
  function Position(q: RegAddr): (i: nat)
    ensures i < |ReadOrder| && ReadOrder[i] == q
  {
    match q
    case Current => 0
    case Voltage => 1
    case RemainingCharge => 2
    case Capacity => 3
    case CellVoltage1 => 4
    case CellVoltage2 => 5
    case CellVoltage3 => 6
    case CellVoltage4 => 7
    case CycleNumber => 8
    case CellTemp1 => 9
    case CellTemp2 => 10
    case CellTemp3 => 11
    case CellTemp4 => 12
    case HeaterLevel => 13
  }

  /** No quantity is read twice. */
  lemma ReadOrderDistinct()
    ensures forall i, j :: 0 <= i < j < |ReadOrder| ==> ReadOrder[i] != ReadOrder[j]
  {
  }

  /** The entries of `ReadOrder`, one by one. */
  lemma ReadOrderValues()
    ensures |ReadOrder| == 14
    ensures ReadOrder[0] == RegAddr.Current && ReadOrder[1] == RegAddr.Voltage
    ensures ReadOrder[2] == RegAddr.RemainingCharge && ReadOrder[3] == RegAddr.Capacity
    ensures ReadOrder[4] == RegAddr.CellVoltage1 && ReadOrder[5] == RegAddr.CellVoltage2
    ensures ReadOrder[6] == RegAddr.CellVoltage3 && ReadOrder[7] == RegAddr.CellVoltage4
    ensures ReadOrder[8] == RegAddr.CycleNumber && ReadOrder[9] == RegAddr.CellTemp1
    ensures ReadOrder[10] == RegAddr.CellTemp2 && ReadOrder[11] == RegAddr.CellTemp3
    ensures ReadOrder[12] == RegAddr.CellTemp4 && ReadOrder[13] == RegAddr.HeaterLevel
  {
  }

  /** Whether the read of `q` succeeds, given the physical reading `read(q)`
      of every quantity but the counter and the counter word `cycles`. */
  predicate Succeeds(read: RegAddr -> Outcome<real>, cycles: Outcome<Word>, q: RegAddr)
  {
    if q == RegAddr.CycleNumber then cycles.Ok? else read(q).Ok?
  }

  /** The failure the read of `q` hands on when it does not succeed. */
  function FailureOf(read: RegAddr -> Outcome<real>, cycles: Outcome<Word>, q: RegAddr): (r: Outcome<BatteryState>)
    requires !Succeeds(read, cycles, q)
    ensures !r.Ok?
  {
    if q == RegAddr.CycleNumber then cycles.PropagateFailure() else read(q).PropagateFailure()
  }

  /** `read_all` over the reads' outcomes: every quantity in `ReadOrder`,
      stopping at the first read that does not succeed. An assembled
      snapshot holds each quantity's reading in the field named after it. */
  function Assemble(read: RegAddr -> Outcome<real>, cycles: Outcome<Word>): (r: Outcome<BatteryState>)
    ensures r.Ok? ==> cycles == Ok(r.value.cycleNumber)
    ensures r.Ok? ==> forall q :: q != RegAddr.CycleNumber ==> read(q) == Ok(Field(r.value, q))
  {
    var current :- read(RegAddr.Current);
    var voltage :- read(RegAddr.Voltage);
    var remainingCharge :- read(RegAddr.RemainingCharge);
    var capacity :- read(RegAddr.Capacity);
    var cellVoltage1 :- read(RegAddr.CellVoltage1);
    var cellVoltage2 :- read(RegAddr.CellVoltage2);
    var cellVoltage3 :- read(RegAddr.CellVoltage3);
    var cellVoltage4 :- read(RegAddr.CellVoltage4);
    var cycleNumber :- cycles;
    var cellTemp1 :- read(RegAddr.CellTemp1);
    var cellTemp2 :- read(RegAddr.CellTemp2);
    var cellTemp3 :- read(RegAddr.CellTemp3);
    var cellTemp4 :- read(RegAddr.CellTemp4);
    var heaterLevel :- read(RegAddr.HeaterLevel);
    Ok(BatteryState(current, voltage, remainingCharge, capacity, cycleNumber,
                    cellVoltage1, cellVoltage2, cellVoltage3, cellVoltage4,
                    cellTemp1, cellTemp2, cellTemp3, cellTemp4, heaterLevel))
  }

  /** The position in `qs` of the first read that does not succeed, or `|qs|`
      when every read succeeds. */
  function FirstFailure(read: RegAddr -> Outcome<real>, cycles: Outcome<Word>, qs: seq<RegAddr>): (k: nat)
    ensures k <= |qs|
    ensures forall j :: 0 <= j < k ==> Succeeds(read, cycles, qs[j])
    ensures k < |qs| ==> !Succeeds(read, cycles, qs[k])
  {
    if qs == [] || !Succeeds(read, cycles, qs[0]) then 0
    else 1 + FirstFailure(read, cycles, qs[1..])
  }

  /** How many reads `read_all` issues: up to and including the first that
      fails, or all of them. */
  function IssuedCount(read: RegAddr -> Outcome<real>, cycles: Outcome<Word>): (n: nat)
    ensures 1 <= n <= |ReadOrder|
  {
    var k := FirstFailure(read, cycles, ReadOrder);
    if k < |ReadOrder| then k + 1 else |ReadOrder|
  }

  /** The quantities `read_all` requests, in order: every one up to and
      including the first whose read does not succeed. */
  function IssuedReads(read: RegAddr -> Outcome<real>, cycles: Outcome<Word>): (qs: seq<RegAddr>)
    ensures 1 <= |qs| <= 14
    ensures |qs| < 14 ==> !Succeeds(read, cycles, qs[|qs| - 1])
  {
    var throughCurrent := [RegAddr.Current];
    if !Succeeds(read, cycles, RegAddr.Current) then throughCurrent else
    var throughVoltage := throughCurrent + [RegAddr.Voltage];
    if !Succeeds(read, cycles, RegAddr.Voltage) then throughVoltage else
    var throughRemainingCharge := throughVoltage + [RegAddr.RemainingCharge];
    if !Succeeds(read, cycles, RegAddr.RemainingCharge) then throughRemainingCharge else
    var throughCapacity := throughRemainingCharge + [RegAddr.Capacity];
    if !Succeeds(read, cycles, RegAddr.Capacity) then throughCapacity else
    var throughCellVoltage1 := throughCapacity + [RegAddr.CellVoltage1];
    if !Succeeds(read, cycles, RegAddr.CellVoltage1) then throughCellVoltage1 else
    var throughCellVoltage2 := throughCellVoltage1 + [RegAddr.CellVoltage2];
    if !Succeeds(read, cycles, RegAddr.CellVoltage2) then throughCellVoltage2 else
    var throughCellVoltage3 := throughCellVoltage2 + [RegAddr.CellVoltage3];
    if !Succeeds(read, cycles, RegAddr.CellVoltage3) then throughCellVoltage3 else
    var throughCellVoltage4 := throughCellVoltage3 + [RegAddr.CellVoltage4];
    if !Succeeds(read, cycles, RegAddr.CellVoltage4) then throughCellVoltage4 else
    var throughCycleNumber := throughCellVoltage4 + [RegAddr.CycleNumber];
    if !Succeeds(read, cycles, RegAddr.CycleNumber) then throughCycleNumber else
    var throughCellTemp1 := throughCycleNumber + [RegAddr.CellTemp1];
    if !Succeeds(read, cycles, RegAddr.CellTemp1) then throughCellTemp1 else
    var throughCellTemp2 := throughCellTemp1 + [RegAddr.CellTemp2];
    if !Succeeds(read, cycles, RegAddr.CellTemp2) then throughCellTemp2 else
    var throughCellTemp3 := throughCellTemp2 + [RegAddr.CellTemp3];
    if !Succeeds(read, cycles, RegAddr.CellTemp3) then throughCellTemp3 else
    var throughCellTemp4 := throughCellTemp3 + [RegAddr.CellTemp4];
    if !Succeeds(read, cycles, RegAddr.CellTemp4) then throughCellTemp4 else
    var throughHeaterLevel := throughCellTemp4 + [RegAddr.HeaterLevel];
    throughHeaterLevel
  }

  /** A prefix of `qs` one longer is the shorter prefix and the next element. */
  lemma PrefixSnoc(qs: seq<RegAddr>, i: nat)
    requires i < |qs|
    ensures qs[..i + 1] == qs[..i] + [qs[i]]
  {
  }

  /** The reads issued when the reads before position `k` of `ReadOrder`
      succeed and the one at `k`, if any, does not: `ReadOrder` up to and
      including position `k`. */
  lemma IssuedReadsAt(read: RegAddr -> Outcome<real>, cycles: Outcome<Word>, k: nat)
    requires k <= |ReadOrder|
    requires forall j :: 0 <= j < k ==> Succeeds(read, cycles, ReadOrder[j])
    requires k < |ReadOrder| ==> !Succeeds(read, cycles, ReadOrder[k])
    ensures IssuedReads(read, cycles) == ReadOrder[..if k < |ReadOrder| then k + 1 else k]
  {
    ReadOrderValues();
    assert ReadOrder[..1] == [RegAddr.Current];
    PrefixSnoc(ReadOrder, 1);
    PrefixSnoc(ReadOrder, 2);
    PrefixSnoc(ReadOrder, 3);
    PrefixSnoc(ReadOrder, 4);
    PrefixSnoc(ReadOrder, 5);
    PrefixSnoc(ReadOrder, 6);
    PrefixSnoc(ReadOrder, 7);
    PrefixSnoc(ReadOrder, 8);
    PrefixSnoc(ReadOrder, 9);
    PrefixSnoc(ReadOrder, 10);
    PrefixSnoc(ReadOrder, 11);
    PrefixSnoc(ReadOrder, 12);
    PrefixSnoc(ReadOrder, 13);
    assert ReadOrder[..14] == ReadOrder;
  }

  /** The reads issued are `ReadOrder` cut just after its first failing read. */
  lemma IssuedReadsUpToFirstFailure(read: RegAddr -> Outcome<real>, cycles: Outcome<Word>)
    ensures IssuedReads(read, cycles) == ReadOrder[..IssuedCount(read, cycles)]
  {
    IssuedReadsAt(read, cycles, FirstFailure(read, cycles, ReadOrder));
  }

  /** The outcome of the snapshot when the reads before position `k` of
      `ReadOrder` succeed and the one at `k`, if any, does not. */
  lemma AssembleAt(read: RegAddr -> Outcome<real>, cycles: Outcome<Word>, k: nat)
    requires k <= |ReadOrder|
    requires forall j :: 0 <= j < k ==> Succeeds(read, cycles, ReadOrder[j])
    requires k < |ReadOrder| ==> !Succeeds(read, cycles, ReadOrder[k])
    ensures Assemble(read, cycles).Ok? <==> k == |ReadOrder|
    ensures k < |ReadOrder| ==> Assemble(read, cycles) == FailureOf(read, cycles, ReadOrder[k])
  {
    ReadOrderValues();
  }

  /** The snapshot is assembled exactly when every read succeeds, and then
      each field holds its quantity's reading; otherwise it is the failure of
      the first read that did not succeed. */
  lemma AssembleFailFast(read: RegAddr -> Outcome<real>, cycles: Outcome<Word>)
    ensures Assemble(read, cycles).Ok? <==> FirstFailure(read, cycles, ReadOrder) == |ReadOrder|
    ensures FirstFailure(read, cycles, ReadOrder) < |ReadOrder| ==>
              Assemble(read, cycles) ==
              FailureOf(read, cycles, ReadOrder[FirstFailure(read, cycles, ReadOrder)])
    ensures Assemble(read, cycles).Ok? ==>
              && cycles == Ok(Assemble(read, cycles).value.cycleNumber)
              && forall q :: q != RegAddr.CycleNumber ==> read(q) == Ok(Field(Assemble(read, cycles).value, q))
  {
    AssembleAt(read, cycles, FirstFailure(read, cycles, ReadOrder));
  }
}
