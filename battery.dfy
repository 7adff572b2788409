/** A battery on the shared bus: its register reads, the per-quantity
    accessors and the fail-fast snapshot of every quantity. */
module Renogy {
  import opened Words
  import opened Errors
  import opened Registers
  import opened Bus
  import opened Decode
  import opened Snapshot

  /** What `read_register` makes of a transport reply: the words unchanged,
      `Timeout` when the deadline passed first, and `Io` with the platform's
      kind when the transport failed. It never panics. */
  function RegisterResult(reply: Reply): (r: Outcome<seq<Word>>)
    ensures r.Ok? <==> reply.Answered?
    ensures r.Ok? ==> r.value == reply.words
    ensures r == Err(Timeout) <==> reply.TimedOut?
    ensures reply.Failed? ==> r == Err(Error.Io(reply.kind))
    ensures !r.Panic?
  {
    match reply
    case Answered(words) => Ok(words)
    case TimedOut => Err(Timeout)
    case Failed(kind) => Err(Error.Io(kind))
  }

  /** The raw value of `q` that battery `slave` reports over `dev`: one
      request for the quantity's word count at its address. It is a value
      exactly when that many words came back, `Timeout` exactly when the
      request timed out, and the transport's `Io` kind when it failed. */
  function Fetch(dev: Transport, slave: U8, q: RegAddr): (r: Outcome<int>)
    ensures var reply := dev(slave, Address(q), WordCount(q));
            && (r.Ok? <==> reply.Answered? && |reply.words| == WordCount(q))
            && (r == Err(Timeout) <==> reply.TimedOut?)
            && (reply.Failed? ==> r == Err(Error.Io(reply.kind)))
            && (r.Ok? ==> InRange(LayoutOf(q), r.value))
  {
    RawValue(q, RegisterResult(dev(slave, Address(q), WordCount(q))))
  }

  /** The physical value of `q` that battery `slave` reports over `dev`:
      the raw value times the quantity's scale, or the raw read's failure. */
  function Reading(dev: Transport, slave: U8, q: RegAddr): (r: Outcome<real>)
    ensures r.Ok? <==> Fetch(dev, slave, q).Ok?
    ensures r.Ok? ==> r.value == Fetch(dev, slave, q).value as real * Scale(q)
    ensures !r.Ok? ==> r == Fetch(dev, slave, q).PropagateFailure()
  {
    Physical(q, Fetch(dev, slave, q))
  }

  /** The physical reading of every quantity of battery `slave`. */
  function Readings(dev: Transport, slave: U8): RegAddr -> Outcome<real>
  {
    q => Reading(dev, slave, q)
  }

  /** The cycle counter of battery `slave`, as its word. */
  function Cycles(dev: Transport, slave: U8): (r: Outcome<Word>)
    ensures r == Fetch(dev, slave, RegAddr.CycleNumber)
  {
    U16Of(RegisterResult(dev(slave, Address(RegAddr.CycleNumber), 1)))
  }

  /** `read_all` of battery `slave` over `dev`: the fail-fast snapshot of
      every quantity's reading. Its cycle number is the counter's word as
      read, unscaled. */
  function ReadAllSpec(dev: Transport, slave: U8): (r: Outcome<BatteryState>)
    ensures r.Ok? ==> Fetch(dev, slave, RegAddr.CycleNumber) == Ok(r.value.cycleNumber as int)
  {
    Assemble(Readings(dev, slave), Cycles(dev, slave))
  }

  /** The read of `q` in `read_all` succeeds exactly when its registers come
      back and decode, and hands on the failure its register read reported. */
  lemma SucceedsIffFetched(dev: Transport, slave: U8, q: RegAddr)
    ensures Succeeds(Readings(dev, slave), Cycles(dev, slave), q) <==> Fetch(dev, slave, q).Ok?
    ensures !Fetch(dev, slave, q).Ok? ==>
              FailureOf(Readings(dev, slave), Cycles(dev, slave), q) == Fetch(dev, slave, q).PropagateFailure()
  {
    var f := Fetch(dev, slave, q);
    if q != RegAddr.CycleNumber {
      assert Readings(dev, slave)(q) == Physical(q, f);
    }
  }

  /** `read_all` succeeds exactly when every quantity's read succeeds. */
  lemma ReadAllOkIffAllFetched(dev: Transport, slave: U8)
    ensures ReadAllSpec(dev, slave).Ok? <==> forall q :: Fetch(dev, slave, q).Ok?
  {
    var read, cycles := Readings(dev, slave), Cycles(dev, slave);
    AssembleAt(read, cycles, FirstFailure(read, cycles, ReadOrder));
    if FirstFailure(read, cycles, ReadOrder) < |ReadOrder| {
      SucceedsIffFetched(dev, slave, ReadOrder[FirstFailure(read, cycles, ReadOrder)]);
    } else {
      forall q
        ensures Fetch(dev, slave, q).Ok?
      {
        SucceedsIffFetched(dev, slave, q);
        assert ReadOrder[Position(q)] == q;
      }
    }
  }

  /** A snapshot `read_all` returns holds each quantity's reading in its field. */
  lemma ReadAllFields(dev: Transport, slave: U8)
    requires ReadAllSpec(dev, slave).Ok?
    ensures forall q :: Reading(dev, slave, q) == Ok(Field(ReadAllSpec(dev, slave).value, q))
  {
    var read, cycles := Readings(dev, slave), Cycles(dev, slave);
    var s := Assemble(read, cycles).value;
    forall q
      ensures Reading(dev, slave, q) == Ok(Field(s, q))
    {
      if q != RegAddr.CycleNumber {
        assert read(q) == Reading(dev, slave, q);
      } else {
        assert Fetch(dev, slave, q) == Ok(s.cycleNumber as int);
      }
    }
  }

  /** When `read_all` fails, the reads before the first failing one in
      `ReadOrder` succeeded, and it fails as that one failed. */
  lemma ReadAllFirstFailure(dev: Transport, slave: U8)
    ensures var k := FirstFailure(Readings(dev, slave), Cycles(dev, slave), ReadOrder);
            k < |ReadOrder| ==>
              && (forall j :: 0 <= j < k ==> Fetch(dev, slave, ReadOrder[j]).Ok?)
              && !Fetch(dev, slave, ReadOrder[k]).Ok?
              && ReadAllSpec(dev, slave) == Fetch(dev, slave, ReadOrder[k]).PropagateFailure()
  {
    var read, cycles := Readings(dev, slave), Cycles(dev, slave);
    var k := FirstFailure(read, cycles, ReadOrder);
    if k < |ReadOrder| {
      AssembleAt(read, cycles, k);
      SucceedsIffFetched(dev, slave, ReadOrder[k]);
      forall j | 0 <= j < k
        ensures Fetch(dev, slave, ReadOrder[j]).Ok?
      {
        SucceedsIffFetched(dev, slave, ReadOrder[j]);
      }
    }
  }

  /** The bus steps of reading `qs` from battery `slave`: for each quantity,
      select the slave, then request its registers. */
  function Trace(slave: U8, qs: seq<RegAddr>): (t: seq<BusOp>)
    ensures |t| == 2 * |qs|
  {
    if qs == [] then []
    else [BusOp.SetSlave(slave), ReadHolding(slave, Address(qs[0]), WordCount(qs[0]))]
         + Trace(slave, qs[1..])
  }

  /** The `i`-th read of a trace selects the slave, then requests the
      registers of `qs[i]` from it. */
  lemma {:induction false} TraceAt(slave: U8, qs: seq<RegAddr>, i: nat)
    requires i < |qs|
    ensures Trace(slave, qs)[2 * i] == BusOp.SetSlave(slave)
    ensures Trace(slave, qs)[2 * i + 1] == ReadHolding(slave, Address(qs[i]), WordCount(qs[i]))
  {
    if i > 0 {
      TraceAt(slave, qs[1..], i - 1);
    }
  }

  /** In a trace every request goes to the battery's own slave address,
      and the step just before it selected that address. */
  lemma TraceAddressed(slave: U8, qs: seq<RegAddr>)
    ensures EachReadAddressedTo(Trace(slave, qs), slave)
  {
    var t := Trace(slave, qs);
    forall i | 0 <= i < |t| && t[i].ReadHolding?
      ensures t[i].slave == slave && 0 < i && t[i - 1] == BusOp.SetSlave(slave)
    {
      TraceAt(slave, qs, i / 2);
    }
  }

  /** The trace of one more read extends the trace of the reads before it. */
  lemma {:induction false} TraceSnoc(slave: U8, qs: seq<RegAddr>, q: RegAddr)
    ensures Trace(slave, qs + [q]) == Trace(slave, qs) + Trace(slave, [q])
  {
    if qs != [] {
      assert (qs + [q])[1..] == qs[1..] + [q];
      TraceSnoc(slave, qs[1..], q);
    }
  }

  /** The quantities `read_all` requests from battery `slave` over `dev`,
      in order: every one up to and including the first whose read does not
      succeed. It is `IssuedReads` taken on this bus's replies, spelled out
      over `Fetch` so that the proof of `Battery.ReadAll` does not have to
      reason through the function value `Readings`. */
  function BusReads(dev: Transport, slave: U8): (qs: seq<RegAddr>)
    ensures qs == IssuedReads(Readings(dev, slave), Cycles(dev, slave))
  {
    SucceedsIffFetched(dev, slave, RegAddr.Current);
    SucceedsIffFetched(dev, slave, RegAddr.Voltage);
    SucceedsIffFetched(dev, slave, RegAddr.RemainingCharge);
    SucceedsIffFetched(dev, slave, RegAddr.Capacity);
    SucceedsIffFetched(dev, slave, RegAddr.CellVoltage1);
    SucceedsIffFetched(dev, slave, RegAddr.CellVoltage2);
    SucceedsIffFetched(dev, slave, RegAddr.CellVoltage3);
    SucceedsIffFetched(dev, slave, RegAddr.CellVoltage4);
    SucceedsIffFetched(dev, slave, RegAddr.CycleNumber);
    SucceedsIffFetched(dev, slave, RegAddr.CellTemp1);
    SucceedsIffFetched(dev, slave, RegAddr.CellTemp2);
    SucceedsIffFetched(dev, slave, RegAddr.CellTemp3);
    SucceedsIffFetched(dev, slave, RegAddr.CellTemp4);
    SucceedsIffFetched(dev, slave, RegAddr.HeaterLevel);
    var throughCurrent := [RegAddr.Current];
    if !Fetch(dev, slave, RegAddr.Current).Ok? then throughCurrent else
    var throughVoltage := throughCurrent + [RegAddr.Voltage];
    if !Fetch(dev, slave, RegAddr.Voltage).Ok? then throughVoltage else
    var throughRemainingCharge := throughVoltage + [RegAddr.RemainingCharge];
    if !Fetch(dev, slave, RegAddr.RemainingCharge).Ok? then throughRemainingCharge else
    var throughCapacity := throughRemainingCharge + [RegAddr.Capacity];
    if !Fetch(dev, slave, RegAddr.Capacity).Ok? then throughCapacity else
    var throughCellVoltage1 := throughCapacity + [RegAddr.CellVoltage1];
    if !Fetch(dev, slave, RegAddr.CellVoltage1).Ok? then throughCellVoltage1 else
    var throughCellVoltage2 := throughCellVoltage1 + [RegAddr.CellVoltage2];
    if !Fetch(dev, slave, RegAddr.CellVoltage2).Ok? then throughCellVoltage2 else
    var throughCellVoltage3 := throughCellVoltage2 + [RegAddr.CellVoltage3];
    if !Fetch(dev, slave, RegAddr.CellVoltage3).Ok? then throughCellVoltage3 else
    var throughCellVoltage4 := throughCellVoltage3 + [RegAddr.CellVoltage4];
    if !Fetch(dev, slave, RegAddr.CellVoltage4).Ok? then throughCellVoltage4 else
    var throughCycleNumber := throughCellVoltage4 + [RegAddr.CycleNumber];
    if !Fetch(dev, slave, RegAddr.CycleNumber).Ok? then throughCycleNumber else
    var throughCellTemp1 := throughCycleNumber + [RegAddr.CellTemp1];
    if !Fetch(dev, slave, RegAddr.CellTemp1).Ok? then throughCellTemp1 else
    var throughCellTemp2 := throughCellTemp1 + [RegAddr.CellTemp2];
    if !Fetch(dev, slave, RegAddr.CellTemp2).Ok? then throughCellTemp2 else
    var throughCellTemp3 := throughCellTemp2 + [RegAddr.CellTemp3];
    if !Fetch(dev, slave, RegAddr.CellTemp3).Ok? then throughCellTemp3 else
    var throughCellTemp4 := throughCellTemp3 + [RegAddr.CellTemp4];
    if !Fetch(dev, slave, RegAddr.CellTemp4).Ok? then throughCellTemp4 else
    var throughHeaterLevel := throughCellTemp4 + [RegAddr.HeaterLevel];
    throughHeaterLevel
  }

  /** `read_all` requests `ReadOrder` cut just after its first failing
      read: never a read after a failure, and never a read out of order. */
  lemma BusReadsUpToFirstFailure(dev: Transport, slave: U8)
    ensures BusReads(dev, slave) == ReadOrder[..IssuedCount(Readings(dev, slave), Cycles(dev, slave))]
  {
    IssuedReadsUpToFirstFailure(Readings(dev, slave), Cycles(dev, slave));
  }

  /** Appending one read's steps to a log that holds the steps of the reads
      `done` gives the steps of `done` followed by that read. */
  lemma LogAppend(log0: seq<BusOp>, before: seq<BusOp>, after: seq<BusOp>, slave: U8,
                  done: seq<RegAddr>, q: RegAddr)
    requires before == log0 + Trace(slave, done)
    requires after == before + Trace(slave, [q])
    ensures after == log0 + Trace(slave, done + [q])
  {
    TraceSnoc(slave, done, q);
  }

  /** `Battery`: one slave address on a port that other batteries may share. */
  class Battery {
    const port: Port
    const addr: U8

    constructor (port: Port, addr: U8)
      ensures this.port == port && this.addr == addr
    {
      this.port := port;
      this.addr := addr;
    }

    /** `read_register`: select this battery's slave, then read `size`
        registers from `address`, as one step no other read can interleave with. */
    method ReadRegister(address: Word, size: Word) returns (r: Outcome<seq<Word>>)
      modifies port
      ensures r == RegisterResult(port.device(addr, address, size))
      ensures port.activeSlave == addr
      ensures port.log == old(port.log) + [BusOp.SetSlave(addr), ReadHolding(addr, address, size)]
    {
      port.SetSlave(addr);
      var reply := port.ReadHoldingRegisters(address, size);
      match reply
      case Answered(words) => r := Ok(words);
      case TimedOut => r := Err(Timeout);
      case Failed(kind) => r := Err(Error.Io(kind));
    }

    /** `read_u16`. */
    method ReadU16(address: Word) returns (r: Outcome<Word>)
      modifies port
      ensures r == U16Of(RegisterResult(port.device(addr, address, 1)))
      ensures port.activeSlave == addr
      ensures port.log == old(port.log) + [BusOp.SetSlave(addr), ReadHolding(addr, address, 1)]
    {
      var raw :- ReadRegister(address, 1);
      if |raw| != 1 {
        return Panic;
      }
      return Ok(raw[0]);
    }

    /** `read_i16`. */
    method ReadI16(address: Word) returns (r: Outcome<I16>)
      modifies port
      ensures r == I16Of(RegisterResult(port.device(addr, address, 1)))
      ensures port.activeSlave == addr
      ensures port.log == old(port.log) + [BusOp.SetSlave(addr), ReadHolding(addr, address, 1)]
    {
      var raw :- ReadRegister(address, 1);
      if |raw| != 1 {
        return Panic;
      }
      return Ok(ToSigned16(raw[0]));
    }

    /** `read_u32`. */
    method ReadU32(address: Word) returns (r: Outcome<U32>)
      modifies port
      ensures r == U32Of(RegisterResult(port.device(addr, address, 2)))
      ensures port.activeSlave == addr
      ensures port.log == old(port.log) + [BusOp.SetSlave(addr), ReadHolding(addr, address, 2)]
    {
      var raw :- ReadRegister(address, 2);
      if |raw| != 2 {
        return Panic;
      }
      return Ok(raw[1] as int + (raw[0] as int) * 0x1_0000);
    }

    /** `current`, in amperes: negative while discharging. */
    method Current() returns (r: Outcome<real>)
      modifies port
      ensures r == Reading(port.device, addr, RegAddr.Current)
      ensures port.activeSlave == addr
      ensures port.log == old(port.log) + Trace(addr, [RegAddr.Current])
    {
      var x :- ReadI16(Address(RegAddr.Current));
      var raw := SwapBytesI16(x);
      return Ok(raw as real * 0.01);
    }

    /** `voltage`, in volts. */
    method Voltage() returns (r: Outcome<real>)
      modifies port
      ensures r == Reading(port.device, addr, RegAddr.Voltage)
      ensures port.activeSlave == addr
      ensures port.log == old(port.log) + Trace(addr, [RegAddr.Voltage])
    {
      var raw :- ReadU16(Address(RegAddr.Voltage));
      return Ok(raw as real * 0.1);
    }

    /** `remaining_charge`, in ampere-hours. */
    method RemainingCharge() returns (r: Outcome<real>)
      modifies port
      ensures r == Reading(port.device, addr, RegAddr.RemainingCharge)
      ensures port.activeSlave == addr
      ensures port.log == old(port.log) + Trace(addr, [RegAddr.RemainingCharge])
    {
      var raw :- ReadU32(Address(RegAddr.RemainingCharge));
      return Ok(raw as real * 0.001);
    }

    /** `capacity`, in ampere-hours when fully charged. */
    method Capacity() returns (r: Outcome<real>)
      modifies port
      ensures r == Reading(port.device, addr, RegAddr.Capacity)
      ensures port.activeSlave == addr
      ensures port.log == old(port.log) + Trace(addr, [RegAddr.Capacity])
    {
      var raw :- ReadU32(Address(RegAddr.Capacity));
      return Ok(raw as real * 0.001);
    }

    /** `cycle_number`: the counter word, unscaled. */
    method CycleNumber() returns (r: Outcome<Word>)
      modifies port
      ensures r == Fetch(port.device, addr, RegAddr.CycleNumber)
      ensures port.activeSlave == addr
      ensures port.log == old(port.log) + Trace(addr, [RegAddr.CycleNumber])
    {
      r := ReadU16(Address(RegAddr.CycleNumber));
    }

    /** `cell_voltage_1`, in volts. */
    method CellVoltage1() returns (r: Outcome<real>)
      modifies port
      ensures r == Reading(port.device, addr, RegAddr.CellVoltage1)
      ensures port.activeSlave == addr
      ensures port.log == old(port.log) + Trace(addr, [RegAddr.CellVoltage1])
    {
      var raw :- ReadU16(Address(RegAddr.CellVoltage1));
      return Ok(raw as real * 0.1);
    }

    /** `cell_voltage_2`, in volts. */
    method CellVoltage2() returns (r: Outcome<real>)
      modifies port
      ensures r == Reading(port.device, addr, RegAddr.CellVoltage2)
      ensures port.activeSlave == addr
      ensures port.log == old(port.log) + Trace(addr, [RegAddr.CellVoltage2])
    {
      var raw :- ReadU16(Address(RegAddr.CellVoltage2));
      return Ok(raw as real * 0.1);
    }

    /** `cell_voltage_3`, in volts. */
    method CellVoltage3() returns (r: Outcome<real>)
      modifies port
      ensures r == Reading(port.device, addr, RegAddr.CellVoltage3)
      ensures port.activeSlave == addr
      ensures port.log == old(port.log) + Trace(addr, [RegAddr.CellVoltage3])
    {
      var raw :- ReadU16(Address(RegAddr.CellVoltage3));
      return Ok(raw as real * 0.1);
    }

    /** `cell_voltage_4`, in volts. */
    method CellVoltage4() returns (r: Outcome<real>)
      modifies port
      ensures r == Reading(port.device, addr, RegAddr.CellVoltage4)
      ensures port.activeSlave == addr
      ensures port.log == old(port.log) + Trace(addr, [RegAddr.CellVoltage4])
    {
      var raw :- ReadU16(Address(RegAddr.CellVoltage4));
      return Ok(raw as real * 0.1);
    }

    /** `cell_temp_1`, in degrees Celsius. */
    method CellTemp1() returns (r: Outcome<real>)
      modifies port
      ensures r == Reading(port.device, addr, RegAddr.CellTemp1)
      ensures port.activeSlave == addr
      ensures port.log == old(port.log) + Trace(addr, [RegAddr.CellTemp1])
    {
      var raw :- ReadI16(Address(RegAddr.CellTemp1));
      return Ok(raw as real * 0.1);
    }

    /** `cell_temp_2`, in degrees Celsius. */
    method CellTemp2() returns (r: Outcome<real>)
      modifies port
      ensures r == Reading(port.device, addr, RegAddr.CellTemp2)
      ensures port.activeSlave == addr
      ensures port.log == old(port.log) + Trace(addr, [RegAddr.CellTemp2])
    {
      var raw :- ReadI16(Address(RegAddr.CellTemp2));
      return Ok(raw as real * 0.1);
    }

    /** `cell_temp_3`, in degrees Celsius. */
    method CellTemp3() returns (r: Outcome<real>)
      modifies port
      ensures r == Reading(port.device, addr, RegAddr.CellTemp3)
      ensures port.activeSlave == addr
      ensures port.log == old(port.log) + Trace(addr, [RegAddr.CellTemp3])
    {
      var raw :- ReadI16(Address(RegAddr.CellTemp3));
      return Ok(raw as real * 0.1);
    }

    /** `cell_temp_4`, in degrees Celsius. */
    method CellTemp4() returns (r: Outcome<real>)
      modifies port
      ensures r == Reading(port.device, addr, RegAddr.CellTemp4)
      ensures port.activeSlave == addr
      ensures port.log == old(port.log) + Trace(addr, [RegAddr.CellTemp4])
    {
      var raw :- ReadI16(Address(RegAddr.CellTemp4));
      return Ok(raw as real * 0.1);
    }

    /** `heater_level`, in percent. */
    method HeaterLevel() returns (r: Outcome<real>)
      modifies port
      ensures r == Reading(port.device, addr, RegAddr.HeaterLevel)
      ensures port.activeSlave == addr
      ensures port.log == old(port.log) + Trace(addr, [RegAddr.HeaterLevel])
    {
      var raw :- ReadU16(Address(RegAddr.HeaterLevel));
      return Ok(raw as real * 0.3922);
    }

    /** `read_all`: the reads in `ReadOrder`, each one a separate bus
        transaction addressed to this battery; the first that does not
        succeed ends it, and no read after that one is issued. */
    method ReadAll() returns (r: Outcome<BatteryState>)
      modifies port
      ensures r == ReadAllSpec(port.device, addr)
      ensures port.activeSlave == addr
      ensures port.log == old(port.log) + Trace(addr, BusReads(port.device, addr))
    {
      ghost var log0 := port.log;
      ghost var before := port.log;
      var current := Current();
      ghost var done := [RegAddr.Current];
      if current.IsFailure() {
        return current.PropagateFailure();
      }
      before := port.log;
      var voltage := Voltage();
      LogAppend(log0, before, port.log, addr, done, RegAddr.Voltage);
      done := done + [RegAddr.Voltage];
      if voltage.IsFailure() {
        return voltage.PropagateFailure();
      }
      before := port.log;
      var remainingCharge := RemainingCharge();
      LogAppend(log0, before, port.log, addr, done, RegAddr.RemainingCharge);
      done := done + [RegAddr.RemainingCharge];
      if remainingCharge.IsFailure() {
        return remainingCharge.PropagateFailure();
      }
      before := port.log;
      var capacity := Capacity();
      LogAppend(log0, before, port.log, addr, done, RegAddr.Capacity);
      done := done + [RegAddr.Capacity];
      if capacity.IsFailure() {
        return capacity.PropagateFailure();
      }
      before := port.log;
      var cellVoltage1 := CellVoltage1();
      LogAppend(log0, before, port.log, addr, done, RegAddr.CellVoltage1);
      done := done + [RegAddr.CellVoltage1];
      if cellVoltage1.IsFailure() {
        return cellVoltage1.PropagateFailure();
      }
      before := port.log;
      var cellVoltage2 := CellVoltage2();
      LogAppend(log0, before, port.log, addr, done, RegAddr.CellVoltage2);
      done := done + [RegAddr.CellVoltage2];
      if cellVoltage2.IsFailure() {
        return cellVoltage2.PropagateFailure();
      }
      before := port.log;
      var cellVoltage3 := CellVoltage3();
      LogAppend(log0, before, port.log, addr, done, RegAddr.CellVoltage3);
      done := done + [RegAddr.CellVoltage3];
      if cellVoltage3.IsFailure() {
        return cellVoltage3.PropagateFailure();
      }
      before := port.log;
      var cellVoltage4 := CellVoltage4();
      LogAppend(log0, before, port.log, addr, done, RegAddr.CellVoltage4);
      done := done + [RegAddr.CellVoltage4];
      if cellVoltage4.IsFailure() {
        return cellVoltage4.PropagateFailure();
      }
      before := port.log;
      var cycleNumber := CycleNumber();
      LogAppend(log0, before, port.log, addr, done, RegAddr.CycleNumber);
      done := done + [RegAddr.CycleNumber];
      if cycleNumber.IsFailure() {
        return cycleNumber.PropagateFailure();
      }
      before := port.log;
      var cellTemp1 := CellTemp1();
      LogAppend(log0, before, port.log, addr, done, RegAddr.CellTemp1);
      done := done + [RegAddr.CellTemp1];
      if cellTemp1.IsFailure() {
        return cellTemp1.PropagateFailure();
      }
      before := port.log;
      var cellTemp2 := CellTemp2();
      LogAppend(log0, before, port.log, addr, done, RegAddr.CellTemp2);
      done := done + [RegAddr.CellTemp2];
      if cellTemp2.IsFailure() {
        return cellTemp2.PropagateFailure();
      }
      before := port.log;
      var cellTemp3 := CellTemp3();
      LogAppend(log0, before, port.log, addr, done, RegAddr.CellTemp3);
      done := done + [RegAddr.CellTemp3];
      if cellTemp3.IsFailure() {
        return cellTemp3.PropagateFailure();
      }
      before := port.log;
      var cellTemp4 := CellTemp4();
      LogAppend(log0, before, port.log, addr, done, RegAddr.CellTemp4);
      done := done + [RegAddr.CellTemp4];
      if cellTemp4.IsFailure() {
        return cellTemp4.PropagateFailure();
      }
      before := port.log;
      var heaterLevel := HeaterLevel();
      LogAppend(log0, before, port.log, addr, done, RegAddr.HeaterLevel);
      done := done + [RegAddr.HeaterLevel];
      if heaterLevel.IsFailure() {
        return heaterLevel.PropagateFailure();
      }
      return Ok(BatteryState(current.value, voltage.value, remainingCharge.value, capacity.value,
                             cycleNumber.value, cellVoltage1.value, cellVoltage2.value,
                             cellVoltage3.value, cellVoltage4.value, cellTemp1.value, cellTemp2.value,
                             cellTemp3.value, cellTemp4.value, heaterLevel.value));
    }
  }
}
