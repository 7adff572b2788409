/** The shared serial connection: one Modbus RTU transaction context whose
    active slave is set before each read-holding-registers request (function
    code 0x03, section 6.3 of the Modbus Application Protocol Specification
    V1.1b3). The transaction engine and the devices on the bus are an oracle. */
module Bus {
  import opened Words
  import opened Errors

  /** What one read-holding-registers request comes back with: the words in
      wire order, the 200 ms per-request deadline passing first, or a
      transport failure with its platform I/O kind. */
  datatype Reply = Answered(words: seq<Word>) | TimedOut | Failed(kind: IoKind)

  /** The transaction engine and the devices behind it: the reply to a request
      sent to `slave` for `count` registers starting at `address`. */
  type Transport = (U8, Word, Word) -> Reply

  /** One step seen on the bus. */
  datatype BusOp =
    | SetSlave(slave: U8)
    | ReadHolding(slave: U8, address: Word, count: Word)

  /** Serial line speed of the battery's RS-485 port (`RENOGY_BAUDRATE`). */
  const BaudRate: nat := 9600

  /** Timeout, in milliseconds, given to the serial library when opening. */
  const OpenTimeoutMs: nat := 400

  /** The serial library's answer to opening a device at a baud rate with a
      timeout: a connected transaction engine, or a classified failure. */
  datatype OpenReply = Opened(device: Transport) | OpenFailed(error: SerialError)

  type Opener = (string, nat, nat) -> OpenReply

  /** `Port`: the transaction context over one open serial connection. */
  class Port {
    const device: Transport
    /** The slave the next request is addressed to. */
    var activeSlave: U8
    /** Every step taken on this connection so far, oldest first. */
    ghost var log: seq<BusOp>

    constructor (device: Transport)
      ensures this.device == device
      ensures log == []
    {
      this.device := device;
      activeSlave := 0;
      log := [];
    }

    /** `ctx.set_slave`. */
    method SetSlave(slave: U8)
      modifies this
      ensures activeSlave == slave
      ensures log == old(log) + [BusOp.SetSlave(slave)]
    {
      activeSlave := slave;
      log := log + [BusOp.SetSlave(slave)];
    }

    /** `ctx.read_holding_registers`, bounded by the per-request timeout:
        the request goes to the slave currently active. */
    method ReadHoldingRegisters(address: Word, count: Word) returns (reply: Reply)
      modifies this`log
      ensures reply == device(activeSlave, address, count)
      ensures log == old(log) + [ReadHolding(activeSlave, address, count)]
    {
      reply := device(activeSlave, address, count);
      log := log + [ReadHolding(activeSlave, address, count)];
    }
  }

  /** `Port::new`: open `path` at 9600 baud with a 400 ms timeout; a failure
      is reported with its kind classified. */
  method Open(path: string, open: Opener) returns (r: Outcome<Port>)
    ensures open(path, BaudRate, OpenTimeoutMs).OpenFailed? ==>
              r == Err(ClassifyOpenError(open(path, BaudRate, OpenTimeoutMs).error))
    ensures open(path, BaudRate, OpenTimeoutMs).Opened? ==>
              && r.Ok? && fresh(r.value)
              && r.value.device == open(path, BaudRate, OpenTimeoutMs).device
              && r.value.log == []
  {
    var reply := open(path, BaudRate, OpenTimeoutMs);
    match reply
    case OpenFailed(e) =>
      return Err(ClassifyOpenError(e));
    case Opened(device) =>
      var port := new Port(device);
      return Ok(port);
  }

  /** Every request in `log` goes to `slave`, and the step right before it
      set the active slave to `slave`. */
  ghost predicate EachReadAddressedTo(log: seq<BusOp>, slave: U8)
  {
    forall i :: 0 <= i < |log| && log[i].ReadHolding? ==>
      log[i].slave == slave && 0 < i && log[i - 1] == SetSlave(slave)
  }

  /** Two logs in which every request is correctly addressed to `slave`
      remain so when one follows the other. */
  lemma EachReadAddressedToAppend(a: seq<BusOp>, b: seq<BusOp>, slave: U8)
    requires EachReadAddressedTo(a, slave) && EachReadAddressedTo(b, slave)
    ensures EachReadAddressedTo(a + b, slave)
  {
    var ab := a + b;
    forall i | 0 <= i < |ab| && ab[i].ReadHolding?
      ensures ab[i].slave == slave && 0 < i && ab[i - 1] == SetSlave(slave)
    {
      if i >= |a| {
        assert ab[i] == b[i - |a|];
        assert ab[i - 1] == b[i - |a| - 1];
      } else {
        assert ab[i] == a[i];
        assert ab[i - 1] == a[i - 1];
      }
    }
  }
}
