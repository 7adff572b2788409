# renogy-rs register layer, modelled in Dafny

This project models the core of `renogy-rs`, a client for Renogy lithium
batteries that share one RS-485 bus. The client reads Modbus holding
registers with function code 0x03 (section 6.3 of the Modbus Application
Protocol Specification V1.1b3) and turns the raw 16-bit words into battery
quantities.

The model covers:

- the fixed register map (`RegAddr`), with each quantity's address, word
  count, word layout and scale;
- the `Error` type and the classification of serial-open failures in
  `Port::new`;
- `Battery::read_register`, which selects the battery's slave address on the
  shared port and then issues one read;
- the raw decoders `read_u16`, `read_i16` and `read_u32`, including the
  panics raised by their length `assert!`s;
- the fourteen per-quantity accessors, from `current` to `heater_level`;
- `read_all`, which runs the fourteen reads in a fixed order and stops at the
  first failure.

The files are:

- `words.dfy`: module `Words`. Fixed-width integer types, the `as i16`
  reinterpretation, byte swapping, and joining two words into a `u32`.
- `errors.dfy`: module `Errors`. The `Error` enum and the `Outcome` type: `Ok`,
  `Err`, or `Panic` for a failed `assert!`. Also the open-error classification.
- `registers.dfy`: module `Registers`. The register map as data, the
  registers each read covers, and the facts that they are disjoint.
- `bus.dfy`: module `Bus`. The shared port as a class. It holds an
  `activeSlave` field and a ghost log of every bus step. The transaction
  engine and the devices are an oracle: a function from slave, address and
  count to a reply.
- `decode.dfy`: module `Decode`. The decoders as functions of what a
  register read returned. The table-driven raw value and physical value of
  every quantity.
- `snapshot.dfy`: module `Snapshot`. `BatteryState`, the read order, and the
  fail-fast assembly of a snapshot. The reads it issues are stated over the
  per-quantity outcomes alone.
- `battery.dfy`: module `Renogy`. The `Battery` class, with one method per
  source method. Each method is proved against the table-driven reading of
  its quantity and against the exact steps it adds to the bus log.

`read_u32` puts the first word on the wire in the high half of the result
(`src/lib.rs:133`). Remaining charge and capacity therefore read `[hi, lo]`
as `hi * 65536 + lo`. For example, `[0x2710, 0x0000]` decodes to
655360.0 Ah, and `[0x0000, 0x2710]` to 10.0 Ah (`Decode.WorkedValues`).

## Model

| member | source | states |
|---|---|---|
| Words.ToSigned16 | src/lib.rs:126 | `w as i16` keeps the bit pattern (result ≡ w mod 2^16), lies in [-32768, 32767], and is negative exactly when the top bit of `w` is set |
| Words.ToUnsigned16 | src/lib.rs:141 | the bits of an `i16` read back as a word; reading them as signed again gives the value back |
| Words.UnsignedOfSigned | src/lib.rs:126 | reading a word as `i16` loses nothing: converting back gives the same word |
| Words.ToUnsigned16Injective | src/lib.rs:126 | two `i16` values with the same bit pattern are equal |
| Words.SwapBytes16 | src/lib.rs:141 | byte swap: the result's high byte is the input's low byte, and its low byte is the input's high byte |
| Words.SwapBytes16Involutive | src/lib.rs:141 | swapping the bytes of a word twice is the identity |
| Words.SwapBytesI16 | src/lib.rs:141 | `i16::swap_bytes` swaps the bytes of the value's 16-bit pattern |
| Words.SwapBytesI16Involutive | src/lib.rs:141 | swapping the bytes of an `i16` twice is the identity |
| Words.SwapAfterSignedIsSignedAfterSwap | src/lib.rs:141 | swapping after `as i16` equals `as i16` after swapping the word |
| Words.CombineU32 | src/lib.rs:133 | the `u32` of two words has the first word as its upper 16 bits and the second as its lower 16 bits, and is below 2^32 |
| Words.SplitU32 | src/lib.rs:133 | every `u32` is the combination of its high and low words, in that order |
| Words.SplitCombine | src/lib.rs:133 | splitting a combined value gives back both words in wire order |
| Words.CombineU32Injective | src/lib.rs:133 | different word pairs combine to different `u32` values |
| Errors.Outcome.PropagateFailure | src/lib.rs:117 | `?` hands on an error unchanged, and a panic stays a panic |
| Errors.ClassifyOpenError | src/lib.rs:23-28 | each serial error kind maps to the `Error` variant of the same name, one kind for one variant. Io keeps its platform kind, the others keep the library's text, and none becomes `Timeout` |
| Errors.ClassifyOpenErrorKeepsKind | src/lib.rs:23-28 | the mapping never merges two kinds: equal classifications come from equal kinds |
| Registers.Address | src/lib.rs:80-95 | each quantity's starting register, as its `RegAddr` discriminant. Every read stays within the battery's block 0x1389-0x13ef |
| Registers.LayoutOf | src/lib.rs:139-224 | the decoder each accessor applies. Only `current` is byte-swapped, only remaining charge and capacity span two words, and only the four cell temperatures are plain signed words |
| Registers.Scale | src/lib.rs:139-224 | the multiplier each accessor applies to its raw value. Every multiplier is positive and at most 1, so scaling keeps the sign |
| Registers.Footprint | src/lib.rs:80-95 | each read covers its start address, and as many registers as the quantity has words |
| Registers.AddressInjective | src/lib.rs:80-95 | the fourteen register addresses are pairwise distinct |
| Registers.FootprintsDisjoint | src/lib.rs:80-95 | no two quantities share a register, including the two-word reads at 0x13b4-0x13b5 and 0x13b6-0x13b7 |
| Registers.FootprintInAddressSpace | src/lib.rs:80-95 | every register a read covers lies in the 16-bit address space |
| Bus.Port.constructor | src/lib.rs:30-31 | a new port wraps the given transaction engine and has an empty bus log |
| Bus.Port.SetSlave | src/lib.rs:105 | `set_slave` makes the slave active and logs the selection |
| Bus.Port.ReadHoldingRegisters | src/lib.rs:109 | the request goes to the active slave, the reply is the oracle's, and the request is logged |
| Bus.Open | src/lib.rs:18-32 | opening at 9600 baud with a 400 ms timeout gives a fresh port with an empty log, or the classified open error |
| Bus.EachReadAddressedToAppend | src/lib.rs:104-105 | two logs in which every request is preceded by the selection of its slave stay so when joined |
| Decode.U16Of | src/lib.rs:116-120 | `read_u16` gives exactly the one word returned, hands on a read error unchanged, and panics on any other length |
| Decode.I16Of | src/lib.rs:123-127 | `read_i16` gives the one word as two's complement (same bits, negative exactly when the top bit is set), or the read error, or a panic on any other length |
| Decode.U32Of | src/lib.rs:130-134 | `read_u32` gives first word × 65536 + second word when two words came back, or the read error, or a panic on any other length |
| Decode.RawValue | src/lib.rs:139-224 | a quantity's raw value decodes exactly its table word count, keeps the read's error, and lies in the range of its layout |
| Decode.Physical | src/lib.rs:139-224 | scaling keeps success, error and panic as they were |
| Decode.UnsignedReading | src/lib.rs:116-120 | voltage, the cycle counter, the cell voltages and the heater level read word `w` as `w` itself |
| Decode.SignedReading | src/lib.rs:197-218 | a cell temperature reads word `w` as `w` below 0x8000 and as `w - 65536` from there on |
| Decode.CurrentReading | src/lib.rs:139-143 | the current register decodes as its word with the bytes swapped, read as `i16` |
| Decode.TwoWordReading | src/lib.rs:154-165 | remaining charge and capacity read `[hi, lo]` as `hi * 65536 + lo`, and splitting that value gives `(hi, lo)` back |
| Decode.WorkedValues | src/lib.rs:139-224 | 0xFFFF as a cell temperature is -0.1 °C. 0x6400 as current is 1.00 A. `[0, 0x2710]` of remaining charge is 10.0 Ah, and `[0x2710, 0]` is 655360.0 Ah |
| Snapshot.Position | src/lib.rs:234-249 | every quantity has a position in the read order |
| Snapshot.ReadOrderDistinct | src/lib.rs:234-249 | no quantity is read twice by `read_all` |
| Snapshot.FailureOf | src/lib.rs:234-249 | a read that does not succeed hands on a failure, never a snapshot |
| Snapshot.FirstFailure | src/lib.rs:234-249 | the first failing position: every read before it succeeds, and the read at it fails |
| Snapshot.IssuedCount | src/lib.rs:234-249 | `read_all` issues between 1 and 14 reads |
| Snapshot.IssuedReads | src/lib.rs:233-250 | the quantities `read_all` requests, from the reads' outcomes alone: at least one and at most fourteen. A run shorter than fourteen ends with a read that did not succeed |
| Snapshot.IssuedReadsAt | src/lib.rs:234-249 | when reads before position `k` succeed and the one at `k` fails, exactly the order up to `k` is issued |
| Snapshot.IssuedReadsUpToFirstFailure | src/lib.rs:234-249 | the reads issued are the read order cut just after the first failure: none after it, none out of order |
| Snapshot.AssembleAt | src/lib.rs:233-250 | with the first failure at `k`, the snapshot succeeds iff there is no failure, and otherwise is the failure at `k` |
| Snapshot.Assemble | src/lib.rs:233-250 | `read_all`'s chain of `?` over the reads' outcomes, in source order. A snapshot it returns holds each quantity's reading in the field named after it, and the cycle counter's word in `cycleNumber` |
| Snapshot.AssembleFailFast | src/lib.rs:233-250 | the snapshot succeeds exactly when every read does, with each field holding its reading. Otherwise it is the first failure's error |
| Renogy.RegisterResult | src/lib.rs:109-112 | `read_register` gives the returned words unchanged, `Timeout` exactly when the deadline passed, `Io(kind)` on a transport failure, and never panics |
| Renogy.Fetch | src/lib.rs:102-134 | the raw value one read of a quantity yields: one request at its address for its word count. It is a value exactly when that many words came back, `Timeout` exactly when the request timed out, the transport's `Io` kind on a failure, and within its layout's range |
| Renogy.Reading | src/lib.rs:139-224 | an accessor's result: the raw value times the quantity's scale when the read succeeded, and otherwise the raw read's failure |
| Renogy.Cycles | src/lib.rs:168-170 | `cycle_number` is the raw decoded word of its register, unscaled |
| Renogy.ReadAllSpec | src/lib.rs:233-250 | `read_all`: `Assemble` over each quantity's `Reading` and the cycle counter's word. A returned snapshot's cycle number is that word, unscaled |
| Renogy.BusReads | src/lib.rs:233-250 | the quantities requested on the bus, decided by each register read's outcome. They are exactly `IssuedReads` over this bus's outcomes, so the facts proved about `IssuedReads` hold of the bus |
| Renogy.SucceedsIffFetched | src/lib.rs:234-249 | a read within `read_all` succeeds exactly when its register read decodes, and otherwise fails with that read's failure |
| Renogy.ReadAllOkIffAllFetched | src/lib.rs:233-250 | `read_all` succeeds exactly when all fourteen reads succeed, so no partial snapshot exists |
| Renogy.ReadAllFields | src/lib.rs:234-249 | each field of a returned snapshot equals its accessor's reading |
| Renogy.ReadAllFirstFailure | src/lib.rs:233-250 | on failure the earlier reads succeeded, and `read_all` returns the first failing read's error |
| Renogy.Trace | src/lib.rs:104-109 | each read adds two bus steps |
| Renogy.TraceAt | src/lib.rs:104-109 | the `i`-th read's steps are: select this battery, then request that quantity's address and word count |
| Renogy.TraceAddressed | src/lib.rs:104-109 | in the steps of any sequence of reads, every request goes to the battery's own address, right after that address was selected |
| Renogy.TraceSnoc | src/lib.rs:104-109 | the steps of one more read follow the steps of the reads before it |
| Renogy.BusReadsUpToFirstFailure | src/lib.rs:233-250 | the reads `read_all` puts on the bus are the read order cut just after the first failing read |
| Renogy.LogAppend | src/lib.rs:104-109 | the log after one more read holds the steps of the earlier reads followed by that read's |
| Renogy.Battery.constructor | src/lib.rs:98-100 | a battery is a port and a slave address |
| Renogy.Battery.ReadRegister | src/lib.rs:102-113 | selects this battery, then issues exactly one request for `size` registers at `address`. The result is the oracle's reply mapped by `RegisterResult`, and the battery stays active |
| Renogy.Battery.ReadU16 | src/lib.rs:116-120 | one register read decoded by `U16Of` |
| Renogy.Battery.ReadI16 | src/lib.rs:123-127 | one register read decoded by `I16Of` |
| Renogy.Battery.ReadU32 | src/lib.rs:130-134 | one two-register read decoded by `U32Of` |
| Renogy.Battery.Current | src/lib.rs:139-143 | equals the table reading of current (byte-swapped `i16` × 0.01 A), with exactly one read logged |
| Renogy.Battery.Voltage | src/lib.rs:146-149 | equals the table reading of voltage (`u16` × 0.1 V), with exactly one read logged |
| Renogy.Battery.RemainingCharge | src/lib.rs:154-157 | equals the table reading of remaining charge (`u32` × 0.001 Ah), with exactly one read logged |
| Renogy.Battery.Capacity | src/lib.rs:162-165 | equals the table reading of capacity (`u32` × 0.001 Ah), with exactly one read logged |
| Renogy.Battery.CycleNumber | src/lib.rs:168-170 | equals the raw word of the cycle counter, with exactly one read logged |
| Renogy.Battery.CellVoltage1 | src/lib.rs:173-176 | equals the table reading of cell voltage 1 (`u16` × 0.1 V), with exactly one read logged |
| Renogy.Battery.CellVoltage2 | src/lib.rs:179-182 | as `CellVoltage1`, for cell 2 |
| Renogy.Battery.CellVoltage3 | src/lib.rs:185-188 | as `CellVoltage1`, for cell 3 |
| Renogy.Battery.CellVoltage4 | src/lib.rs:191-194 | as `CellVoltage1`, for cell 4 |
| Renogy.Battery.CellTemp1 | src/lib.rs:197-200 | equals the table reading of cell temperature 1 (`i16` × 0.1 °C), with exactly one read logged |
| Renogy.Battery.CellTemp2 | src/lib.rs:203-206 | as `CellTemp1`, for cell 2 |
| Renogy.Battery.CellTemp3 | src/lib.rs:209-212 | as `CellTemp1`, for cell 3 |
| Renogy.Battery.CellTemp4 | src/lib.rs:215-218 | as `CellTemp1`, for cell 4 |
| Renogy.Battery.HeaterLevel | src/lib.rs:221-224 | equals the table reading of the heater level (`u16` × 0.3922 %), with exactly one read logged |
| Renogy.Battery.ReadAll | src/lib.rs:233-250 | returns the fail-fast snapshot of the table readings. The log gains exactly the steps of the reads up to and including the first failure, in order |

## Left out

- Opening the serial device and `rtu::attach` (`src/lib.rs:18-32`) are foreign I/O. The opener is a parameter of `Bus.Open`, and only the classification of its error is modelled.
- The async `Mutex` and the `.await` points are not modelled. A register read is one atomic step, which is what holding the lock during the select-and-read gives. Interleaving between batteries on the same port is therefore not modelled.
- The 200 ms `tokio::time::timeout` is not modelled as wall-clock time. The oracle reports `TimedOut` instead.
- The `std::thread::sleep` and `println!` in `read_register` are left out. They have no effect on values.
- The `f64` products of the scaling are not modelled. Scaling is exact `real` multiplication, so IEEE-754 rounding is not captured.
- The device behind the bus is a fixed function of slave, address and count. Readings that change between the reads of one `read_all` are not modelled.
- The active slave right after `rtu::attach` is not specified by the model (`Bus.Port.constructor` says nothing about it). Every read selects its slave first.
- `Battery::test` (`src/lib.rs:227-231`) only selects slave 240 and is not modelled.
- `impl From<std::io::Error> for Error` (`src/lib.rs:70-74`) is not modelled: nothing in the core uses it, since `read_register` maps its transport error itself (`src/lib.rs:110`), as `Renogy.RegisterResult` does.
- `std::io::ErrorKind` is an abstract `IoKind` code, carried unchanged.
- The example programs `read_battery.rs` and `write_to_port.rs` are CLI and raw serial I/O, and are not part of this model.
