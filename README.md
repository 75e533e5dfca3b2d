# ModbusAdapter gateway core in Dafny

The gateway shows the field devices on a Modbus RTU serial bus as one Modbus
TCP server. Two activities share the serial bus through one exclusive lock:

* the **scan cycle** (`ModbusScanHostedService.ExecuteAsync`). It walks the
  configured read blocks in order. For each block it takes the lock, reads
  coils or holding registers from the RTU device and gives the lock back.
  Then it stores the response in the TCP server's image of that unit, through
  `WriteCoil` (one bit at a time) or `WriteRegister` (a word copy). Any
  failure is logged and the cycle goes on with the next block.
* the **change relay** (the `RegistersChanged` and `CoilsChanged` handlers
  in `AddModbusServer`). When a TCP master changes registers or coils, the
  handler reads the new values back from the image and writes them to the
  RTU device while it holds the same lock.

The configuration records `ServerConfiguration` and
`ModbusReadBuffConfiguration` drive the scan cycle.

The project has six modules:

| file | module | contents |
|---|---|---|
| `bits.dfy` | `Bits` | coil bit access (LSB first, as in section 6.1 of the Modbus Application Protocol Specification V1.1b3), packing and unpacking, the `"b8"` round trip, the raw reinterpretation of bytes as 16-bit words |
| `configuration.dfy` | `Configuration` | the `Function` enum, `ModbusReadBuffConfiguration`, `ServerConfiguration` and their defaults |
| `bus.dfy` | `Bus` | the RTU calls, the lock discipline as a predicate on a trace of lock and call events, and the class `SerialBus` (the RTU client plus its lock) |
| `image.dfy` | `Image` | the TCP server's units, each with a coil byte array of 8192 bytes and a register array of 65536 words |
| `scan.dfy` | `Scan` | `WriteCoil`, `WriteRegister`, the decode loop, one block, one cycle and several cycles. Each is written both as an imperative method on the arrays and as a function on values, and the method is proved against the function |
| `relay.dfy` | `Relay` | the two handlers as methods on the live buffers, proved against functions on values, and lemmas about what reaches the RTU device |

The RTU device's answers are parameters:
* each read block gets a `ReadReply`, either the response bytes or a failure;
* each relay write gets a flag `writeOk` that says whether a write that the handler awaits throws.

The only effect of the log that is modelled is its list of entries: which block or address failed.

Behaviour of the code a reader might not expect, which the model follows:

* No byte-order conversion. A register is kept as the two bytes it occupies
  in memory (`RawWord`). `MemoryMarshal.Cast` reinterprets the response
  bytes, and the register buffer's byte view is sliced as it is.
* No check rejects `Length == 0`:
  * a coil block of length 0 stores nothing, logs nothing and never even looks the unit up;
  * a register block copies half the response's bytes as words, whatever its `Length`; the RTU client is not relied on to return exactly `2 * Length` bytes.
* Nothing ties `StartAddress + Length` to the 65536 addresses:
  * coil addresses wrap around through the `(ushort)` cast;
  * a register copy that does not fit throws and copies nothing.
* Cancellation is only looked at between cycles. A cycle that has started always finishes.
* The register handler reads `Registers[0]` before it checks the length. An
  empty list therefore throws out of the handler; the model reports this as `faulted`.
* The coil handler writes once per target byte, and every write starts at
  the first changed address. A span of more than eight coils always fails
  (see Findings).

## Model

| member | source | states |
|---|---|---|
| `Configuration.FunctionOf` | ModbusAdapter/Source/ModbusReadBuffConfiguration.cs:6-13 | a stored `Function` value names a member exactly when it is 0 or 1; the member it names has that value |
| `Configuration.FunctionValueRoundTrip` | ModbusAdapter/Source/ModbusReadBuffConfiguration.cs:6-10 | `Function` has exactly the two members `Coil` and `HoldingRegister`, which have different values, and each member is recognised again from its own value |
| `Configuration.DefaultReadBuff` | ModbusAdapter/Source/ModbusReadBuffConfiguration.cs:13-16 | a read block left at its defaults reads coils of station 0 from address 0, with length 0 |
| `Configuration.ReadBlocks` | ModbusAdapter/Source/ModbusScanHostedService.cs:19-21 | a null `ReadBuffs` walks no blocks; otherwise the cycle walks the list as given |
| `Configuration.ConfiguredUnits` | ModbusAdapter/Source/ModubsServerServiceExtensions.cs:33-39 | a null `Stations` adds no unit; otherwise the units added are exactly the listed ones |
| `Configuration.DefaultServerConfiguration` | ModbusAdapter/Source/ServerConfiguration.cs:5-9 | the default configuration listens on 127.0.0.1:502, waits 1000 ms between cycles, adds no unit and walks no block |
| `Bits.SetBit` | ModbusAdapter/Source/ModbusScanHostedService.cs:143-149 | ORing in `1 << k`, or ANDing with its complement, makes bit `k` equal to the value and keeps the seven other bits |
| `Bits.SetCoilFrame` | ModbusAdapter/Source/ModbusScanHostedService.cs:137-153 | after forcing coil `a`, coil `a` holds the value; every other coil and every other byte is unchanged |
| `Bits.SetCoilIdempotent` | ModbusAdapter/Source/ModbusScanHostedService.cs:142-151 | forcing a coil twice to the same value gives the same buffer as forcing it once |
| `Bits.PackInto` | ModbusAdapter/Source/ModubsServerServiceExtensions.cs:116-132 | in `n` packed bytes, bit `k` of byte `j` is coil `8j+k` when that coil exists, and 0 otherwise |
| `Bits.PackIntoNothing` | ModbusAdapter/Source/ModubsServerServiceExtensions.cs:116 | packing no coils gives the zeroed buffer |
| `Bits.PackIntoStep` | ModbusAdapter/Source/ModubsServerServiceExtensions.cs:130-131 | packing one more coil sets its bit when the coil is on and its byte exists, and changes nothing otherwise |
| `Bits.PackBits` | ModbusAdapter/Source/ModbusScanHostedService.cs:46-50 | just enough bytes for all the coils, LSB first, the last byte padded with zeros |
| `Bits.UnpackBits` | ModbusAdapter/Source/ModbusScanHostedService.cs:46-50 | the LSB-first coil codec of a Read Coils response, used for the round trips: coil `i` is bit `i % 8` of byte `i / 8`, and a coil past the end reads as off |
| `Bits.UnpackPackBits` | ModbusAdapter/Source/ModbusScanHostedService.cs:46-50 | unpacking packed coils gives back the coils |
| `Bits.PackUnpackByte` | ModbusAdapter/Source/ModbusScanHostedService.cs:46-50 | packing the coils unpacked from whole bytes gives back each byte |
| `Bits.PackUnpackBits` | ModbusAdapter/Source/ModbusScanHostedService.cs:46-50 | packing all the coils of whole bytes gives back the bytes |
| `Bits.FormatB8` | ModbusAdapter/Source/ModubsServerServiceExtensions.cs:136 | `ToString("b8")` gives eight binary digits |
| `Bits.Reverse` | ModbusAdapter/Source/ModubsServerServiceExtensions.cs:137 | entry `i` of the reversed array is entry `n-1-i` of the original |
| `Bits.ByteToCoils` | ModbusAdapter/Source/ModubsServerServiceExtensions.cs:136-137 | the digits, tested against `'0'` and reversed, give an eight-entry array whose entry `k` is bit `k` of the byte |
| `Bits.ByteToCoilsRoundTrip` | ModbusAdapter/Source/ModubsServerServiceExtensions.cs:136-137 | packing those eight coils again gives back the byte |
| `Bits.WordsOf` | ModbusAdapter/Source/ModbusScanHostedService.cs:97 | two bytes make one word; a trailing odd byte is dropped |
| `Bits.BytesOf` | ModbusAdapter/Source/ModubsServerServiceExtensions.cs:59 | the register buffer's byte view has two bytes per register |
| `Bits.WordsOfBytesOf` | ModbusAdapter/Source/ModubsServerServiceExtensions.cs:59-60 | reinterpreting the byte view of words gives back the words |
| `Bits.BytesOfWordsOf` | ModbusAdapter/Source/ModbusScanHostedService.cs:95-98 | the byte view of reinterpreted bytes is those bytes, without a trailing odd byte |
| `Bits.BytesOfSlice` | ModbusAdapter/Source/ModubsServerServiceExtensions.cs:59-60 | bytes `[2a, 2a+2c)` of the byte view are the bytes of registers `[a, a+c)` |
| `Bus.DisciplinedAppend` | ModbusAdapter/Source/ModbusScanHostedService.cs:21-43 | two runs that each start and end with the lock free and never misuse it can be run one after the other |
| `Bus.TransactionDisciplined` | ModbusAdapter/Source/ModbusScanHostedService.cs:31-43 | taking the lock, making one call and giving the lock back keeps the discipline |
| `Bus.SerialBus.Acquire` | ModbusAdapter/Source/ModbusScanHostedService.cs:31 | with the lock free, taking it records the event and leaves the code holding the lock |
| `Bus.SerialBus.Release` | ModbusAdapter/Source/ModbusScanHostedService.cs:42 | the holder gives the lock back; the lock is then free |
| `Bus.SerialBus.Transact` | ModbusAdapter/Source/ModbusScanHostedService.cs:34-38 | only the lock holder makes an RTU call, and the call is recorded |
| `Bus.SerialBus.Exclusive` | ModbusAdapter/Source/ModbusScanHostedService.cs:31-43 | a `try`/`finally` around one call appends exactly lock, call, release, and leaves the lock free |
| `Image.ModbusUnit.constructor` | ModbusAdapter/Source/ModubsServerServiceExtensions.cs:35-38 | a unit added to the server starts with every coil off and every register zero, in buffers of the full address space |
| `Image.TcpServer.constructor` | ModbusAdapter/Source/ModubsServerServiceExtensions.cs:26-39 | a server made of valid units that share no buffer is valid |
| `Scan.WriteCoil` | ModbusAdapter/Source/ModbusScanHostedService.cs:137-153 | in place, the buffer becomes `SetCoil` of its old contents: bit `a % 8` of byte `a / 8` holds the value and nothing else changes |
| `Scan.Overwrite` | ModbusAdapter/Source/ModbusScanHostedService.cs:134 | entries `start + k` are the data's entries `k`; every other entry is kept |
| `Scan.WriteRegister` | ModbusAdapter/Source/ModbusScanHostedService.cs:132-135 | it succeeds exactly when the data fits behind `startAddress`; then the bank is overwritten from there, and otherwise it is unchanged |
| `Scan.StoredCoils` | ModbusAdapter/Source/ModbusScanHostedService.cs:46-48 | the decode loop stores all `Length` coils, or as many as the response has bits for, whichever is fewer |
| `Scan.DecodeCoils` | ModbusAdapter/Source/ModbusScanHostedService.cs:46-56 | the bank after storing `n` coils keeps its size (its contents are stated by `Scan.DecodeCoilsAt`) |
| `Scan.DecodeCoilsAt` | ModbusAdapter/Source/ModbusScanHostedService.cs:46-56 | after `n` coils from `start`, coil `a` holds response coil `(a - start) mod 65536` when that offset is below `n`, and its old value otherwise |
| `Scan.DecodeCoilsNext` | ModbusAdapter/Source/ModbusScanHostedService.cs:46-56 | one more pass of the decode loop stores response coil `n` at address `(start + n) mod 65536` |
| `Scan.DecodeCoilBlock` | ModbusAdapter/Source/ModbusScanHostedService.cs:46-57 | the loop succeeds exactly when the response has a bit for every coil, and it leaves the buffer as `DecodeCoils` of the coils it got to |
| `Scan.ReadCall` | ModbusAdapter/Source/ModbusScanHostedService.cs:34-38 | the read goes to the block's station, address and length; it is Read Coils exactly for a coil block, and Read Holding Registers otherwise |
| `Scan.StoreCoilBlock` | ModbusAdapter/Source/ModbusScanHostedService.cs:46-57 | storing a coil response keeps every unit and every bank size |
| `Scan.StoreRegisterBlock` | ModbusAdapter/Source/ModbusScanHostedService.cs:95-98 | storing a register response keeps every unit and every bank size |
| `Scan.ScanBlockSpec` | ModbusAdapter/Source/ModbusScanHostedService.cs:23-122 | one block: its read under the lock, or no bus traffic for an unknown function; no other unit changes; a failed read or an unknown function leaves the image unchanged; an unknown function logs `FunctionNotFound`; a failed read logs the block |
| `Scan.CoilBlockStored` | ModbusAdapter/Source/ModbusScanHostedService.cs:46-57 | for a successful coil read, coil `a` becomes response bit `i % 8` of byte `i / 8`, where `i = (a - StartAddress) mod 65536`, for every `i < Length` the response covers, which is entry `i` of the response's coils as `UnpackBits` decodes them; other coils and all registers are kept; a failure is logged exactly when the response is too short |
| `Scan.RegisterBlockStored` | ModbusAdapter/Source/ModbusScanHostedService.cs:95-98 | when the words of the response (half its length) fit, the register buffer's bytes from `2·StartAddress` are the response bytes, nothing is logged, and every other register and all coils are kept; when they do not fit, nothing changes and the block is logged |
| `Scan.ScanCycleSpec` | ModbusAdapter/Source/ModbusScanHostedService.cs:19-125 | a cycle keeps every unit and every bank size |
| `Scan.ScanCyclePrefix` | ModbusAdapter/Source/ModbusScanHostedService.cs:21 | the cycle over the first `j + 1` blocks is the cycle over the first `j` followed by block `j` |
| `Scan.ScanCycleAppend` | ModbusAdapter/Source/ModbusScanHostedService.cs:21 | blocks are processed in list order: a cycle over `a + b` is the cycle over `a` followed by the cycle over `b` |
| `Scan.FailedBlockSkipped` | ModbusAdapter/Source/ModbusScanHostedService.cs:59-66 | a block whose read fails or whose function is unknown leaves the image as the same cycle without that block |
| `Scan.ScanCycleEvents` | ModbusAdapter/Source/ModbusScanHostedService.cs:21-124 | whatever the replies are, a cycle's bus traffic is the same fixed schedule; no failure stops the blocks after it from being read |
| `Scan.ReadScheduleProperties` | ModbusAdapter/Source/ModbusScanHostedService.cs:31-43 | the schedule takes and gives back the lock around every read, issues exactly the reads of the known blocks in list order, and ends with the lock free |
| `Scan.UnnamedUnitsKept` | ModbusAdapter/Source/ModbusScanHostedService.cs:46-57 | a unit that no block names keeps both its banks through a cycle |
| `Scan.DefaultConfigurationScansNothing` | ModbusAdapter/Source/ModbusScanHostedService.cs:19 | with the default configuration a cycle has no bus traffic, no log lines and no change to the image |
| `Scan.RunSpec` | ModbusAdapter/Source/ModbusScanHostedService.cs:11-129 | several cycles keep every unit and every bank size |
| `Scan.RunEvents` | ModbusAdapter/Source/ModbusScanHostedService.cs:11-129 | a run repeats the same read schedule once per cycle and keeps the lock discipline |
| `Scan.StoreCoils` | ModbusAdapter/Source/ModbusScanHostedService.cs:46-57 | on the live buffers, the image afterwards and the result are those of `StoreCoilBlock` |
| `Scan.StoreRegisters` | ModbusAdapter/Source/ModbusScanHostedService.cs:95-98 | on the live buffers, the image afterwards and the result are those of `StoreRegisterBlock` |
| `Scan.ScanBlock` | ModbusAdapter/Source/ModbusScanHostedService.cs:23-122 | on the live buffers and the bus, the new image, the bus events and the log are those of `ScanBlockSpec`; the lock is free afterwards |
| `Scan.ScanBlocks` | ModbusAdapter/Source/ModbusScanHostedService.cs:21-124 | the loop over the configured blocks gives the image, bus events and log of `ScanCycleSpec` over those blocks, and leaves the lock free |
| `Scan.ScanCycle` | ModbusAdapter/Source/ModbusScanHostedService.cs:19-125 | one pass of the loop body gives the image, bus events and log of `ScanCycleSpec` over `ReadBuffs` |
| `Scan.CyclesRun` | ModbusAdapter/Source/ModbusScanHostedService.cs:11-129 | every cycle that starts runs when `ReadBuffsDelay` is non-negative; with a negative delay exactly the first one does, or none when no cycle started |
| `Scan.Execute` | ModbusAdapter/Source/ModbusScanHostedService.cs:9-130 | the cycles `CyclesRun` allows give the image, bus events and log of `RunSpec`; the service faults exactly when a cycle ran and the delay is below -1 |
| `Relay.Span` | ModbusAdapter/Source/ModubsServerServiceExtensions.cs:113 | `Last() - first + 1` is at least the number of changed addresses and stays within the address space |
| `Relay.RegisterRelayCall` | ModbusAdapter/Source/ModubsServerServiceExtensions.cs:54-80 | the write goes to the notified unit at `Registers[0]`; it carries exactly the buffer bytes `[2·start, 2·start + 2·count)`, which are the words of registers `[start, start + count)`; it is Write Multiple Registers exactly for two or more addresses |
| `Relay.RegistersChanged` | ModbusAdapter/Source/ModubsServerServiceExtensions.cs:44-98 | an empty list throws out of the handler with no bus traffic; otherwise the lock is taken, exactly that write is made and the lock is given back; a write that throws is logged |
| `Relay.RegisterRelayMissesChange` | ModbusAdapter/Source/ModubsServerServiceExtensions.cs:54-60 | for changed registers 3 and 5 the write ends before register 5 |
| `Relay.CorrectedRegisterRelayCall` | ModbusAdapter/Source/ModubsServerServiceExtensions.cs:54-60 | the write of the whole span from the first to the last changed register carries the image's words of that span |
| `Relay.CorrectedRegisterRelayCovers` | ModbusAdapter/Source/ModubsServerServiceExtensions.cs:54-60 | that write covers every changed register and carries its value from the image |
| `Relay.RegisterRelayContiguous` | ModbusAdapter/Source/ModubsServerServiceExtensions.cs:54-60 | when the changed registers are contiguous, the handler's write is the corrected one |
| `Relay.SpanBits` | ModbusAdapter/Source/ModubsServerServiceExtensions.cs:118-128 | entry `i` is coil `start + i` of the TCP server's coil buffer |
| `Relay.ByteCount` | ModbusAdapter/Source/ModubsServerServiceExtensions.cs:114 | `(byte)Math.Ceiling(q / 8)` is below 256, never more than `ceil(q/8)`, and equal to it up to 2040 coils |
| `Relay.PackedPrefix` | ModbusAdapter/Source/ModubsServerServiceExtensions.cs:118-132 | the target buffer keeps its `byteCount` bytes through the packing loop |
| `Relay.PackedPrefixIsPackInto` | ModbusAdapter/Source/ModubsServerServiceExtensions.cs:116-132 | after `i` passes the target buffer holds coils `start .. start+i-1` packed LSB first into `byteCount` bytes |
| `Relay.FitsTargetFaults` | ModbusAdapter/Source/ModubsServerServiceExtensions.cs:118-132 | the loop gets through the first `i` coils without throwing exactly when none of them that is on falls past the target |
| `Relay.PackCoil` | ModbusAdapter/Source/ModubsServerServiceExtensions.cs:120-131 | one pass throws exactly when coil `start + i` is on and byte `i / 8` is past the target; otherwise the target becomes `PackedPrefix` of one more coil |
| `Relay.PackLoop` | ModbusAdapter/Source/ModubsServerServiceExtensions.cs:118-132 | the loop either throws at a coil that is on and past the target, or takes every coil and leaves `PackedPrefix` of all of them |
| `Relay.PackChangedCoils` | ModbusAdapter/Source/ModubsServerServiceExtensions.cs:116-132 | the packing loop throws exactly when a coil that is on falls past the truncated buffer; otherwise target bit `i % 8` of byte `i / 8` is coil `start + i` for every `i < q`, and all other target bits are 0 |
| `Relay.CoilRelaySpec` | ModbusAdapter/Source/ModubsServerServiceExtensions.cs:110-174 | an empty list does nothing; a handler that throws does so before any bus traffic |
| `Relay.ForwardCoilByte` | ModbusAdapter/Source/ModubsServerServiceExtensions.cs:136-171 | one pass over a target byte appends that byte's events and log lines and leaves the lock free |
| `Relay.ForwardCoilBytes` | ModbusAdapter/Source/ModubsServerServiceExtensions.cs:134-174 | the loop over the target buffer appends each byte's events and log lines, in order |
| `Relay.CoilsChanged` | ModbusAdapter/Source/ModubsServerServiceExtensions.cs:100-179 | on the live buffers and the bus, the bus events, the log and whether the handler throws are those of `CoilRelaySpec` over the unit's coils |
| `Relay.CoilRelaySingle` | ModbusAdapter/Source/ModubsServerServiceExtensions.cs:150-156 | one changed coil is sent as one Write Single Coil of its image value at its address, under the lock, and a failure is logged |
| `Relay.CoilRelaySmallSpan` | ModbusAdapter/Source/ModubsServerServiceExtensions.cs:143-149 | a span of 2 to 8 coils is sent as one Write Multiple Coils of the image's coils of the span, so every changed coil goes with its current value, and nothing is logged |
| `Relay.WideSpanWrites` | ModbusAdapter/Source/ModubsServerServiceExtensions.cs:145-148 | with more than 8 coils every target byte takes and gives back the lock, makes no call and logs one failure |
| `Relay.CoilRelayDropsWideSpan` | ModbusAdapter/Source/ModubsServerServiceExtensions.cs:143-167 | a span of 9 to 2040 coils makes no RTU write at all and logs one failure per target byte |
| `Relay.CoilRelayDropsNineCoils` | ModbusAdapter/Source/ModubsServerServiceExtensions.cs:143-167 | changed coils 0 and 8 make no RTU write |
| `Relay.CorrectedCoilRelayCall` | ModbusAdapter/Source/ModubsServerServiceExtensions.cs:143-156 | one write to the notified unit at the first changed address: Write Single Coil of the image value exactly when the span is one coil, otherwise Write Multiple Coils of the image coils of the whole span |
| `Relay.CorrectedCoilRelayCovers` | ModbusAdapter/Source/ModubsServerServiceExtensions.cs:143-156 | that write carries every changed coil with its image value, whatever the span |
| `Relay.CoilRelayDisciplined` | ModbusAdapter/Source/ModubsServerServiceExtensions.cs:139-171 | whatever the change, the coil handler makes every call while it holds the lock and ends with the lock free, on the failure paths too |
| `Relay.CoilWritesDisciplined` | ModbusAdapter/Source/ModubsServerServiceExtensions.cs:134-174 | the loop over any target buffer keeps the lock discipline |

## Left out

- Concurrency. The lock keeps the discipline only for one task's trace: it
  is never misused, every call is made while it is held, and it is free at
  the end. Mutual exclusion between tasks, and other tasks changing a
  buffer while a handler reads it, are not modelled.
- The unawaited `WriteMultipleCoilsAsync`. It is recorded as a call made
  while the lock is held. In the code it can still be running after the
  lock is released, and its failure is never observed. The model logs
  nothing for it.
- The passage of time and the cancellation token. A run is given the
  cycles that start before cancellation. Of `Task.Delay` only its effect on
  whether a next cycle starts is kept: a delay below -1 throws, -1 waits
  until cancellation, and any other delay lets the next cycle start.
- Dependency-injection wiring, the logger factory, TCP server start and
  dispose, and connecting the RTU client. The null checks on the resolved
  services also belong here: the model assumes both services are present.
- FluentModbus framing, CRC and serial/socket I/O. A read is one
  `ReadReply` per block, and an awaited write is a `writeOk` flag.
- The text of log messages, `ex.Message` and `ex.StackTrace`. Only which
  block or address is reported is kept.
- Relay.RegistersChanged, Relay.CoilsChanged: require that the notified unit exists and that the
  addresses are strictly increasing and within 0..65535, because the TCP
  server raises change events only in that form.
- Relay.CoilRelaySpec: a handler that throws is reported as `faulted` with
  no further effect. What an uncaught exception in an `async void`
  handler does to the process is not modelled.
- Relay.CorrectedCoilRelayCall: does not split a span above 1968 coils,
  the most one Write Multiple Coils request may carry (section 6.11 of the
  Modbus Application Protocol Specification V1.1b3).
- `ModbusSerialPortConfiguration`, `ConfigurationHelper` (JSON loading) and
  the endianness setting of the RTU client; none changes the core's data.
- `Math.Ceiling` on a `double` is modelled as the integer `(q + 7) / 8`.
  It is exact for every span of at most 65536 coils.
- Relay.ByteCount: above 2040 coils the `(byte)` conversion is out of range, and C# does not fix its result (.NET 9 saturates to 255). The model reduces it modulo 256, and its contract promises only a value below 256. One Write Multiple Coils request carries at most 1968 coils, so such spans do not arise from a single request.
- Bits.UnpackBits: reads a coil past the end of the buffer as off. The decode loop instead throws at `coils.Span[i / 8]`; that path is modelled by `Scan.DecodeCoilBlock` and `Scan.StoredCoils`, not by `UnpackBits`.

## Findings

| source | as written | input that shows it | evidently intended | confidence | as-written member | corrected member |
|---|---|---|---|---|---|---|
| ModbusAdapter/Source/ModubsServerServiceExtensions.cs:143-148 | each target byte's eight-entry array is sliced with `Slice(0, quantityOfCoils)`, which throws for more than 8 coils; the exception is caught and logged | changed coils 0 and 8 (a span of 9 coils): two failure entries (four log lines), no RTU write | one Write Multiple Coils of the whole span, with the image's value of every coil in it | high, not executed | `Relay.CoilRelayDropsNineCoils` (and `Relay.CoilRelayDropsWideSpan`) | `Relay.CorrectedCoilRelayCall`, proved by `Relay.CorrectedCoilRelayCovers` |
| ModbusAdapter/Source/ModubsServerServiceExtensions.cs:54-60 | the number of registers written is the number of changed addresses, not the distance from the first to the last | changed registers 3 and 5 (register 4 rewritten with its own value): the write covers registers 3 and 4, never 5 | write the span from the first to the last changed register | medium, not executed; relies on the TCP server reporting only the registers whose value changed | `Relay.RegisterRelayMissesChange` | `Relay.CorrectedRegisterRelayCall`, proved by `Relay.CorrectedRegisterRelayCovers` |

`Relay.RegistersChanged` and `Relay.CoilsChanged` model the handlers as written.
`Relay.RegisterRelayContiguous` shows that the two register writes agree whenever the changed registers are contiguous.
