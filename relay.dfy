/**
 * The change relay: when a TCP client changes holding registers or coils of
 * a unit, the TCP server reports the changed addresses and the gateway
 * forwards the new values from its image to the RTU device, under the same
 * lock the scan cycle uses.
 */
module Relay {
  import opened Bits
  import opened Configuration
  import opened Bus
  import opened Image

  /** The effect of one change event: bus events, log lines, and whether the handler threw uncaught. */
  datatype RelayResult = RelayResult(events: seq<BusEvent>, log: seq<LogEntry>, faulted: bool)

  /**
   * A list of changed addresses as the TCP server reports it: valid
   * addresses, strictly increasing.
   */
  predicate Ascending(addrs: seq<int>)
  {
    && (forall i :: 0 <= i < |addrs| ==> 0 <= addrs[i] < 65536)
    && (forall i, j :: 0 <= i < j < |addrs| ==> addrs[i] < addrs[j])
  }

  /**
   * A strictly increasing list spans at least as many addresses as it has
   * entries, so its first address plus its length stays within the
   * 65536-address space.
   */
  lemma {:induction false} AscendingSpan(addrs: seq<int>)
    requires Ascending(addrs) && addrs != []
    ensures addrs[0] + |addrs| - 1 <= addrs[|addrs| - 1]
    ensures addrs[0] + |addrs| <= 65536
  {
    if |addrs| > 1 {
      var rest := addrs[..|addrs| - 1];
      assert Ascending(rest);
      AscendingSpan(rest);
      assert rest[|rest| - 1] < addrs[|addrs| - 1];
    }
  }

  /** The number of addresses from the first to the last entry of a non-empty list. */
  function Span(addrs: seq<int>): (q: int)
    requires Ascending(addrs) && addrs != []
    ensures |addrs| <= q && addrs[0] + q <= 65536
  {
    AscendingSpan(addrs);
    addrs[|addrs| - 1] - addrs[0] + 1
  }

  /** Every entry of the list lies within its span. */
  lemma InSpan(addrs: seq<int>, i: int)
    requires Ascending(addrs) && 0 <= i < |addrs|
    ensures 0 <= addrs[i] - addrs[0] < Span(addrs)
  {
    if i > 0 {
      assert addrs[0] < addrs[i];
    }
    if i < |addrs| - 1 {
      assert addrs[i] < addrs[|addrs| - 1];
    }
  }

  // ---------------------------------------------------------------------
  // Holding registers
  // ---------------------------------------------------------------------

  /** The handler's slice of the byte view holds the bytes of `count` registers from `start`, and reads back as them. */
  lemma RegisterSliceBytes(registers: seq<RawWord>, start: nat, count: nat)
    requires start + count <= |registers|
    ensures var bytes := BytesOf(registers)[start * 2 .. start * 2 + count * 2];
      bytes == BytesOf(registers[start .. start + count]) && WordsOf(bytes) == registers[start .. start + count]
  {
    var part := registers[start .. start + count];
    BytesOfSlice(registers, start, count);
    assert BytesOf(registers)[start * 2 .. start * 2 + count * 2] == BytesOf(part);
    WordsOfBytesOf(part);
  }

  /**
   * The RTU write the register handler issues: the bytes of `|addrs|`
   * registers from the first changed address, as one Write Multiple
   * Registers when that is more than one register and as one Write Single
   * Register otherwise.
   */
  function RegisterRelayCall(registers: seq<RawWord>, unit: UnitId, addrs: seq<int>): (c: RtuCall)
    requires |registers| == RegisterBankWords && Ascending(addrs) && addrs != []
    ensures c.WriteMultipleRegisters? || c.WriteSingleRegister?
    ensures c.unit == unit && c.address == addrs[0]
    ensures c.WriteMultipleRegisters? <==> |addrs| >= 2
    ensures addrs[0] + |addrs| <= RegisterBankWords
    ensures c.bytes == BytesOf(registers[addrs[0] .. addrs[0] + |addrs|])
    ensures WordsOf(c.bytes) == registers[addrs[0] .. addrs[0] + |addrs|]
  {
    AscendingSpan(addrs);
    var start := addrs[0];
    var count := |addrs|;
    RegisterSliceBytes(registers, start, count);
    var bytes := BytesOf(registers)[start * 2 .. start * 2 + count * 2];
    if |bytes| > 2 then WriteMultipleRegisters(unit, start, bytes) else WriteSingleRegister(unit, start, bytes)
  }

  /**
   * The `RegistersChanged` handler. It reads `Registers[0]` before it
   * checks the length, so an empty list throws out of the handler
   * (`faulted`). Otherwise it slices the unit's register bytes, writes them
   * to the RTU device under the lock and logs a write that throws.
   */
  method RegistersChanged(server: TcpServer, bus: SerialBus, unit: UnitId, addrs: seq<int>, writeOk: bool)
    returns (log: seq<LogEntry>, faulted: bool)
    requires server.Valid() && bus.Valid() && !bus.held
    requires unit in server.units && Ascending(addrs)
    modifies bus
    ensures bus.Valid() && !bus.held
    ensures faulted <==> addrs == []
    ensures faulted ==> bus.trace == old(bus.trace) && log == []
    ensures !faulted ==>
      && bus.trace == old(bus.trace) + [Acquire, Call(RegisterRelayCall(server.units[unit].registers[..], unit, addrs)), Release]
      && log == if writeOk then [] else [RelayFailed(unit, addrs[0])]
  {
    if |addrs| == 0 {
      // registerAddresses.Registers[0] is out of range
      return [], true;
    }
    var buffer := server.units[unit].registers;
    var call := RegisterRelayCall(buffer[..], unit, addrs);
    bus.Exclusive(call);
    log := if writeOk then [] else [RelayFailed(unit, addrs[0])];
    faulted := false;
  }

  /**
   * With changed registers 3 and 5 (register 4 written with its own value),
   * the handler writes registers 3 and 4 only: the write ends before
   * register 5, whose change is never forwarded.
   */
  lemma RegisterRelayMissesChange(registers: seq<RawWord>, unit: UnitId)
    requires |registers| == RegisterBankWords
    ensures Ascending([3, 5])
    ensures var c := RegisterRelayCall(registers, unit, [3, 5]);
      c.address == 3 && c.address + |c.bytes| / 2 <= 5
  {
    assert Ascending([3, 5]);
  }

  /** The register write that forwards every changed register: the whole span from the first to the last address. */
  function CorrectedRegisterRelayCall(registers: seq<RawWord>, unit: UnitId, addrs: seq<int>): (c: RtuCall)
    requires |registers| == RegisterBankWords && Ascending(addrs) && addrs != []
    ensures c.WriteMultipleRegisters? || c.WriteSingleRegister?
    ensures c.unit == unit && c.address == addrs[0]
    ensures addrs[0] + Span(addrs) <= RegisterBankWords
    ensures WordsOf(c.bytes) == registers[addrs[0] .. addrs[0] + Span(addrs)]
  {
    var start := addrs[0];
    var count := Span(addrs);
    RegisterSliceBytes(registers, start, count);
    var bytes := BytesOf(registers)[start * 2 .. start * 2 + count * 2];
    if |bytes| > 2 then WriteMultipleRegisters(unit, start, bytes) else WriteSingleRegister(unit, start, bytes)
  }

  /** The corrected write covers every changed register and carries its value from the image. */
  lemma CorrectedRegisterRelayCovers(registers: seq<RawWord>, unit: UnitId, addrs: seq<int>)
    requires |registers| == RegisterBankWords && Ascending(addrs) && addrs != []
    ensures var c := CorrectedRegisterRelayCall(registers, unit, addrs);
      forall i :: 0 <= i < |addrs| ==>
        && c.address <= addrs[i] < c.address + |c.bytes| / 2
        && WordsOf(c.bytes)[addrs[i] - c.address] == registers[addrs[i]]
  {
    var start := addrs[0];
    var count := Span(addrs);
    var c := CorrectedRegisterRelayCall(registers, unit, addrs);
    var words := WordsOf(c.bytes);
    assert words == registers[start .. start + count];
    assert |c.bytes| / 2 == count;
    forall i | 0 <= i < |addrs|
      ensures start <= addrs[i] < start + count
      ensures words[addrs[i] - start] == registers[addrs[i]]
    {
      InSpan(addrs, i);
    }
  }

  /**
   * When the changed registers are contiguous the handler's write is the
   * corrected one, so it then forwards every change.
   */
  lemma RegisterRelayContiguous(registers: seq<RawWord>, unit: UnitId, addrs: seq<int>)
    requires |registers| == RegisterBankWords && Ascending(addrs) && addrs != []
    requires Span(addrs) == |addrs|
    ensures RegisterRelayCall(registers, unit, addrs) == CorrectedRegisterRelayCall(registers, unit, addrs)
  {
  }

  // ---------------------------------------------------------------------
  // Coils
  // ---------------------------------------------------------------------

  /** The image's coils `start .. start + q - 1`, in address order. */
  function SpanBits(coils: seq<byte>, start: nat, q: nat): (bits: seq<bool>)
    requires |coils| == CoilBankBytes && start + q <= 65536
    ensures |bits| == q
    ensures forall i :: 0 <= i < q ==> bits[i] == CoilAt(coils, start + i)
  {
    seq(q, i requires 0 <= i < q => CoilAt(coils, start + i))
  }

  /**
   * `(byte)Math.Ceiling((double)q / 8)`: the bytes for `q` coils. Above
   * 2040 coils the conversion is out of the byte range, where its result is
   * not fixed; the model reduces it modulo 256, and the contract promises
   * only a value below 256.
   */
  function ByteCount(q: nat): (n: nat)
    ensures n < 256 && n <= (q + 7) / 8
    ensures q <= 2040 ==> n == (q + 7) / 8
  {
    ((q + 7) / 8) % 256
  }

  /**
   * Whether the packing loop throws: the target buffer is only written for
   * coils that are on, so it throws exactly when a coil that is on falls
   * past the (truncated) buffer.
   */
  predicate PackFaults(bits: seq<bool>, n: nat)
  {
    exists i :: 0 <= i < |bits| && i / 8 >= n && bits[i]
  }

  /** The target buffer once the packing loop has taken the first `i` coils without throwing. */
  function PackedPrefix(bits: seq<bool>, i: nat, n: nat): (r: seq<byte>)
    requires i <= |bits|
    ensures |r| == n
  {
    if i == 0 then seq(n, _ => 0)
    else
      var before := PackedPrefix(bits, i - 1, n);
      if bits[i - 1] && (i - 1) / 8 < n then before[(i - 1) / 8 := SetBit(before[(i - 1) / 8], (i - 1) % 8, true)]
      else before
  }

  /** One pass of the packing loop: a coil that is on sets its bit of the target, one that is off changes nothing. */
  lemma PackedPrefixNext(bits: seq<bool>, i: nat, n: nat)
    requires i < |bits|
    ensures var before := PackedPrefix(bits, i, n);
      PackedPrefix(bits, i + 1, n) ==
        if bits[i] && i / 8 < n then before[i / 8 := SetBit(before[i / 8], i % 8, true)] else before
  {
  }

  /** The loop's buffer is the first `i` coils packed LSB first into `n` bytes. */
  lemma {:induction false} PackedPrefixIsPackInto(bits: seq<bool>, i: nat, n: nat)
    requires i <= |bits|
    ensures PackedPrefix(bits, i, n) == PackInto(bits[..i], n)
  {
    if i == 0 {
      assert bits[..0] == [];
      PackIntoNothing(n);
    } else {
      var before := PackedPrefix(bits, i - 1, n);
      var after := if bits[i - 1] && (i - 1) / 8 < n then before[(i - 1) / 8 := SetBit(before[(i - 1) / 8], (i - 1) % 8, true)] else before;
      PackedPrefixIsPackInto(bits, i - 1, n);
      assert before == PackInto(bits[..i - 1], n);
      PackIntoStep(bits, i - 1, n);
      assert PackInto(bits[..i], n) == after;
    }
  }

  /** No coil among the first `i` that is on falls past an `n`-byte target. */
  predicate FitsTarget(bits: seq<bool>, i: nat, n: nat)
    requires i <= |bits|
  {
    i == 0 || (FitsTarget(bits, i - 1, n) && !(bits[i - 1] && (i - 1) / 8 >= n))
  }

  /** Packing throws exactly when not all the coils fit the target. */
  lemma {:induction false} FitsTargetFaults(bits: seq<bool>, i: nat, n: nat)
    requires i <= |bits|
    ensures FitsTarget(bits, i, n) <==> !PackFaults(bits[..i], n)
  {
    if i > 0 {
      FitsTargetFaults(bits, i - 1, n);
      assert bits[..i][..i - 1] == bits[..i - 1];
      if bits[i - 1] && (i - 1) / 8 >= n {
        assert bits[..i][i - 1] == bits[i - 1];
      } else if PackFaults(bits[..i], n) {
        var j :| 0 <= j < i && j / 8 >= n && bits[..i][j];
        assert j < i - 1 && bits[..i - 1][j];
      }
    }
  }

  /**
   * One pass of the packing loop of `CoilsChanged`: when coil `start + i` of
   * the live buffer is on, set bit `i % 8` of target byte `i / 8`, which
   * throws when that byte is past the end of the target.
   */
  method PackCoil(buffer: array<byte>, target: array<byte>, start: nat, q: nat, i: nat, ghost bits: seq<bool>)
    returns (outOfRange: bool)
    requires buffer.Length == CoilBankBytes && start + q <= 65536 && i < q && target != buffer
    requires bits == SpanBits(buffer[..], start, q)
    requires target[..] == PackedPrefix(bits, i, target.Length)
    modifies target
    ensures outOfRange <==> bits[i] && i / 8 >= target.Length
    ensures outOfRange ==> target[..] == old(target[..])
    ensures !outOfRange ==> target[..] == PackedPrefix(bits, i + 1, target.Length)
  {
    // bit (start + i) % 8 of source byte (start + i) / 8
    var isSet := CoilAt(buffer[..], start + i);
    var targetByteIndex := i / 8;
    var targetBitIndex := i % 8;
    PackedPrefixNext(bits, i, target.Length);
    if isSet {
      if targetByteIndex >= target.Length {
        // targetBuffer[targetByteIndex] is out of range
        return true;
      }
      ghost var before := target[..];
      target[targetByteIndex] := SetBit(target[targetByteIndex], targetBitIndex, true);
      assert target[..] == before[targetByteIndex := SetBit(before[targetByteIndex], targetBitIndex, true)];
    }
    outOfRange := false;
  }

  /**
   * The packing loop of `CoilsChanged` over a zeroed target: it stops,
   * throwing, at the first coil that is on and falls past the target.
   */
  method PackLoop(buffer: array<byte>, target: array<byte>, start: nat, q: nat, ghost bits: seq<bool>)
    returns (faulted: bool)
    requires buffer.Length == CoilBankBytes && start + q <= 65536 && target != buffer
    requires bits == SpanBits(buffer[..], start, q)
    requires target[..] == PackedPrefix(bits, 0, target.Length)
    modifies target
    ensures faulted ==> PackFaults(bits, target.Length)
    ensures !faulted ==> FitsTarget(bits, q, target.Length) && target[..] == PackedPrefix(bits, q, target.Length)
  {
    var i := 0;
    while i < q
      invariant 0 <= i <= q
      invariant target[..] == PackedPrefix(bits, i, target.Length)
      invariant FitsTarget(bits, i, target.Length)
    {
      var outOfRange := PackCoil(buffer, target, start, q, i, bits);
      if outOfRange {
        assert i < |bits| && i / 8 >= target.Length && bits[i];
        return true;
      }
      i := i + 1;
    }
    faulted := false;
  }

  /**
   * The packing step of `CoilsChanged`: coil `start + i` of the live buffer
   * goes to bit `i % 8` of byte `i / 8` of a fresh, zeroed `n`-byte target.
   */
  method PackChangedCoils(buffer: array<byte>, start: nat, q: nat, n: nat) returns (target: array<byte>, faulted: bool)
    requires buffer.Length == CoilBankBytes && start + q <= 65536
    ensures fresh(target) && target.Length == n
    ensures faulted <==> PackFaults(SpanBits(buffer[..], start, q), n)
    ensures !faulted ==> target[..] == PackInto(SpanBits(buffer[..], start, q), n)
  {
    ghost var bits := SpanBits(buffer[..], start, q);
    target := new byte[n](_ => 0);
    assert target[..] == PackedPrefix(bits, 0, n);
    faulted := PackLoop(buffer, target, start, q, bits);
    if !faulted {
      PackedPrefixIsPackInto(bits, q, n);
      FitsTargetFaults(bits, q, n);
      assert bits[..q] == bits;
    }
  }

  /**
   * One iteration of the loop over the target buffer. With more than one
   * coil the handler starts a Write Multiple Coils of the first `q` of the
   * byte's eight coils, which throws (and is logged) when `q > 8` and is not
   * awaited otherwise; with one coil it awaits a Write Single Coil and logs
   * its failure.
   */
  function CoilByteStep(unit: UnitId, start: nat, q: nat, b: byte, writeOk: bool): (r: (seq<BusEvent>, seq<LogEntry>))
  {
    var coils := ByteToCoils(b);
    if q > 1 then
      if q <= 8 then ([Acquire, Call(WriteMultipleCoils(unit, start, coils[..q])), Release], [])
      else ([Acquire, Release], [RelayFailed(unit, start)])
    else ([Acquire, Call(WriteSingleCoil(unit, start, coils[0])), Release], if writeOk then [] else [RelayFailed(unit, start)])
  }

  /** The loop over the target buffer: one step per byte, in order. */
  function CoilWrites(unit: UnitId, start: nat, q: nat, target: seq<byte>, writeOk: bool): (r: (seq<BusEvent>, seq<LogEntry>))
    decreases |target|
  {
    if target == [] then ([], [])
    else
      var before := CoilWrites(unit, start, q, target[..|target| - 1], writeOk);
      var last := CoilByteStep(unit, start, q, target[|target| - 1], writeOk);
      (before.0 + last.0, before.1 + last.1)
  }

  /** One more byte of the target buffer adds its step to the writes so far. */
  lemma CoilWritesSnoc(unit: UnitId, start: nat, q: nat, prefix: seq<byte>, b: byte, writeOk: bool)
    ensures var prev := CoilWrites(unit, start, q, prefix, writeOk);
      var step := CoilByteStep(unit, start, q, b, writeOk);
      CoilWrites(unit, start, q, prefix + [b], writeOk) == (prev.0 + step.0, prev.1 + step.1)
  {
    assert (prefix + [b])[..|prefix|] == prefix;
  }

  /**
   * The `CoilsChanged` handler on an image coil bank: nothing for an empty
   * list; otherwise the coils from the first to the last changed address
   * are packed into `ByteCount` bytes and each byte is forwarded under the
   * lock.
   */
  function CoilRelaySpec(coils: seq<byte>, unit: UnitId, addrs: seq<int>, writeOk: bool): (r: RelayResult)
    requires |coils| == CoilBankBytes && Ascending(addrs)
    ensures addrs == [] ==> r == RelayResult([], [], false)
    ensures r.faulted ==> r.events == [] && r.log == []
  {
    if addrs == [] then RelayResult([], [], false)
    else
      var start := addrs[0];
      var q := Span(addrs);
      var bits := SpanBits(coils, start, q);
      var n := ByteCount(q);
      if PackFaults(bits, n) then RelayResult([], [], true)
      else
        var w := CoilWrites(unit, start, q, PackInto(bits, n), writeOk);
        RelayResult(w.0, w.1, false)
  }

  /**
   * One pass of the loop over the target buffer: the byte's coils in
   * LSB-first order, then a lock, the write and the release.
   */
  method ForwardCoilByte(bus: SerialBus, unit: UnitId, startingAddress: nat, quantityOfCoils: nat,
                         b: byte, writeOk: bool)
    returns (entries: seq<LogEntry>)
    requires bus.Valid() && !bus.held
    modifies bus
    ensures bus.Valid() && !bus.held
    ensures var step := CoilByteStep(unit, startingAddress, quantityOfCoils, b, writeOk);
      bus.trace == old(bus.trace) + step.0 && entries == step.1
  {
    var coils := ByteToCoils(b);
    if quantityOfCoils > 1 {
      if quantityOfCoils <= 8 {
        bus.Exclusive(WriteMultipleCoils(unit, startingAddress, coils[..quantityOfCoils]));
        entries := [];
      } else {
        // coils.AsSpan().Slice(0, quantityOfCoils) is out of range
        bus.Acquire();
        entries := [RelayFailed(unit, startingAddress)];
        bus.Release();
      }
    } else {
      bus.Exclusive(WriteSingleCoil(unit, startingAddress, coils[0]));
      entries := if writeOk then [] else [RelayFailed(unit, startingAddress)];
    }
  }

  /** The loop over the target buffer, one pass per byte. */
  method ForwardCoilBytes(bus: SerialBus, unit: UnitId, startingAddress: nat, quantityOfCoils: nat,
                          targetBuffer: array<byte>, writeOk: bool)
    returns (log: seq<LogEntry>)
    requires bus.Valid() && !bus.held
    modifies bus
    ensures bus.Valid() && !bus.held
    ensures var w := CoilWrites(unit, startingAddress, quantityOfCoils, targetBuffer[..], writeOk);
      bus.trace == old(bus.trace) + w.0 && log == w.1
  {
    log := [];
    ghost var trace0 := bus.trace;
    for t := 0 to targetBuffer.Length
      invariant bus.Valid() && !bus.held
      invariant var w := CoilWrites(unit, startingAddress, quantityOfCoils, targetBuffer[..t], writeOk);
        bus.trace == trace0 + w.0 && log == w.1
    {
      ghost var prev := CoilWrites(unit, startingAddress, quantityOfCoils, targetBuffer[..t], writeOk);
      ghost var step := CoilByteStep(unit, startingAddress, quantityOfCoils, targetBuffer[t], writeOk);
      var entries := ForwardCoilByte(bus, unit, startingAddress, quantityOfCoils, targetBuffer[t], writeOk);
      log := log + entries;
      AppendAssociative(trace0, prev.0, step.0);
      assert targetBuffer[..t + 1] == targetBuffer[..t] + [targetBuffer[t]];
      CoilWritesSnoc(unit, startingAddress, quantityOfCoils, targetBuffer[..t], targetBuffer[t], writeOk);
    }
    assert targetBuffer[..targetBuffer.Length] == targetBuffer[..];
  }

  /**
   * The `CoilsChanged` handler on the live buffers: nothing for an empty
   * list, then the packing loop and the loop over the target buffer.
   */
  method CoilsChanged(server: TcpServer, bus: SerialBus, unit: UnitId, addrs: seq<int>, writeOk: bool)
    returns (log: seq<LogEntry>, faulted: bool)
    requires server.Valid() && bus.Valid() && !bus.held
    requires unit in server.units && Ascending(addrs)
    modifies bus
    ensures bus.Valid() && !bus.held
    ensures var r := CoilRelaySpec(server.units[unit].coils[..], unit, addrs, writeOk);
      bus.trace == old(bus.trace) + r.events && log == r.log && faulted == r.faulted
  {
    if |addrs| == 0 {
      return [], false;
    }
    var startingAddress := addrs[0];
    var quantityOfCoils := Span(addrs);
    var byteCount := ByteCount(quantityOfCoils);
    var buffer := server.units[unit].coils;
    ghost var bits := SpanBits(buffer[..], startingAddress, quantityOfCoils);
    var targetBuffer;
    targetBuffer, faulted := PackChangedCoils(buffer, startingAddress, quantityOfCoils, byteCount);
    if faulted {
      assert PackFaults(bits, byteCount);
      return [], true;
    }
    log := ForwardCoilBytes(bus, unit, startingAddress, quantityOfCoils, targetBuffer, writeOk);
    assert !PackFaults(bits, byteCount) && targetBuffer[..] == PackInto(bits, byteCount);
  }

  /** One changed coil is forwarded as one Write Single Coil of its image value. */
  lemma CoilRelaySingle(coils: seq<byte>, unit: UnitId, addrs: seq<int>, writeOk: bool)
    requires |coils| == CoilBankBytes && Ascending(addrs) && |addrs| == 1
    ensures var r := CoilRelaySpec(coils, unit, addrs, writeOk);
      && !r.faulted
      && r.events == [Acquire, Call(WriteSingleCoil(unit, addrs[0], CoilAt(coils, addrs[0]))), Release]
      && r.log == if writeOk then [] else [RelayFailed(unit, addrs[0])]
  {
    var start := addrs[0];
    assert Span(addrs) == 1 && ByteCount(1) == 1;
    var bits := SpanBits(coils, start, 1);
    var target := PackInto(bits, 1);
    assert !PackFaults(bits, 1);
    assert target[..0] == [];
    assert ByteToCoils(target[0])[0] == Bit(target[0], 0) == bits[0] == CoilAt(coils, start);
    var step := CoilByteStep(unit, start, 1, target[0], writeOk);
    assert CoilWrites(unit, start, 1, target[..0], writeOk) == ([], []);
    assert |target| - 1 == 0 && target[|target| - 1] == target[0];
    assert CoilWrites(unit, start, 1, target, writeOk) == ([] + step.0, [] + step.1);
  }

  /**
   * A span of two to eight coils is forwarded as one Write Multiple Coils
   * whose values are the image's coils of the span, so every changed coil
   * is sent with its current value.
   */
  lemma CoilRelaySmallSpan(coils: seq<byte>, unit: UnitId, addrs: seq<int>, writeOk: bool)
    requires |coils| == CoilBankBytes && Ascending(addrs) && addrs != []
    requires 2 <= Span(addrs) <= 8
    ensures var r := CoilRelaySpec(coils, unit, addrs, writeOk);
      var values := SpanBits(coils, addrs[0], Span(addrs));
      && !r.faulted && r.log == []
      && r.events == [Acquire, Call(WriteMultipleCoils(unit, addrs[0], values)), Release]
      && forall i :: 0 <= i < |addrs| ==>
           0 <= addrs[i] - addrs[0] < |values| && values[addrs[i] - addrs[0]] == CoilAt(coils, addrs[i])
  {
    var start := addrs[0];
    var q := Span(addrs);
    var bits := SpanBits(coils, start, q);
    assert ByteCount(q) == 1;
    var target := PackInto(bits, 1);
    assert !PackFaults(bits, 1);
    assert target[..0] == [];
    var step := CoilByteStep(unit, start, q, target[0], writeOk);
    assert CoilWrites(unit, start, q, target[..0], writeOk) == ([], []);
    assert |target| - 1 == 0 && target[|target| - 1] == target[0];
    assert CoilWrites(unit, start, q, target, writeOk) == ([] + step.0, [] + step.1);
    var sent := ByteToCoils(target[0])[..q];
    forall i | 0 <= i < q
      ensures sent[i] == bits[i]
    {
      assert sent[i] == Bit(target[0], i);
    }
    assert sent == bits;
    forall i | 0 <= i < |addrs|
      ensures 0 <= addrs[i] - start < q
    {
      InSpan(addrs, i);
    }
  }

  /** Every byte of a span wider than eight coils takes and gives back the lock and logs one failure, with no write. */
  lemma {:induction false} WideSpanWrites(unit: UnitId, start: nat, q: nat, target: seq<byte>, writeOk: bool)
    requires q > 8
    ensures var w := CoilWrites(unit, start, q, target, writeOk);
      && Calls(w.0) == []
      && Disciplined(w.0)
      && w.1 == seq(|target|, _ => RelayFailed(unit, start))
    decreases |target|
  {
    if target == [] {
      assert LockAfter([], false) == Some(false);
    } else {
      var n := |target| - 1;
      var before := CoilWrites(unit, start, q, target[..n], writeOk);
      WideSpanWrites(unit, start, q, target[..n], writeOk);
      var t: seq<BusEvent> := [Acquire, Release];
      assert t[..1][..0] == [];
      assert LockAfter(t[..1], false) == Some(true);
      assert Calls(t[..1]) == [];
      CallsAppend(before.0, t);
      DisciplinedAppend(before.0, t);
    }
  }

  /**
   * A span of 9 to 2040 coils is never forwarded: the handler logs one
   * failure per target byte and issues no RTU write at all, although the
   * coils changed (with changed coils 0 and 8, for instance).
   */
  lemma CoilRelayDropsWideSpan(coils: seq<byte>, unit: UnitId, addrs: seq<int>, writeOk: bool)
    requires |coils| == CoilBankBytes && Ascending(addrs) && addrs != []
    requires 8 < Span(addrs) <= 2040
    ensures var r := CoilRelaySpec(coils, unit, addrs, writeOk);
      && !r.faulted
      && Calls(r.events) == []
      && |r.log| == (Span(addrs) + 7) / 8
  {
    var q := Span(addrs);
    var bits := SpanBits(coils, addrs[0], q);
    var n := ByteCount(q);
    assert !PackFaults(bits, n);
    WideSpanWrites(unit, addrs[0], q, PackInto(bits, n), writeOk);
  }

  /** The concrete case: changed coils 0 and 8 reach the RTU device not at all. */
  lemma CoilRelayDropsNineCoils(coils: seq<byte>, unit: UnitId, writeOk: bool)
    requires |coils| == CoilBankBytes
    ensures Ascending([0, 8]) && Span([0, 8]) == 9
    ensures Calls(CoilRelaySpec(coils, unit, [0, 8], writeOk).events) == []
  {
    assert Ascending([0, 8]);
    CoilRelayDropsWideSpan(coils, unit, [0, 8], writeOk);
  }

  /**
   * The coil write that forwards the whole change: one Write Single Coil for
   * a single coil, otherwise one Write Multiple Coils of the whole span.
   */
  function CorrectedCoilRelayCall(coils: seq<byte>, unit: UnitId, addrs: seq<int>): (c: RtuCall)
    requires |coils| == CoilBankBytes && Ascending(addrs) && addrs != []
    ensures c.WriteSingleCoil? || c.WriteMultipleCoils?
    ensures c.unit == unit && c.address == addrs[0]
    ensures c.WriteSingleCoil? <==> Span(addrs) == 1
    ensures c.WriteSingleCoil? ==> c.value == CoilAt(coils, addrs[0])
    ensures c.WriteMultipleCoils? ==> c.values == SpanBits(coils, addrs[0], Span(addrs))
  {
    var start := addrs[0];
    var q := Span(addrs);
    var bits := SpanBits(coils, start, q);
    if q > 1 then WriteMultipleCoils(unit, start, bits) else WriteSingleCoil(unit, start, bits[0])
  }

  /** The corrected write carries every changed coil with its image value, whatever the span. */
  lemma CorrectedCoilRelayCovers(coils: seq<byte>, unit: UnitId, addrs: seq<int>)
    requires |coils| == CoilBankBytes && Ascending(addrs) && addrs != []
    ensures var c := CorrectedCoilRelayCall(coils, unit, addrs);
      forall i :: 0 <= i < |addrs| ==>
        if c.WriteSingleCoil? then addrs[i] == c.address && c.value == CoilAt(coils, addrs[i])
        else c.address <= addrs[i] < c.address + |c.values| && c.values[addrs[i] - c.address] == CoilAt(coils, addrs[i])
  {
    var start := addrs[0];
    forall i | 0 <= i < |addrs|
      ensures start <= addrs[i] < start + Span(addrs)
    {
      InSpan(addrs, i);
    }
  }

  /** Whatever the change, the coil handler keeps the lock discipline: every write is issued while it holds the lock, and it ends with the lock free. */
  lemma CoilRelayDisciplined(coils: seq<byte>, unit: UnitId, addrs: seq<int>, writeOk: bool)
    requires |coils| == CoilBankBytes && Ascending(addrs)
    ensures Disciplined(CoilRelaySpec(coils, unit, addrs, writeOk).events)
  {
    var r := CoilRelaySpec(coils, unit, addrs, writeOk);
    if addrs == [] || r.faulted {
      assert r.events == [];
      assert LockAfter([], false) == Some(false);
    } else {
      var q := Span(addrs);
      CoilWritesDisciplined(unit, addrs[0], q, PackInto(SpanBits(coils, addrs[0], q), ByteCount(q)), writeOk);
    }
  }

  lemma {:induction false} CoilWritesDisciplined(unit: UnitId, start: nat, q: nat, target: seq<byte>, writeOk: bool)
    ensures Disciplined(CoilWrites(unit, start, q, target, writeOk).0)
    decreases |target|
  {
    if target == [] {
      assert LockAfter([], false) == Some(false);
    } else {
      var n := |target| - 1;
      CoilWritesDisciplined(unit, start, q, target[..n], writeOk);
      var step := CoilByteStep(unit, start, q, target[n], writeOk);
      if q > 1 && q > 8 {
        var t: seq<BusEvent> := [Acquire, Release];
        assert t[..1][..0] == [];
        assert LockAfter(t[..1], false) == Some(true);
      } else {
        match step.0[1] {
          case Call(c) =>
            assert step.0 == [Acquire, Call(c), Release];
            TransactionDisciplined(c);
        }
      }
      DisciplinedAppend(CoilWrites(unit, start, q, target[..n], writeOk).0, step.0);
    }
  }
}
