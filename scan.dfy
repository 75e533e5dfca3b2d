/**
 * The scan cycle of `ModbusScanHostedService`: every configured read block,
 * in list order, is read from the RTU bus while the lock is held, and the
 * response is stored into the unit's coil or holding-register bank once the
 * lock has been given back. A failing block is logged and the cycle moves on.
 */
module Scan {
  import opened Bits
  import opened Configuration
  import opened Bus
  import opened Image

  /** What the RTU client's read gave back: the response data, or an exception. */
  datatype ReadReply = Response(data: seq<byte>) | Failed

  /** The effect of a block, a cycle or a run: the image after it, its bus events, its log lines. */
  datatype ScanResult = ScanResult(image: ImageState, events: seq<BusEvent>, log: seq<LogEntry>)

  // ---------------------------------------------------------------------
  // WriteCoil and WriteRegister
  // ---------------------------------------------------------------------

  /** `WriteCoil`: set or clear one bit of the coil buffer in place. */
  method WriteCoil(coils: array<byte>, value: bool, outputAddress: uint16)
    requires outputAddress as int / 8 < coils.Length
    modifies coils
    ensures coils[..] == SetCoil(old(coils[..]), outputAddress as nat, value)
  {
    var bufferByteIndex := outputAddress as int / 8;
    var bufferBitIndex := outputAddress as int % 8;
    var oldValue := coils[bufferByteIndex];
    coils[bufferByteIndex] := SetBit(oldValue, bufferBitIndex, value);
  }

  /** A register bank after `words` are copied in at `start`: those entries replaced, all others kept. */
  function Overwrite(bank: seq<RawWord>, start: nat, words: seq<RawWord>): (r: seq<RawWord>)
    requires start + |words| <= |bank|
    ensures |r| == |bank|
    ensures forall k :: start <= k < start + |words| ==> r[k] == words[k - start]
    ensures forall k :: 0 <= k < |bank| && !(start <= k < start + |words|) ==> r[k] == bank[k]
  {
    bank[..start] + words + bank[start + |words|..]
  }

  /**
   * `WriteRegister`: `writeData.CopyTo(registers[startAddress..])`. The copy
   * throws, and copies nothing, when the data does not fit behind
   * `startAddress`; `ok` is false exactly then.
   */
  method WriteRegister(registers: array<RawWord>, writeData: seq<RawWord>, startAddress: uint16) returns (ok: bool)
    requires startAddress as int <= registers.Length
    modifies registers
    ensures ok == (startAddress as int + |writeData| <= registers.Length)
    ensures ok ==> registers[..] == Overwrite(old(registers[..]), startAddress as nat, writeData)
    ensures !ok ==> registers[..] == old(registers[..])
  {
    var start := startAddress as int;
    if start + |writeData| > registers.Length {
      return false;
    }
    forall k | start <= k < start + |writeData| {
      registers[k] := writeData[k - start];
    }
    ok := true;
  }

  // ---------------------------------------------------------------------
  // Decoding a coil response
  // ---------------------------------------------------------------------

  /** How many coils the decode loop stores: all `length`, or as many as the response has bits for. */
  function StoredCoils(length: nat, response: seq<byte>): (n: nat)
    ensures n <= length && n <= 8 * |response|
    ensures n == length || n == 8 * |response|
  {
    if length <= 8 * |response| then length else 8 * |response|
  }

  /**
   * The coil bank after the decode loop stored the first `n` coils of a
   * Read Coils response, coil `i` of the response at address
   * `(start + i) mod 65536`, in order of `i`.
   */
  function DecodeCoils(bank: seq<byte>, response: seq<byte>, start: nat, n: nat): (r: seq<byte>)
    requires |bank| == CoilBankBytes && n <= 8 * |response|
    ensures |r| == CoilBankBytes
  {
    if n == 0 then bank
    else SetCoil(DecodeCoils(bank, response, start, n - 1), (start + n - 1) % 65536, CoilAt(response, n - 1))
  }

  /** One more pass of the decode loop stores response coil `n` at `(start + n) mod 65536`. */
  lemma DecodeCoilsNext(bank: seq<byte>, response: seq<byte>, start: nat, n: nat)
    requires |bank| == CoilBankBytes && n < 8 * |response|
    ensures DecodeCoils(bank, response, start, n + 1) ==
      SetCoil(DecodeCoils(bank, response, start, n), (start + n) % 65536, CoilAt(response, n))
  {
  }

  /** The decode loop runs out of response bytes exactly when it has used all their bits. */
  lemma OutOfResponse(i: nat, length: nat, response: seq<byte>)
    requires i < length && i <= 8 * |response| && i / 8 >= |response|
    ensures i == 8 * |response| && StoredCoils(length, response) == i && !(length <= 8 * |response|)
  {
  }

  /**
   * After storing `n` coils from `start`, coil `a` holds response coil
   * `(a - start) mod 65536` when that offset is below `n`, and its old value
   * otherwise.
   */
  lemma {:induction false} DecodeCoilsAt(bank: seq<byte>, response: seq<byte>, start: nat, n: nat, a: nat)
    requires |bank| == CoilBankBytes && n <= 8 * |response| && n <= 65536
    requires start < 65536 && a < 65536
    ensures var i := (a - start) % 65536;
      CoilAt(DecodeCoils(bank, response, start, n), a) ==
        if i < n then CoilAt(response, i) else CoilAt(bank, a)
  {
    if n > 0 {
      DecodeCoilsAt(bank, response, start, n - 1, a);
      LastOffset(start, n, a);
      SetCoilFrame(DecodeCoils(bank, response, start, n - 1), (start + n - 1) % 65536, CoilAt(response, n - 1));
    }
  }

  /** Address `(start + n - 1) mod 65536` is the one at offset `n - 1` from `start`. */
  lemma LastOffset(start: nat, n: nat, a: nat)
    requires start < 65536 && a < 65536 && 1 <= n <= 65536
    ensures (a == (start + n - 1) % 65536) <==> ((a - start) % 65536 == n - 1)
  {
    if a >= start {
      assert (a - start) % 65536 == a - start;
    } else {
      assert (a - start) % 65536 == a - start + 65536;
    }
    if start + n - 1 < 65536 {
      assert (start + n - 1) % 65536 == start + n - 1;
    } else {
      assert (start + n - 1) % 65536 == start + n - 1 - 65536;
    }
  }

  /**
   * The loop of a coil block: for each `i < length`, bit `i % 8` of response
   * byte `i / 8` goes to coil `(ushort)(start + i)`. The loop throws, and
   * stops, at the first `i` whose byte is missing from the response.
   */
  method DecodeCoilBlock(coils: array<byte>, response: seq<byte>, start: uint16, length: uint16) returns (ok: bool)
    requires coils.Length == CoilBankBytes
    modifies coils
    ensures ok == (length as int <= 8 * |response|)
    ensures coils[..] == DecodeCoils(old(coils[..]), response, start as nat, StoredCoils(length as nat, response))
  {
    var i := 0;
    while i < length as int
      invariant 0 <= i <= length as int && i <= 8 * |response|
      invariant coils[..] == DecodeCoils(old(coils[..]), response, start as nat, i)
    {
      if i / 8 >= |response| {
        // coils.Span[i / 8] is out of range
        OutOfResponse(i, length as nat, response);
        return false;
      }
      // bit i % 8 of response byte i / 8
      var value := CoilAt(response, i);
      var address := (start as int + i) % 65536;
      DecodeCoilsNext(old(coils[..]), response, start as nat, i);
      WriteCoil(coils, value, address as uint16);
      i := i + 1;
    }
    ok := true;
  }

  // ---------------------------------------------------------------------
  // One block
  // ---------------------------------------------------------------------

  /** The RTU read a block with a known function issues. */
  function ReadCall(f: Function, b: ReadBuffConfiguration): (c: RtuCall)
    ensures (c.ReadCoils? || c.ReadHoldingRegisters?)
    ensures c.unit == b.station && c.address == b.startAddress as int && c.quantity == b.length as int
    ensures c.ReadCoils? <==> f == Coil
  {
    match f
    case Coil => ReadCoils(b.station, b.startAddress as int, b.length as int)
    case HoldingRegister => ReadHoldingRegisters(b.station, b.startAddress as int, b.length as int)
  }

  /** The bus events of one block: one read under the lock, or none for an unknown function. */
  function BlockEvents(b: ReadBuffConfiguration): seq<BusEvent>
  {
    match FunctionOf(b.functionValue)
    case None => []
    case Some(f) => [Acquire, Call(ReadCall(f, b)), Release]
  }

  function BlockFailure(b: ReadBuffConfiguration): LogEntry
  {
    ReadBlockFailed(b.station, b.startAddress, b.length)
  }

  /**
   * Storing a coil response. With `length == 0` the loop never runs and never
   * looks the unit up; otherwise an unknown unit throws before any coil is
   * written, and a short response throws after the coils it covers.
   */
  function StoreCoilBlock(image: ImageState, b: ReadBuffConfiguration, data: seq<byte>): (r: (ImageState, bool))
    requires WellSizedImage(image)
    ensures WellSizedImage(r.0) && r.0.Keys == image.Keys
  {
    if b.length == 0 then (image, true)
    else if b.station !in image then (image, false)
    else
      var unit := image[b.station];
      var n := StoredCoils(b.length as nat, data);
      var coils := DecodeCoils(unit.coils, data, b.startAddress as nat, n);
      (image[b.station := unit.(coils := coils)], b.length as int <= 8 * |data|)
  }

  /**
   * Storing a holding-register response: the bytes reinterpreted as words
   * and copied in at `startAddress`. Looking up an unknown unit throws, and
   * so does a copy that does not fit; neither changes anything.
   */
  function StoreRegisterBlock(image: ImageState, b: ReadBuffConfiguration, data: seq<byte>): (r: (ImageState, bool))
    requires WellSizedImage(image)
    ensures WellSizedImage(r.0) && r.0.Keys == image.Keys
  {
    if b.station !in image then (image, false)
    else
      var unit := image[b.station];
      var words := WordsOf(data);
      if b.startAddress as int + |words| <= |unit.registers| then
        (image[b.station := unit.(registers := Overwrite(unit.registers, b.startAddress as nat, words))], true)
      else (image, false)
  }

  /**
   * One block of the cycle: the read's bus events, the image after storing
   * its response, and the log line of a failure. A failed read, or an
   * unknown function, leaves the image as it was; no block touches a unit
   * other than its own station.
   */
  function ScanBlockSpec(image: ImageState, b: ReadBuffConfiguration, reply: ReadReply): (r: ScanResult)
    requires WellSizedImage(image)
    ensures WellSizedImage(r.image) && r.image.Keys == image.Keys
    ensures r.events == BlockEvents(b)
    ensures forall s :: s in image && s != b.station ==> r.image[s] == image[s]
    ensures reply.Failed? || FunctionOf(b.functionValue).None? ==> r.image == image
    ensures FunctionOf(b.functionValue).None? ==> r.log == [FunctionNotFound(b.functionValue)]
    ensures FunctionOf(b.functionValue).Some? ==> r.log == [] || r.log == [BlockFailure(b)]
    ensures FunctionOf(b.functionValue).Some? && reply.Failed? ==> r.log == [BlockFailure(b)]
  {
    match FunctionOf(b.functionValue)
    case None => ScanResult(image, [], [FunctionNotFound(b.functionValue)])
    case Some(f) =>
      var events := [Acquire, Call(ReadCall(f, b)), Release];
      match reply
      case Failed => ScanResult(image, events, [BlockFailure(b)])
      case Response(data) =>
        var stored := if f == Coil then StoreCoilBlock(image, b, data) else StoreRegisterBlock(image, b, data);
        ScanResult(stored.0, events, if stored.1 then [] else [BlockFailure(b)])
  }

  /**
   * A coil block whose read succeeded sets coil `(startAddress + i) mod
   * 65536` to bit `i % 8` of response byte `i / 8` for every `i < length`
   * the response covers, and leaves every other coil and the registers as
   * they were. It logs a failure exactly when the response is too short.
   */
  lemma CoilBlockStored(image: ImageState, b: ReadBuffConfiguration, data: seq<byte>, a: nat)
    requires WellSizedImage(image) && b.station in image && a < 65536
    requires FunctionOf(b.functionValue) == Some(Coil)
    ensures var r := ScanBlockSpec(image, b, Response(data));
      var i := (a - b.startAddress as int) % 65536;
      && r.image[b.station].registers == image[b.station].registers
      && CoilAt(r.image[b.station].coils, a) ==
           (if i < b.length as int && i < 8 * |data| then CoilAt(data, i) else CoilAt(image[b.station].coils, a))
      && (r.log == [] <==> b.length as int <= 8 * |data|)
      && (i < StoredCoils(b.length as nat, data) ==>
            CoilAt(r.image[b.station].coils, a) == UnpackBits(data, StoredCoils(b.length as nat, data))[i])
  {
    var n := StoredCoils(b.length as nat, data);
    DecodeCoilsAt(image[b.station].coils, data, b.startAddress as nat, n, a);
  }

  /**
   * A holding-register block whose read succeeded and whose words fit copies
   * the response bytes, two per register, to bytes `2 * startAddress` onward
   * of the unit's register buffer; every other register and the coils keep
   * their values. When the words do not fit, nothing changes and a failure
   * is logged.
   */
  lemma RegisterBlockStored(image: ImageState, b: ReadBuffConfiguration, data: seq<byte>)
    requires WellSizedImage(image) && b.station in image
    requires FunctionOf(b.functionValue) == Some(HoldingRegister)
    ensures var r := ScanBlockSpec(image, b, Response(data));
      var start := b.startAddress as int;
      var count := |data| / 2;
      var before := image[b.station];
      var after := r.image[b.station];
      && after.coils == before.coils
      && (start + count <= RegisterBankWords ==>
            && r.log == []
            && BytesOf(after.registers)[2 * start .. 2 * start + 2 * count] == data[..2 * count]
            && forall k :: 0 <= k < RegisterBankWords && !(start <= k < start + count) ==>
                 after.registers[k] == before.registers[k])
      && (start + count > RegisterBankWords ==> r.image == image && r.log == [BlockFailure(b)])
  {
    var start := b.startAddress as int;
    var words := WordsOf(data);
    var count := |words|;
    if start + count <= RegisterBankWords {
      var after := Overwrite(image[b.station].registers, start, words);
      BytesOfSlice(after, start, count);
      assert after[start .. start + count] == words;
      BytesOfWordsOf(data);
    }
  }

  // ---------------------------------------------------------------------
  // One cycle
  // ---------------------------------------------------------------------

  /** The effect of one cycle over `blocks`, block `j` getting reply `replies[j]`. */
  function ScanCycleSpec(image: ImageState, blocks: seq<ReadBuffConfiguration>, replies: seq<ReadReply>): (r: ScanResult)
    requires WellSizedImage(image) && |replies| == |blocks|
    ensures WellSizedImage(r.image) && r.image.Keys == image.Keys
    decreases |blocks|
  {
    if blocks == [] then ScanResult(image, [], [])
    else
      var n := |blocks| - 1;
      var before := ScanCycleSpec(image, blocks[..n], replies[..n]);
      var last := ScanBlockSpec(before.image, blocks[n], replies[n]);
      ScanResult(last.image, before.events + last.events, before.log + last.log)
  }

  /** One step of the fold: one more block runs after the blocks before it. */
  lemma ScanCycleSnoc(image: ImageState, blocks: seq<ReadBuffConfiguration>, replies: seq<ReadReply>,
                      b: ReadBuffConfiguration, reply: ReadReply)
    requires WellSizedImage(image) && |replies| == |blocks|
    ensures var before := ScanCycleSpec(image, blocks, replies);
      var last := ScanBlockSpec(before.image, b, reply);
      ScanCycleSpec(image, blocks + [b], replies + [reply]) ==
        ScanResult(last.image, before.events + last.events, before.log + last.log)
  {
    assert (blocks + [b])[..|blocks|] == blocks && (replies + [reply])[..|replies|] == replies;
  }

  /** The cycle over the first `j + 1` blocks is the cycle over the first `j` followed by block `j`. */
  lemma ScanCyclePrefix(image: ImageState, blocks: seq<ReadBuffConfiguration>, replies: seq<ReadReply>, j: nat)
    requires WellSizedImage(image) && |replies| == |blocks| && j < |blocks|
    ensures var before := ScanCycleSpec(image, blocks[..j], replies[..j]);
      var last := ScanBlockSpec(before.image, blocks[j], replies[j]);
      ScanCycleSpec(image, blocks[..j + 1], replies[..j + 1]) ==
        ScanResult(last.image, before.events + last.events, before.log + last.log)
  {
    assert blocks[..j + 1] == blocks[..j] + [blocks[j]] && replies[..j + 1] == replies[..j] + [replies[j]];
    ScanCycleSnoc(image, blocks[..j], replies[..j], blocks[j], replies[j]);
  }

  /** Running two lists of blocks one after the other is running their concatenation. */
  lemma {:induction false} ScanCycleAppend(image: ImageState, a: seq<ReadBuffConfiguration>, ra: seq<ReadReply>,
                                           b: seq<ReadBuffConfiguration>, rb: seq<ReadReply>)
    requires WellSizedImage(image) && |ra| == |a| && |rb| == |b|
    ensures var first := ScanCycleSpec(image, a, ra);
      var second := ScanCycleSpec(first.image, b, rb);
      ScanCycleSpec(image, a + b, ra + rb) == ScanResult(second.image, first.events + second.events, first.log + second.log)
    decreases |b|
  {
    if b == [] {
      assert a + b == a && ra + rb == ra;
    } else {
      var n := |b| - 1;
      var b0, rb0 := b[..n], rb[..n];
      assert b == b0 + [b[n]] && rb == rb0 + [rb[n]];
      assert a + b == (a + b0) + [b[n]] && ra + rb == (ra + rb0) + [rb[n]];
      ScanCycleAppend(image, a, ra, b0, rb0);
      ScanCycleSnoc(image, a + b0, ra + rb0, b[n], rb[n]);
      var first := ScanCycleSpec(image, a, ra);
      ScanCycleSnoc(first.image, b0, rb0, b[n], rb[n]);
      var mid := ScanCycleSpec(first.image, b0, rb0);
      var last := ScanBlockSpec(mid.image, b[n], rb[n]);
      AppendAssociative(first.events, mid.events, last.events);
      AppendAssociative(first.log, mid.log, last.log);
    }
  }

  /**
   * A block whose read fails, or whose function is unknown, is skipped: the
   * cycle leaves the image exactly as the same cycle without that block.
   */
  lemma {:induction false} FailedBlockSkipped(image: ImageState, blocks: seq<ReadBuffConfiguration>, replies: seq<ReadReply>, j: nat)
    requires WellSizedImage(image) && |replies| == |blocks| && j < |blocks|
    requires replies[j].Failed? || FunctionOf(blocks[j].functionValue).None?
    ensures ScanCycleSpec(image, blocks, replies).image ==
            ScanCycleSpec(image, blocks[..j] + blocks[j + 1..], replies[..j] + replies[j + 1..]).image
  {
    var a, ra := blocks[..j], replies[..j];
    var b, rb := blocks[j + 1..], replies[j + 1..];
    assert blocks == a + [blocks[j]] + b;
    assert replies == ra + [replies[j]] + rb;
    ScanCycleAppend(image, a + [blocks[j]], ra + [replies[j]], b, rb);
    ScanCycleAppend(image, a, ra, b, rb);
    assert (a + [blocks[j]])[..j] == a && (ra + [replies[j]])[..j] == ra;
  }

  /** The read schedule of a cycle: each block's bus events, in list order. */
  function ReadSchedule(blocks: seq<ReadBuffConfiguration>): seq<BusEvent>
    decreases |blocks|
  {
    if blocks == [] then [] else ReadSchedule(blocks[..|blocks| - 1]) + BlockEvents(blocks[|blocks| - 1])
  }

  /**
   * A cycle's bus traffic is its read schedule whatever the replies are: a
   * failing block never keeps the blocks after it from being read.
   */
  lemma {:induction false} ScanCycleEvents(image: ImageState, blocks: seq<ReadBuffConfiguration>, replies: seq<ReadReply>)
    requires WellSizedImage(image) && |replies| == |blocks|
    ensures ScanCycleSpec(image, blocks, replies).events == ReadSchedule(blocks)
    decreases |blocks|
  {
    if blocks != [] {
      var n := |blocks| - 1;
      ScanCycleEvents(image, blocks[..n], replies[..n]);
    }
  }

  /** The reads a cycle issues: one per block with a known function, in list order. */
  function KnownReads(blocks: seq<ReadBuffConfiguration>): seq<RtuCall>
    decreases |blocks|
  {
    if blocks == [] then []
    else
      var b := blocks[|blocks| - 1];
      KnownReads(blocks[..|blocks| - 1]) +
        match FunctionOf(b.functionValue)
        case None => []
        case Some(f) => [ReadCall(f, b)]
  }

  /**
   * The schedule takes and gives back the lock around every read, issues the
   * reads of the known blocks in list order, and ends with the lock free.
   */
  lemma {:induction false} ReadScheduleProperties(blocks: seq<ReadBuffConfiguration>)
    ensures Disciplined(ReadSchedule(blocks))
    ensures Calls(ReadSchedule(blocks)) == KnownReads(blocks)
    decreases |blocks|
  {
    if blocks != [] {
      var n := |blocks| - 1;
      var b := blocks[n];
      ReadScheduleProperties(blocks[..n]);
      CallsAppend(ReadSchedule(blocks[..n]), BlockEvents(b));
      match FunctionOf(b.functionValue)
      case None =>
        assert ReadSchedule(blocks) == ReadSchedule(blocks[..n]) + [] == ReadSchedule(blocks[..n]);
        assert KnownReads(blocks) == KnownReads(blocks[..n]) + [] == KnownReads(blocks[..n]);
      case Some(f) =>
        var c := ReadCall(f, b);
        TransactionDisciplined(c);
        DisciplinedAppend(ReadSchedule(blocks[..n]), BlockEvents(b));
        var t := [Acquire, Call(c), Release];
        assert t[..2][..1][..0] == [];
        assert Calls(t[..2][..1]) == [];
        assert Calls(t[..2]) == [c];
        assert Calls(t) == [c];
    }
  }

  /** A unit no block names keeps its banks through the cycle. */
  lemma {:induction false} UnnamedUnitsKept(image: ImageState, blocks: seq<ReadBuffConfiguration>, replies: seq<ReadReply>, s: UnitId)
    requires WellSizedImage(image) && |replies| == |blocks| && s in image
    requires forall j :: 0 <= j < |blocks| ==> blocks[j].station != s
    ensures ScanCycleSpec(image, blocks, replies).image[s] == image[s]
    decreases |blocks|
  {
    if blocks != [] {
      var n := |blocks| - 1;
      UnnamedUnitsKept(image, blocks[..n], replies[..n], s);
    }
  }

  /** With the default configuration a cycle does nothing: no events, no log lines, no change. */
  lemma DefaultConfigurationScansNothing(image: ImageState)
    requires WellSizedImage(image)
    ensures ScanCycleSpec(image, ReadBlocks(DefaultServerConfiguration()), []) == ScanResult(image, [], [])
  {
  }

  // ---------------------------------------------------------------------
  // Several cycles
  // ---------------------------------------------------------------------

  /** The effect of consecutive cycles over the same blocks, cycle `c` getting replies `cycles[c]`. */
  function RunSpec(image: ImageState, blocks: seq<ReadBuffConfiguration>, cycles: seq<seq<ReadReply>>): (r: ScanResult)
    requires WellSizedImage(image)
    requires forall c :: 0 <= c < |cycles| ==> |cycles[c]| == |blocks|
    ensures WellSizedImage(r.image) && r.image.Keys == image.Keys
    decreases |cycles|
  {
    if cycles == [] then ScanResult(image, [], [])
    else
      var n := |cycles| - 1;
      var before := RunSpec(image, blocks, cycles[..n]);
      var last := ScanCycleSpec(before.image, blocks, cycles[n]);
      ScanResult(last.image, before.events + last.events, before.log + last.log)
  }

  /** One step of the fold: a non-empty run is its first cycles followed by its last. */
  lemma RunUnfold(image: ImageState, blocks: seq<ReadBuffConfiguration>, cycles: seq<seq<ReadReply>>)
    requires WellSizedImage(image) && cycles != []
    requires forall c :: 0 <= c < |cycles| ==> |cycles[c]| == |blocks|
    ensures var n := |cycles| - 1;
      var before := RunSpec(image, blocks, cycles[..n]);
      var last := ScanCycleSpec(before.image, blocks, cycles[n]);
      RunSpec(image, blocks, cycles) == ScanResult(last.image, before.events + last.events, before.log + last.log)
  {
  }

  function Repeat(t: seq<BusEvent>, n: nat): seq<BusEvent>
  {
    if n == 0 then [] else Repeat(t, n - 1) + t
  }

  /**
   * Every cycle of a run walks the blocks in the same order: the run's bus
   * traffic is the read schedule once per cycle, and it keeps the lock
   * discipline.
   */
  lemma {:induction false} RunEvents(image: ImageState, blocks: seq<ReadBuffConfiguration>, cycles: seq<seq<ReadReply>>)
    requires WellSizedImage(image)
    requires forall c :: 0 <= c < |cycles| ==> |cycles[c]| == |blocks|
    ensures RunSpec(image, blocks, cycles).events == Repeat(ReadSchedule(blocks), |cycles|)
    ensures Disciplined(RunSpec(image, blocks, cycles).events)
    decreases |cycles|
  {
    if cycles == [] {
      assert LockAfter([], false) == Some(false);
    } else {
      var n := |cycles| - 1;
      RunEvents(image, blocks, cycles[..n]);
      ScanCycleEvents(RunSpec(image, blocks, cycles[..n]).image, blocks, cycles[n]);
      ReadScheduleProperties(blocks);
      DisciplinedAppend(Repeat(ReadSchedule(blocks), n), ReadSchedule(blocks));
    }
  }

  // ---------------------------------------------------------------------
  // The scan cycle over the TCP server's buffers
  // ---------------------------------------------------------------------

  /**
   * The decode loop of a coil block on the live buffers. The source looks
   * the unit up again on every iteration; the lookup always yields the same
   * unit, so it is made once, before the first iteration, as the source's
   * first iteration would.
   */
  method StoreCoils(server: TcpServer, b: ReadBuffConfiguration, data: seq<byte>) returns (ok: bool)
    requires server.Valid()
    modifies server.Repr()
    ensures (server.Snapshot(), ok) == StoreCoilBlock(old(server.Snapshot()), b, data)
  {
    if b.length == 0 {
      return true;
    }
    if b.station !in server.units {
      return false;
    }
    var unit := server.units[b.station];
    ghost var before := server.Snapshot();
    ok := DecodeCoilBlock(unit.coils, data, b.startAddress, b.length);
    ghost var expected := before[b.station := before[b.station].(coils := unit.coils[..])];
    forall s | s in server.units
      ensures server.Snapshot()[s] == expected[s]
    {
      if s != b.station {
        assert server.units[s].coils != unit.coils;
        assert server.units[s].coils[..] == old(server.units[s].coils[..]);
      }
    }
    assert server.Snapshot() == expected;
  }

  /** Storing a holding-register response on the live buffers. */
  method StoreRegisters(server: TcpServer, b: ReadBuffConfiguration, data: seq<byte>) returns (ok: bool)
    requires server.Valid()
    modifies server.Repr()
    ensures (server.Snapshot(), ok) == StoreRegisterBlock(old(server.Snapshot()), b, data)
  {
    if b.station !in server.units {
      return false;
    }
    var unit := server.units[b.station];
    ghost var before := server.Snapshot();
    ok := WriteRegister(unit.registers, WordsOf(data), b.startAddress);
    ghost var expected := if ok then before[b.station := before[b.station].(registers := unit.registers[..])] else before;
    forall s | s in server.units
      ensures server.Snapshot()[s] == expected[s]
    {
      if s != b.station {
        assert server.units[s].registers != unit.registers;
        assert server.units[s].registers[..] == old(server.units[s].registers[..]);
      }
    }
    assert server.Snapshot() == expected;
  }

  /**
   * One block: take the lock, read, give the lock back whether or not the
   * read threw, and only then store the response. Every failure is caught
   * and logged.
   */
  method ScanBlock(server: TcpServer, bus: SerialBus, b: ReadBuffConfiguration, reply: ReadReply)
    returns (log: seq<LogEntry>)
    requires server.Valid() && bus.Valid() && !bus.held
    modifies server.Repr(), bus
    ensures bus.Valid() && !bus.held
    ensures var r := ScanBlockSpec(old(server.Snapshot()), b, reply);
      server.Snapshot() == r.image && bus.trace == old(bus.trace) + r.events && log == r.log
  {
    ghost var image := server.Snapshot();
    match FunctionOf(b.functionValue) {
      case None =>
        log := [FunctionNotFound(b.functionValue)];
      case Some(f) =>
        bus.Exclusive(ReadCall(f, b));
        assert server.Snapshot() == image;
        match reply {
          case Failed =>
            log := [BlockFailure(b)];
          case Response(data) =>
            var ok;
            if f == Coil {
              ok := StoreCoils(server, b, data);
            } else {
              ok := StoreRegisters(server, b, data);
            }
            log := if ok then [] else [BlockFailure(b)];
        }
    }
  }

  /** The `foreach` over the read blocks: each block in list order. */
  method ScanBlocks(blocks: seq<ReadBuffConfiguration>, server: TcpServer, bus: SerialBus, replies: seq<ReadReply>)
    returns (log: seq<LogEntry>)
    requires server.Valid() && bus.Valid() && !bus.held
    requires |replies| == |blocks|
    modifies server.Repr(), bus
    ensures bus.Valid() && !bus.held
    ensures var r := ScanCycleSpec(old(server.Snapshot()), blocks, replies);
      server.Snapshot() == r.image && bus.trace == old(bus.trace) + r.events && log == r.log
  {
    ghost var image0, trace0 := server.Snapshot(), bus.trace;
    log := [];
    for j := 0 to |blocks|
      invariant bus.Valid() && !bus.held
      invariant var r := ScanCycleSpec(image0, blocks[..j], replies[..j]);
        server.Snapshot() == r.image && bus.trace == trace0 + r.events && log == r.log
    {
      ghost var prev := ScanCycleSpec(image0, blocks[..j], replies[..j]);
      var entries := ScanBlock(server, bus, blocks[j], replies[j]);
      ghost var step := ScanBlockSpec(prev.image, blocks[j], replies[j]);
      AppendAssociative(trace0, prev.events, step.events);
      log := log + entries;
      ScanCyclePrefix(image0, blocks, replies, j);
    }
    assert blocks[..|blocks|] == blocks && replies[..|replies|] == replies;
  }

  /** One pass of `ExecuteAsync`'s loop body: every block of `ReadBuffs`, in order, or none when it is null. */
  method ScanCycle(config: ServerConfiguration, server: TcpServer, bus: SerialBus, replies: seq<ReadReply>)
    returns (log: seq<LogEntry>)
    requires server.Valid() && bus.Valid() && !bus.held
    requires |replies| == |ReadBlocks(config)|
    modifies server.Repr(), bus
    ensures bus.Valid() && !bus.held
    ensures var r := ScanCycleSpec(old(server.Snapshot()), ReadBlocks(config), replies);
      server.Snapshot() == r.image && bus.trace == old(bus.trace) + r.events && log == r.log
  {
    if config.readBuffs.Some? {
      log := ScanBlocks(config.readBuffs.value, server, bus, replies);
    } else {
      log := [];
    }
  }

  /**
   * How many of the cycles that start before cancellation `ExecuteAsync`
   * completes. `Task.Delay` after a cycle throws for a `ReadBuffsDelay`
   * below -1 and waits until cancellation for -1, so with a negative delay
   * no second cycle starts.
   */
  function CyclesRun(delay: int32, started: nat): (n: nat)
    ensures n <= started
    ensures n == started <==> (delay >= 0 || started <= 1)
    ensures delay < 0 && started >= 1 ==> n == 1
  {
    if delay < 0 && started > 1 then 1 else started
  }

  /**
   * `ExecuteAsync` given the replies of the cycles that start before
   * cancellation is requested, which the loop observes only between
   * cycles: it runs `CyclesRun` of them, each completed, with the delay
   * after each. `faulted` is the `ArgumentOutOfRangeException` of a delay
   * below -1, which ends the service after its first cycle.
   */
  method Execute(config: ServerConfiguration, server: TcpServer, bus: SerialBus, cycles: seq<seq<ReadReply>>)
    returns (log: seq<LogEntry>, faulted: bool)
    requires server.Valid() && bus.Valid() && !bus.held
    requires forall c :: 0 <= c < |cycles| ==> |cycles[c]| == |ReadBlocks(config)|
    modifies server.Repr(), bus
    ensures bus.Valid() && !bus.held
    ensures faulted <==> config.readBuffsDelay < -1 && |cycles| >= 1
    ensures var r := RunSpec(old(server.Snapshot()), ReadBlocks(config), cycles[..CyclesRun(config.readBuffsDelay, |cycles|)]);
      server.Snapshot() == r.image && bus.trace == old(bus.trace) + r.events && log == r.log
  {
    ghost var image0, trace0 := server.Snapshot(), bus.trace;
    log := [];
    faulted := false;
    var c := 0;
    var stopped := false;
    while c < |cycles| && !stopped
      invariant 0 <= c <= |cycles|
      invariant stopped ==> c == 1 && config.readBuffsDelay < 0
      invariant !stopped ==> (config.readBuffsDelay < 0 ==> c == 0)
      invariant faulted <==> stopped && config.readBuffsDelay < -1
      invariant bus.Valid() && !bus.held
      invariant var r := RunSpec(image0, ReadBlocks(config), cycles[..c]);
        server.Snapshot() == r.image && bus.trace == trace0 + r.events && log == r.log
    {
      ghost var prev := RunSpec(image0, ReadBlocks(config), cycles[..c]);
      var entries := ScanCycle(config, server, bus, cycles[c]);
      ghost var step := ScanCycleSpec(prev.image, ReadBlocks(config), cycles[c]);
      AppendAssociative(trace0, prev.events, step.events);
      log := log + entries;
      assert cycles[..c + 1][..c] == cycles[..c] && cycles[..c + 1][c] == cycles[c];
      RunUnfold(image0, ReadBlocks(config), cycles[..c + 1]);
      c := c + 1;
      // await Task.Delay(ReadBuffsDelay, stoppingToken)
      if config.readBuffsDelay < 0 {
        faulted := config.readBuffsDelay < -1;
        stopped := true;
      }
    }
    assert c == CyclesRun(config.readBuffsDelay, |cycles|);
  }
}
