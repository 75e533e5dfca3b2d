/**
 * The gateway's configuration records: the read blocks the scan cycle
 * polls and the server settings around them.
 */
module Configuration {

  /** C# `int`. */
  newtype int32 = x: int | -0x8000_0000 <= x < 0x8000_0000
  /** C# `ushort`: register and coil addresses and counts. */
  newtype uint16 = x: int | 0 <= x < 0x1_0000
  /** C# `byte` used as a Modbus unit identifier (station). */
  newtype UnitId = x: int | 0 <= x < 0x100

  datatype Option<T> = None | Some(value: T)

  /** The two members of the `Function` enum. */
  datatype Function = Coil | HoldingRegister

  /** The underlying value C# gives each member: they are numbered from 0 in declaration order. */
  function FunctionValue(f: Function): int32
  {
    match f
    case Coil => 0
    case HoldingRegister => 1
  }

  /**
   * The member a stored enum value names. A `Function` property can hold any
   * `int` (the JSON converter also accepts numbers), so a value outside the
   * enum is possible and selects the scan's `default:` branch.
   */
  function FunctionOf(v: int32): (r: Option<Function>)
    ensures r.Some? <==> v == FunctionValue(Coil) || v == FunctionValue(HoldingRegister)
    ensures r.Some? ==> FunctionValue(r.value) == v
  {
    if v == 0 then Some(Coil) else if v == 1 then Some(HoldingRegister) else None
  }

  /** Every member is recognised again from its own value, and the two values differ. */
  lemma FunctionValueRoundTrip(f: Function)
    ensures FunctionOf(FunctionValue(f)) == Some(f)
    ensures FunctionValue(Coil) != FunctionValue(HoldingRegister)
  {
  }

  /**
   * One polling job. `length` counts coils or registers, not bytes; nothing
   * ties `startAddress + length` to the 65536-address space.
   */
  datatype ReadBuffConfiguration = ReadBuffConfiguration(
    functionValue: int32,
    station: UnitId,
    startAddress: uint16,
    length: uint16)

  /** A `ReadBuffConfiguration` with every property left at its C# default. */
  function DefaultReadBuff(): (b: ReadBuffConfiguration)
    ensures FunctionOf(b.functionValue) == Some(Coil)
    ensures b.station == 0 && b.startAddress == 0 && b.length == 0
  {
    ReadBuffConfiguration(0, 0, 0, 0)
  }

  /**
   * Server settings: the TCP endpoint, the unit identifiers to serve, the
   * ordered read blocks and the delay between scan cycles in milliseconds.
   * `stations` and `readBuffs` are nullable lists.
   */
  datatype ServerConfiguration = ServerConfiguration(
    ip: string,
    port: int32,
    stations: Option<seq<UnitId>>,
    readBuffs: Option<seq<ReadBuffConfiguration>>,
    readBuffsDelay: int32)

  /** The blocks one scan cycle walks, in order; a null list walks none. */
  function ReadBlocks(c: ServerConfiguration): (r: seq<ReadBuffConfiguration>)
    ensures c.readBuffs.None? ==> r == []
    ensures c.readBuffs.Some? ==> r == c.readBuffs.value
  {
    match c.readBuffs
    case None => []
    case Some(blocks) => blocks
  }

  /** The units added to the TCP server; a null list adds none. */
  function ConfiguredUnits(c: ServerConfiguration): (r: set<UnitId>)
    ensures c.stations.None? ==> r == {}
    ensures c.stations.Some? ==> forall u :: u in r <==> u in c.stations.value
  {
    match c.stations
    case None => {}
    case Some(units) => set u | u in units
  }

  /**
   * A `ServerConfiguration` built with no settings: it listens on
   * 127.0.0.1:502, serves no units, polls no blocks and waits 1000 ms
   * between cycles.
   */
  function DefaultServerConfiguration(): (c: ServerConfiguration)
    ensures c.ip == "127.0.0.1" && c.port == 502 && c.readBuffsDelay == 1000
    ensures ConfiguredUnits(c) == {} && ReadBlocks(c) == []
  {
    ServerConfiguration("127.0.0.1", 502, None, None, 1000)
  }
}
