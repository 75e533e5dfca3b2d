/**
 * The TCP server's data image: per unit, a coil bank and a holding-register
 * bank that both the scan cycle and the change relay work on.
 */
module Image {
  import opened Bits
  import opened Configuration

  /** The contents of one unit's two banks. */
  datatype UnitState = UnitState(coils: seq<byte>, registers: seq<RawWord>)

  /** The contents of all units' banks. */
  type ImageState = map<UnitId, UnitState>

  predicate WellSized(u: UnitState)
  {
    |u.coils| == CoilBankBytes && |u.registers| == RegisterBankWords
  }

  predicate WellSizedImage(image: ImageState)
  {
    forall s :: s in image ==> WellSized(image[s])
  }

  /** One unit of the TCP server, with its two buffers. */
  class ModbusUnit {
    const coils: array<byte>
    const registers: array<RawWord>

    ghost predicate Valid()
    {
      coils.Length == CoilBankBytes && registers.Length == RegisterBankWords
    }

    ghost function State(): UnitState
      reads coils, registers
    {
      UnitState(coils[..], registers[..])
    }

    /** A unit as the TCP server adds it: every coil off, every register zero. */
    constructor ()
      ensures Valid() && fresh(coils) && fresh(registers)
      ensures forall j :: 0 <= j < CoilBankBytes ==> coils[j] == 0
      ensures forall k :: 0 <= k < RegisterBankWords ==> registers[k] == RawWord(0, 0)
    {
      coils := new byte[CoilBankBytes](_ => 0);
      registers := new RawWord[RegisterBankWords](_ => RawWord(0, 0));
    }
  }

  /** The TCP server's table of units; no two units share a buffer. */
  class TcpServer {
    const units: map<UnitId, ModbusUnit>

    ghost predicate Valid()
    {
      && (forall s :: s in units ==> units[s].Valid())
      && (forall s, t :: s in units && t in units && s != t ==>
            units[s].coils != units[t].coils && units[s].registers != units[t].registers)
    }

    /** Every buffer of every unit. */
    ghost function Repr(): set<object>
    {
      (set s | s in units :: units[s].coils as object) + (set s | s in units :: units[s].registers as object)
    }

    ghost function Snapshot(): (image: ImageState)
      reads Repr()
      ensures image.Keys == units.Keys
      ensures Valid() ==> WellSizedImage(image)
    {
      map s | s in units :: units[s].State()
    }

    constructor (units: map<UnitId, ModbusUnit>)
      requires forall s :: s in units ==> units[s].Valid()
      requires forall s, t :: s in units && t in units && s != t ==>
                 units[s].coils != units[t].coils && units[s].registers != units[t].registers
      ensures Valid() && this.units == units
    {
      this.units := units;
    }
  }
}
