/**
 * The serial RTU link: the exclusive lock that every RTU transaction must
 * hold and the calls issued over the link, recorded as a trace.
 */
module Bus {
  import opened Bits
  import opened Configuration

  /**
   * One RTU transaction, with the arguments the gateway passes to the RTU
   * client. Addresses are kept as plain integers: the values passed are
   * always within 0..65535, so the `(ushort)` casts of the register relay
   * change nothing.
   */
  datatype RtuCall =
    | ReadCoils(unit: UnitId, address: int, quantity: int)
    | ReadHoldingRegisters(unit: UnitId, address: int, quantity: int)
    | WriteSingleCoil(unit: UnitId, address: int, value: bool)
    | WriteMultipleCoils(unit: UnitId, address: int, values: seq<bool>)
    | WriteSingleRegister(unit: UnitId, address: int, bytes: seq<byte>)
    | WriteMultipleRegisters(unit: UnitId, address: int, bytes: seq<byte>)

  /** What happens on the link: taking the lock, a transaction, giving the lock back. */
  datatype BusEvent = Acquire | Release | Call(call: RtuCall)

  /** An error-log line; its message text is not modelled. */
  datatype LogEntry =
    | ReadBlockFailed(station: UnitId, startAddress: uint16, length: uint16)
    | FunctionNotFound(functionValue: int32)
    | RelayFailed(unit: UnitId, address: int)

  /** One event of the lock discipline from holder state `held`; `None` is a violation. */
  function Step(held: bool, e: BusEvent): Option<bool>
  {
    match e
    case Acquire => if held then None else Some(true)
    case Release => if held then Some(false) else None
    case Call(_) => if held then Some(true) else None
  }

  /**
   * The holder state after `trace`, starting from `held`: `None` when the
   * trace acquires a lock it holds, releases one it does not hold, or
   * transacts without holding it.
   */
  function LockAfter(trace: seq<BusEvent>, held: bool): Option<bool>
    decreases |trace|
  {
    if trace == [] then Some(held)
    else
      match LockAfter(trace[..|trace| - 1], held)
      case None => None
      case Some(h) => Step(h, trace[|trace| - 1])
  }

  /** A trace that keeps the lock discipline from a free lock and gives the lock back at the end. */
  predicate Disciplined(trace: seq<BusEvent>)
  {
    LockAfter(trace, false) == Some(false)
  }

  /** The holder state after two traces is that after the first, run on through the second. */
  lemma {:induction false} LockAfterAppend(a: seq<BusEvent>, b: seq<BusEvent>, held: bool)
    ensures LockAfter(a + b, held) ==
      match LockAfter(a, held)
      case None => None
      case Some(h) => LockAfter(b, h)
    decreases |b|
  {
    if b == [] {
      assert a + b == a;
    } else {
      var n := |b| - 1;
      assert (a + b)[..|a + b| - 1] == a + b[..n];
      assert (a + b)[|a + b| - 1] == b[n];
      LockAfterAppend(a, b[..n], held);
    }
  }

  /** Disciplined traces run one after another form a disciplined trace. */
  lemma DisciplinedAppend(a: seq<BusEvent>, b: seq<BusEvent>)
    requires Disciplined(a) && Disciplined(b)
    ensures Disciplined(a + b)
  {
    LockAfterAppend(a, b, false);
  }

  /** A single transaction between taking and giving back the lock is disciplined. */
  lemma TransactionDisciplined(c: RtuCall)
    ensures Disciplined([Acquire, Call(c), Release])
  {
    var t := [Acquire, Call(c), Release];
    assert t[..2][..1][..0] == [];
    assert LockAfter(t[..2][..1], false) == Some(true);
    assert LockAfter(t[..2], false) == Some(true);
  }

  /** The calls a trace makes, in order. */
  function Calls(trace: seq<BusEvent>): (r: seq<RtuCall>)
    ensures |r| <= |trace|
    decreases |trace|
  {
    if trace == [] then []
    else Calls(trace[..|trace| - 1]) + (if trace[|trace| - 1].Call? then [trace[|trace| - 1].call] else [])
  }

  lemma {:induction false} CallsAppend(a: seq<BusEvent>, b: seq<BusEvent>)
    ensures Calls(a + b) == Calls(a) + Calls(b)
    decreases |b|
  {
    if b == [] {
      assert a + b == a;
    } else {
      var n := |b| - 1;
      assert (a + b)[..|a + b| - 1] == a + b[..n];
      assert (a + b)[|a + b| - 1] == b[n];
      CallsAppend(a, b[..n]);
    }
  }

  /** Concatenation is associative; a step many traces and logs need. */
  lemma AppendAssociative<T>(x: seq<T>, y: seq<T>, z: seq<T>)
    ensures (x + y) + z == x + (y + z)
  {
  }

  /**
   * The RTU client together with the `AsyncExclusiveLock` that serialises
   * access to it. `held` says whether the code being modelled holds the
   * lock; `trace` records every lock operation and transaction.
   */
  class SerialBus {
    ghost var held: bool
    var trace: seq<BusEvent>

    ghost predicate Valid()
      reads this
    {
      LockAfter(trace, false) == Some(held)
    }

    constructor ()
      ensures Valid() && !held && trace == []
    {
      held := false;
      trace := [];
    }

    /** `Locker.AcquireAsync`: wait until the lock is free and take it. */
    method Acquire()
      requires Valid() && !held
      modifies this
      ensures Valid() && held
      ensures trace == old(trace) + [BusEvent.Acquire]
    {
      LockAfterAppend(trace, [BusEvent.Acquire], false);
      trace := trace + [BusEvent.Acquire];
      held := true;
    }

    /** `Locker.Release`: give the lock back. */
    method Release()
      requires Valid() && held
      modifies this
      ensures Valid() && !held
      ensures trace == old(trace) + [BusEvent.Release]
    {
      LockAfterAppend(trace, [BusEvent.Release], false);
      trace := trace + [BusEvent.Release];
      held := false;
    }

    /**
     * Take the lock, issue one transaction and give the lock back, as a
     * `try`/`finally` around a single RTU call does whether or not the call
     * throws.
     */
    method Exclusive(c: RtuCall)
      requires Valid() && !held
      modifies this
      ensures Valid() && !held
      ensures trace == old(trace) + [BusEvent.Acquire, Call(c), BusEvent.Release]
    {
      Acquire();
      Transact(c);
      Release();
    }

    /** Issue one RTU transaction; only the lock holder may do so. */
    method Transact(c: RtuCall)
      requires Valid() && held
      modifies this
      ensures Valid() && held
      ensures trace == old(trace) + [Call(c)]
    {
      LockAfterAppend(trace, [Call(c)], false);
      trace := trace + [Call(c)];
    }
  }
}
