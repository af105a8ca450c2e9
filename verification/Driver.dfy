/** The chip driver over an adversarial transport: retried register accesses, certificate
    reassembly and the signing sequence.

    A successful transaction does what `Target.Transact` says, which `ServedOnTheWire` derives for
    the transport as long as the bridge's answers lose nothing but leading statuses and the chip is
    there.  Successes beyond that, after a lost tail or with nobody at the address, are the subject
    of LostTail and Target and outside this adversary.  A failed transaction leaves the register
    pointer anywhere.  Between transactions the chip changes registers of its own accord.  All of
    it, and the passing of time, is scheduled by an arbitrary environment. */
module Driver {
  import opened Outcome
  import opened Wire
  import opened Encoder
  import opened Target
  import Delivery
  import Executor

  const MILLISECOND := 1_000_000
  const RETRY_TIMEOUT := 2000 * MILLISECOND
  const RETRY_DELAY := 20 * MILLISECOND
  const INITIAL_AUTH_DELAY := 10 * MILLISECOND
  const AUTH_POLL_INTERVAL := 10 * MILLISECOND
  const AUTH_TIMEOUT := 3000 * MILLISECOND

  /** Attempts a retried operation can make, and status polls a signature can make. */
  const MAX_ATTEMPTS := 102
  const MAX_POLLS := 302

  const MAX_DATA := 65525
  const MAX_CHALLENGE := 128

  const ERROR_REGISTER: Byte := 0x05
  const AUTH_CONTROL_STATUS: Byte := 0x10
  const RESPONSE_LENGTH: Byte := 0x11
  const RESPONSE_DATA: Byte := 0x12
  const CHALLENGE_LENGTH: Byte := 0x20
  const CHALLENGE_DATA: Byte := 0x21
  const CERTIFICATE_LENGTH: Byte := 0x30
  const CERTIFICATE_DATA: Byte := 0x31
  const AUTH_START: Byte := 0x01
  const AUTH_SUCCESS: Byte := 0x10

  // ---------------------------------------------------------------- the environment

  /** A served read may come with surplus bytes, which only makes its length wrong. */
  datatype Fate = Served(surplus: seq<Byte>) | Failed(kind: ErrorKind, pointer: Byte)

  /** One transaction's share of the schedule: the registers the chip changes before it, how it
      ends, how long it takes, and how much longer than asked the driver sleeps after it. */
  datatype Turn = Turn(elapsed: nat, drift: Registers, fate: Fate, oversleep: nat)

  type Schedule = nat -> Turn

  /** A transaction in the log; `clean` means that it reached the chip and succeeded with the right
      length, `error` is the
      transport's error. */
  datatype Entry = Entry(address: Byte, data: seq<Byte>, readLength: int, clean: bool, read: seq<Byte>, error: Option<ErrorKind>)

  datatype World = World(turn: nat, clock: nat, chip: Chip, log: seq<Entry>)

  /** What a transaction to this address does to the chip at its own. */
  function Reach(own: Byte, chip: Chip, address: Byte, data: seq<Byte>, readLength: nat): (Chip, seq<Byte>) {
    if address == own then Transact(chip, data, readLength) else (chip, Ones(readLength))
  }

  function Perform(env: Schedule, own: Byte, w: World, address: Byte, data: seq<Byte>, readLength: int)
    : (Result<seq<Byte>>, World)
  {
    if !Encodable(address, data, readLength) then
      (Err(InvalidRequest), w.(log := w.log + [Entry(address, data, readLength, false, [], Some(InvalidRequest))]))
    else
      var t := env(w.turn);
      var chip := w.chip.(regs := w.chip.regs + t.drift);
      match t.fate
      case Failed(kind, pointer) =>
        (Err(kind), World(w.turn + 1, w.clock + t.elapsed, chip.(pointer := pointer),
                          w.log + [Entry(address, data, readLength, false, [], Some(kind))]))
      case Served(surplus) =>
        var (after, out) := Reach(own, chip, address, data, readLength);
        (Ok(out + surplus), World(w.turn + 1, w.clock + t.elapsed, after,
                                  w.log + [Entry(address, data, readLength, surplus == [] && address == own, out + surplus, None)]))
  }

  /** What the driver calls a served transaction is what an execution of the request over USB comes
      to, with the chip at the address and no bytes lost but leading statuses: the same result, and
      the same chip afterwards. */
  lemma ServedOnTheWire(env: Schedule, w: World, address: Byte, data: seq<Byte>, readLength: nat,
                        l: Executor.Link, speed: int, stream: seq<Byte>, answers: seq<Delivery.Answer>)
    requires Encodable(address, data, readLength) && Compiled(stream, address, data, readLength)
    requires env(w.turn).fate == Served([])
    requires Executor.SpeedCommand(speed).Some? && l.outbound == []
    requires Delivery.AllAnswer(Packets(stream), answers, Executor.Capacity(l.maxPacketSize))
    requires l.inbound == Delivery.Scripts(Packets(stream), answers)
    requires Serves(Target(w.chip.(regs := w.chip.regs + env(w.turn).drift), Idle), address, Packets(stream), answers)
    ensures var (r, after) := Perform(env, address, w, address, data, readLength);
      && r == Executor.Run(l, speed, stream, readLength).0
      && Drive(Target(w.chip.(regs := w.chip.regs + env(w.turn).drift), Idle), address,
               Trace(Interpret(Packets(stream)).value)).0 == Target(after.chip, Idle)
  {
    hide Executor.Run, Drive, Interpret, Packets, Serves, Transact;
    var chip := w.chip.(regs := w.chip.regs + env(w.turn).drift);
    TransactionOnTheWire(l, speed, stream, address, data, readLength, answers, chip);
    assert Transact(chip, data, readLength).1 + [] == Transact(chip, data, readLength).1;
  }

  class Bus {
    const env: Schedule
    const own: Byte
    var turn: nat
    var clock: nat
    var chip: Chip
    ghost var log: seq<Entry>

    constructor (env: Schedule, own: Byte, chip: Chip, clock: nat)
      ensures this.env == env && this.own == own && State() == World(0, clock, chip, [])
    {
      this.env, this.own, this.chip, this.clock, turn, log := env, own, chip, clock, 0, [];
    }

    ghost function State(): World
      reads this
    {
      World(turn, clock, chip, log)
    }

    method Transaction(address: Byte, data: seq<Byte>, readLength: int) returns (r: Result<seq<Byte>>)
      modifies this
      ensures (r, State()) == Perform(env, own, old(State()), address, data, readLength)
    {
      if !Encodable(address, data, readLength) {
        log := log + [Entry(address, data, readLength, false, [], Some(InvalidRequest))];
        return Err(InvalidRequest);
      }
      var t := env(turn);
      turn, clock := turn + 1, clock + t.elapsed;
      chip := chip.(regs := chip.regs + t.drift);
      match t.fate {
        case Failed(kind, pointer) =>
          chip := chip.(pointer := pointer);
          log := log + [Entry(address, data, readLength, false, [], Some(kind))];
          return Err(kind);
        case Served(surplus) =>
          var (after, out) := Reach(own, chip, address, data, readLength);
          chip := after;
          log := log + [Entry(address, data, readLength, surplus == [] && address == own, out + surplus, None)];
          return Ok(out + surplus);
      }
    }

    method Sleep(duration: nat)
      modifies this`clock
      ensures clock >= old(clock) + duration
    {
      clock := clock + duration + env(turn).oversleep;
    }
  }

  // ---------------------------------------------------------------- the log as operations

  /** What the log says once repeated attempts are erased. */
  datatype Op = Wrote(register: Byte, payload: seq<Byte>) | Read(register: Byte, data: seq<Byte>)

  predicate IsSelect(e: Entry) {
    e.clean && |e.data| == 1 && e.readLength == 0
  }

  predicate IsRead(e: Entry) {
    e.clean && e.data == []
  }

  /** Failed transactions drop out, and so does a select that its read did not follow. */
  function Erase(log: seq<Entry>): seq<Op> {
    if log == [] then []
    else if IsSelect(log[0]) && |log| > 1 && IsRead(log[1]) then
      [Read(log[0].data[0], log[1].read)] + Erase(log[2..])
    else if log[0].clean && |log[0].data| > 1 then
      [Wrote(log[0].data[0], log[0].data[1..])] + Erase(log[1..])
    else Erase(log[1..])
  }

  predicate Settled(log: seq<Entry>) {
    log == [] || !IsSelect(log[|log| - 1])
  }

  predicate InDomain(log: seq<Entry>) {
    forall i | 0 <= i < |log| :: Encodable(log[i].address, log[i].data, log[i].readLength)
  }

  /** Every transaction that writes addresses one of these registers first. */
  ghost predicate Touches(log: seq<Entry>, registers: set<Byte>) {
    forall i | 0 <= i < |log| && log[i].data != [] :: log[i].data[0] in registers
  }

  /** The log grew by transactions the encoder accepts, at most `limit` of them, which are these
      operations and concern no other registers than these. */
  ghost predicate Grew(before: seq<Entry>, after: seq<Entry>, ops: seq<Op>, limit: nat, touched: set<Byte>) {
    && before <= after && |after| - |before| <= limit
    && InDomain(after[|before|..]) && Settled(after[|before|..])
    && Erase(after[|before|..]) == ops
    && Touches(after[|before|..], touched)
  }

  lemma {:induction false} EraseConcat(a: seq<Entry>, b: seq<Entry>)
    requires Settled(a)
    ensures Erase(a + b) == Erase(a) + Erase(b)
    decreases |a|
  {
    if a == [] {
      assert a + b == b;
    } else if |a| > 1 && IsSelect(a[0]) && IsRead(a[1]) {
      assert (a + b)[0] == a[0] && (a + b)[1] == a[1] && (a + b)[2..] == a[2..] + b;
      EraseConcat(a[2..], b);
      Assoc([Read(a[0].data[0], a[1].read)], Erase(a[2..]), Erase(b));
    } else {
      Cons(a, b);
      assert |a| == 1 ==> !IsSelect(a[0]);
      assert |a| > 1 ==> (a + b)[1] == a[1];
      EraseConcat(a[1..], b);
      if a[0].clean && |a[0].data| > 1 {
        Assoc([Wrote(a[0].data[0], a[0].data[1..])], Erase(a[1..]), Erase(b));
      }
    }
  }

  lemma GrewTwice(a: seq<Entry>, b: seq<Entry>, c: seq<Entry>, ops1: seq<Op>, ops2: seq<Op>,
                  limit1: nat, limit2: nat, touched1: set<Byte>, touched2: set<Byte>)
    requires Grew(a, b, ops1, limit1, touched1) && Grew(b, c, ops2, limit2, touched2)
    ensures Grew(a, c, ops1 + ops2, limit1 + limit2, touched1 + touched2)
  {
    var d, e := b[|a|..], c[|b|..];
    assert c[|a|..] == d + e;
    EraseConcat(d, e);
    assert Settled(d + e) by { if e != [] { assert (d + e)[|d + e| - 1] == e[|e| - 1]; } else { assert d + e == d; } }
  }

  lemma GrewNot(a: seq<Entry>)
    ensures Grew(a, a, [], 0, {})
  {
    assert a[|a|..] == [];
  }

  lemma GrewMore(a: seq<Entry>, b: seq<Entry>, ops: seq<Op>, limit1: nat, touched1: set<Byte>,
                 limit2: nat, touched2: set<Byte>)
    requires Grew(a, b, ops, limit1, touched1) && limit1 <= limit2 && touched1 <= touched2
    ensures Grew(a, b, ops, limit2, touched2)
  {
  }

  // ---------------------------------------------------------------- attempts

  datatype DriverError = BusError(kind: ErrorKind) | InvalidData | AuthFailed(code: Option<Byte>)

  datatype Reply<+T> = Good(value: T) | Bad(error: DriverError)

  /** Exactly the transport's own errors are worth another attempt. */
  predicate Retryable(e: DriverError) {
    e.BusError? && e.kind != Plain
  }

  /** All that happened is a read of a length, and that is not one of 1 to 65525. */
  ghost predicate AnnouncesBadLength(before: seq<Entry>, after: seq<Entry>, register: Byte) {
    exists high: Byte, low: Byte ::
      before <= after && Erase(after[|before|..]) == [Read(register, [high, low])] && !(1 <= 256 * (high as int) + low as int <= 65525)
  }

  /** Why a read of announced length fails. */
  ghost predicate FailedOrBadLength(before: seq<Entry>, after: seq<Entry>, error: DriverError, register: Byte) {
    LastFailed(before, after, error) || (error == InvalidData && AnnouncesBadLength(before, after, register))
  }

  lemma FailedLater(before: seq<Entry>, middle: seq<Entry>, after: seq<Entry>, error: DriverError, register: Byte)
    requires |before| <= |middle| && LastFailed(middle, after, error)
    ensures FailedOrBadLength(before, after, error, register)
  {
  }

  lemma BadLength(before: seq<Entry>, after: seq<Entry>, register: Byte, length: int, limit: nat, touched: set<Byte>)
    requires 0 <= length <= 65535 && !(1 <= length <= 65525)
    requires Grew(before, after, [Read(register, BigEndian(length))], limit, touched)
    ensures FailedOrBadLength(before, after, InvalidData, register)
  {
    var bytes := BigEndian(length);
    assert bytes == [bytes[0], bytes[1]];
  }

  /** What a transaction that is not clean comes to: the transport's error, or data of the wrong length. */
  function FailureOf(e: Entry): DriverError {
    if e.error.Some? then BusError(e.error.value) else InvalidData
  }

  /** The log ends in a failed transaction, and this is its error. */
  predicate LastFailed(before: seq<Entry>, after: seq<Entry>, error: DriverError) {
    |before| < |after| && !after[|after| - 1].clean && error == FailureOf(after[|after| - 1])
  }

  /** Every failure in the log but one at its end is an error of the transport's own. */
  predicate TransportFailures(before: seq<Entry>, after: seq<Entry>) {
    forall i | |before| <= i < |after| - 1 && !after[i].clean :: after[i].error.Some? && after[i].error != Some(Plain)
  }

  /** All that was logged before the last transaction is clean. */
  predicate CleanUpToLast(before: seq<Entry>, after: seq<Entry>) {
    forall i | |before| <= i < |after| - 1 :: after[i].clean
  }

  /** The three things the driver retries. */
  datatype Action =
    | ReadPair(register: nat, length: nat)
    | Select(register: nat)
    | StoreBytes(request: seq<Byte>)

  predicate Sensible(a: Action) {
    match a
    case ReadPair(_, length) => 1 <= length <= MAX_DATA
    case Select(_) => true
    case StoreBytes(request) => 2 <= |request|
  }

  /** Beyond what the transport takes: refused before it reaches the bus. */
  predicate Oversized(a: Action) {
    a.StoreBytes? && |a.request| > MAX_TRANSACTION
  }

  ghost predicate AllRefused(log: seq<Entry>, request: seq<Byte>) {
    forall i | 0 <= i < |log| :: log[i].data == request && !log[i].clean && !Encodable(log[i].address, request, log[i].readLength)
  }

  /** byte(register) in the source. */
  function WireRegister(register: nat): Byte {
    register % 256
  }

  /** Transactions that n reads take at most: 102 attempts each, of a select and a read. */
  function PairBound(n: nat): nat {
    204 * n
  }

  function Cost(a: Action): nat {
    if a.ReadPair? then 2 else 1
  }

  function OpOf(a: Action, value: seq<Byte>): Op
    requires Sensible(a) && !a.Select?
  {
    match a
    case ReadPair(register, _) => Read(WireRegister(register), value)
    case StoreBytes(request) => Wrote(request[0], request[1..])
  }

  /** These registers never change of their own accord. */
  ghost predicate Frozen(env: Schedule, registers: set<Byte>) {
    forall i: nat, r | r in registers :: r !in env(i).drift
  }

  ghost predicate SameOn(registers: set<Byte>, a: Registers, b: Registers) {
    forall r | r in registers :: (r in a <==> r in b) && (r in a ==> a[r] == b[r])
  }

  /** What an attempt, and so a retried operation, establishes. */
  ghost function TouchedBy(a: Action): set<Byte>
    requires Sensible(a)
  {
    match a
    case ReadPair(register, _) => {WireRegister(register)}
    case Select(register) => {WireRegister(register)}
    case StoreBytes(request) => {request[0]}
  }

  ghost predicate Did(a: Action, r: Reply<seq<Byte>>, chip: Chip, before: seq<Entry>, after: seq<Entry>,
                      limit: nat)
    requires Sensible(a)
  {
    if Oversized(a) then
      r.Bad? && before <= after && |after| - |before| <= limit && AllRefused(after[|before|..], a.request)
    else if a.Select? then
      && before <= after && |after| - |before| <= limit && InDomain(after[|before|..])
      && Touches(after[|before|..], TouchedBy(a))
      && (r.Good? ==> chip.pointer == WireRegister(a.register))
    else
      && Grew(before, after, if r.Good? then [OpOf(a, r.value)] else [], limit, TouchedBy(a))
      && (r.Good? && a.ReadPair? ==> r.value == RegBytes(chip.regs, WireRegister(a.register), a.length))
  }

  lemma LoggedOne(before: seq<Entry>, e: Entry)
    requires Encodable(e.address, e.data, e.readLength)
    requires e.data != []
    ensures before <= before + [e] && (before + [e])[|before|..] == [e] && InDomain([e])
    ensures Touches([e], {e.data[0]})
    ensures !IsSelect(e) && !(e.clean && |e.data| > 1) ==> Grew(before, before + [e], [], 1, {e.data[0]})
    ensures e.clean && |e.data| > 1 ==>
      Grew(before, before + [e], [Wrote(e.data[0], e.data[1..])], 1, {e.data[0]})
  {
    assert [e][1..] == [];
    assert Erase([]) == [];
    if e.clean && |e.data| > 1 {
      assert [Wrote(e.data[0], e.data[1..])] + [] == [Wrote(e.data[0], e.data[1..])];
    }
  }

  lemma LoggedPair(before: seq<Entry>, s: Entry, e: Entry)
    requires Encodable(s.address, s.data, s.readLength) && Encodable(e.address, e.data, e.readLength)
    requires IsSelect(s) && e.data == []
    ensures Grew(before, before + [s] + [e], if e.clean then [Read(s.data[0], e.read)] else [], 2, {s.data[0]})
  {
    var log := before + [s] + [e];
    assert log[|before|..] == [s, e] && [s, e][2..] == [] && [s, e][1..] == [e] && [e][1..] == [];
    assert Erase([]) == [];
    if e.clean {
      assert Erase([s, e]) == [Read(s.data[0], e.read)] + [] == [Read(s.data[0], e.read)];
    } else {
      assert Erase([s, e]) == Erase([e]) == [];
    }
  }

  lemma ServedKeeps(env: Schedule, frozen: set<Byte>, i: nat, regs: Registers)
    requires Frozen(env, frozen)
    ensures SameOn(frozen, regs, regs + env(i).drift)
  {
  }

  // ---------------------------------------------------------------- the driver

  class Driver {
    const bus: Bus
    const address: Byte

    /** The source's constructor refuses other addresses. */
    constructor (bus: Bus, address: Byte)
      requires address <= 0x7f
      ensures this.bus == bus && this.address == address
    {
      this.bus, this.address := bus, address;
    }

    /** The chip is at the driver's address. */
    predicate Wired() {
      address <= 0x7f && bus.own == address
    }

    method SelectRegisterOnce(register: nat, ghost frozen: set<Byte>) returns (r: Reply<seq<Byte>>)
      requires Wired() && Frozen(bus.env, frozen)
      modifies bus
      ensures r.Bad? ==> !r.error.AuthFailed?
      ensures bus.clock >= old(bus.clock) && SameOn(frozen, old(bus.chip.regs), bus.chip.regs)
      ensures |bus.log| == |old(bus.log)| + 1
      ensures var e := bus.log[|bus.log| - 1];
        && bus.log == old(bus.log) + [e] && Encodable(e.address, e.data, e.readLength)
        && e.data == [WireRegister(register)] && e.readLength == 0 && e.clean == r.Good?
        && (r.Bad? ==> r.error == FailureOf(e))
      ensures r.Good? ==> r.value == [] && bus.chip.pointer == WireRegister(register)
    {
      ServedKeeps(bus.env, frozen, bus.turn, bus.chip.regs);
      var result := bus.Transaction(address, [WireRegister(register)], 0);
      ghost var e := bus.log[|bus.log| - 1];
      assert bus.log == old(bus.log) + [e];
      if result.Err? {
        return Bad(BusError(result.kind));
      }
      if result.value != [] {
        return Bad(InvalidData);
      }
      return Good([]);
    }

    /** A select and the read that follows it. */
    method ReadPairOnce(register: nat, length: nat, ghost frozen: set<Byte>) returns (r: Reply<seq<Byte>>)
      requires Wired() && 1 <= length <= MAX_DATA && Frozen(bus.env, frozen)
      modifies bus
      ensures r.Bad? ==> !r.error.AuthFailed?
      ensures bus.clock >= old(bus.clock) && SameOn(frozen, old(bus.chip.regs), bus.chip.regs)
      ensures Did(ReadPair(register, length), r, bus.chip, old(bus.log), bus.log, 2)
      ensures |bus.log| > |old(bus.log)| && CleanUpToLast(old(bus.log), bus.log)
      ensures r.Bad? ==> LastFailed(old(bus.log), bus.log, r.error)
    {
      r := SelectRegisterOnce(register, frozen);
      ghost var s := bus.log[|bus.log| - 1];
      LoggedOne(old(bus.log), s);
      if r.Bad? {
        return r;
      }
      ghost var middle := bus.log;
      ServedKeeps(bus.env, frozen, bus.turn, bus.chip.regs);
      var result := bus.Transaction(address, [], length);
      ghost var e := bus.log[|bus.log| - 1];
      assert bus.log == middle + [e];
      LoggedPair(old(bus.log), s, e);
      if result.Err? {
        return Bad(BusError(result.kind));
      }
      if |result.value| != length {
        return Bad(InvalidData);
      }
      return Good(result.value);
    }

    method StoreOnce(request: seq<Byte>) returns (r: Reply<seq<Byte>>)
      requires Wired() && 2 <= |request|
      modifies bus
      ensures r.Bad? ==> !r.error.AuthFailed?
      ensures bus.clock >= old(bus.clock)
      ensures Did(StoreBytes(request), r, bus.chip, old(bus.log), bus.log, 1)
      ensures |bus.log| > |old(bus.log)| && CleanUpToLast(old(bus.log), bus.log)
      ensures r.Bad? ==> LastFailed(old(bus.log), bus.log, r.error)
    {
      var result := bus.Transaction(address, request, 0);
      ghost var e := bus.log[|bus.log| - 1];
      assert bus.log == old(bus.log) + [e];
      if Oversized(StoreBytes(request)) {
        assert bus.log[|old(bus.log)|..] == [e];
      } else {
        LoggedOne(old(bus.log), e);
      }
      if result.Err? {
        return Bad(BusError(result.kind));
      }
      if result.value != [] {
        return Bad(InvalidData);
      }
      return Good([]);
    }

    method Attempt(a: Action, ghost frozen: set<Byte>) returns (r: Reply<seq<Byte>>)
      requires Wired() && Sensible(a) && Frozen(bus.env, frozen)
      modifies bus
      ensures r.Bad? ==> !r.error.AuthFailed?
      ensures bus.clock >= old(bus.clock)
      ensures !a.StoreBytes? ==> SameOn(frozen, old(bus.chip.regs), bus.chip.regs)
      ensures Did(a, r, bus.chip, old(bus.log), bus.log, Cost(a))
      ensures |bus.log| > |old(bus.log)| && CleanUpToLast(old(bus.log), bus.log)
      ensures r.Bad? ==> LastFailed(old(bus.log), bus.log, r.error)
    {
      match a
      case ReadPair(register, length) => r := ReadPairOnce(register, length, frozen);
      case StoreBytes(request) => r := StoreOnce(request);
      case Select(register) =>
        r := SelectRegisterOnce(register, frozen);
        LoggedOne(old(bus.log), bus.log[|bus.log| - 1]);
    }

    /** Repeats an attempt while the transport fails and two seconds have not passed: at most 102
        attempts, whatever the schedule. */
    method RetryIO(a: Action, ghost frozen: set<Byte>) returns (r: Reply<seq<Byte>>, ghost attempts: nat)
      requires Wired() && Sensible(a) && Frozen(bus.env, frozen)
      modifies bus
      ensures r.Bad? ==> !r.error.AuthFailed?
      ensures bus.clock >= old(bus.clock)
      ensures !a.StoreBytes? ==> SameOn(frozen, old(bus.chip.regs), bus.chip.regs)
      ensures 1 <= attempts <= 102 && attempts <= |bus.log| - |old(bus.log)|
      ensures Did(a, r, bus.chip, old(bus.log), bus.log, attempts * Cost(a))
      ensures r.Bad? ==> LastFailed(old(bus.log), bus.log, r.error)
      ensures r.Bad? && r.error.BusError? && r.error.kind != Plain ==> bus.clock > old(bus.clock) + 2_000_000_000
      ensures TransportFailures(old(bus.log), bus.log)
    {
      hide Did, Frozen, Sensible, TouchedBy, SameOn;
      var deadline := bus.clock + RETRY_TIMEOUT;
      attempts := 0;
      NothingYet(a, bus.chip, bus.log);
      SameTwice(frozen, bus.chip.regs, bus.chip.regs, bus.chip.regs);
      while true
        invariant attempts <= MAX_ATTEMPTS - 1 && attempts <= |bus.log| - |old(bus.log)|
        invariant old(bus.clock) + attempts * RETRY_DELAY <= bus.clock
        invariant !a.StoreBytes? ==> SameOn(frozen, old(bus.chip.regs), bus.chip.regs)
        invariant Did(a, Bad(InvalidData), bus.chip, old(bus.log), bus.log, attempts * Cost(a))
        invariant AllTransportFailures(old(bus.log), bus.log)
        decreases deadline - bus.clock
      {
        ghost var regs, chip, log := bus.chip.regs, bus.chip, bus.log;
        r := Attempt(a, frozen);
        OnceMore(a, r, chip, bus.chip, old(bus.log), log, bus.log, attempts);
        SameTwice(frozen, old(bus.chip.regs), regs, bus.chip.regs);
        Prefixes(a, r, chip, bus.chip, old(bus.log), log, bus.log, attempts);
        FailuresSoFar(old(bus.log), log, bus.log);
        attempts := attempts + 1;
        if r.Good? {
          return;
        }
        if !Retryable(r.error) || bus.clock > deadline {
          return;
        }
        bus.Sleep(RETRY_DELAY);
      }
    }

    /** The last two transactions of a successful read are a select of the register and the read
        itself, so the bytes are the register's, whatever failed before. */
    method ReadRegister(register: nat, length: int, ghost frozen: set<Byte>) returns (r: Reply<seq<Byte>>)
      requires Wired() && Frozen(bus.env, frozen)
      modifies bus
      ensures r.Bad? ==> !r.error.AuthFailed?
      ensures bus.clock >= old(bus.clock) && SameOn(frozen, old(bus.chip.regs), bus.chip.regs)
      ensures !(1 <= length <= 65525) ==> r == Bad(InvalidData) && bus.log == old(bus.log)
      ensures 1 <= length <= 65525 && r.Bad? ==> LastFailed(old(bus.log), bus.log, r.error)
      ensures r.Good? ==> 1 <= length <= 65525 && r.value == RegBytes(bus.chip.regs, WireRegister(register), length)
      ensures Grew(old(bus.log), bus.log,
                   if r.Good? then [Read(WireRegister(register), r.value)] else [], PairBound(1),
                   {WireRegister(register)})
    {
      if length < 1 || length > MAX_DATA {
        GrewNot(bus.log);
        GrewMore(bus.log, bus.log, [], 0, {}, PairBound(1), {WireRegister(register)});
        return Bad(InvalidData);
      }
      ghost var attempts;
      r, attempts := RetryIO(ReadPair(register, length), frozen);
    }

    /** Writes the data to the register, as one write once failures are erased.  Without data it only
        selects the register, and more than the transport takes never reaches the bus. */
    method WriteRegister(register: nat, data: seq<Byte>) returns (r: Reply<seq<Byte>>)
      requires Wired()
      modifies bus
      ensures r.Bad? ==> !r.error.AuthFailed?
      ensures bus.clock >= old(bus.clock)
      ensures old(bus.log) <= bus.log && |bus.log| - |old(bus.log)| <= MAX_ATTEMPTS
      ensures 1 <= |data| < MAX_TRANSACTION ==>
        Grew(old(bus.log), bus.log,
             if r.Good? then [Wrote(WireRegister(register), data)] else [], MAX_ATTEMPTS,
             {WireRegister(register)})
      ensures data == [] && r.Good? ==> bus.chip.pointer == WireRegister(register)
      ensures r.Bad? ==> LastFailed(old(bus.log), bus.log, r.error)
      ensures |data| >= MAX_TRANSACTION ==>
        r.Bad? && AllRefused(bus.log[|old(bus.log)|..], [WireRegister(register)] + data)
    {
      var request := [WireRegister(register)] + data;
      assert request[0] == WireRegister(register) && request[1..] == data;
      ghost var attempts;
      r, attempts := RetryIO(if data == [] then Select(request[0] as nat) else StoreBytes(request), {});
    }

    method ReadByte(register: nat) returns (r: Reply<Byte>)
      requires Wired()
      modifies bus
      ensures r.Bad? ==> !r.error.AuthFailed?
      ensures bus.clock >= old(bus.clock)
      ensures Grew(old(bus.log), bus.log,
                   if r.Good? then [Read(WireRegister(register), [r.value])] else [], PairBound(1),
                   {WireRegister(register)})
      ensures r.Good? ==> r.value == RegByte(bus.chip.regs, WireRegister(register), 0)
      ensures r.Bad? ==> LastFailed(old(bus.log), bus.log, r.error)
    {
      var data := ReadRegister(register, 1, {});
      if data.Bad? {
        return Bad(data.error);
      }
      assert data.value == [data.value[0]];
      return Good(data.value[0]);
    }

    method ReadUnsignedBigEndianShort(register: nat, ghost frozen: set<Byte>) returns (r: Reply<nat>)
      requires Wired() && Frozen(bus.env, frozen)
      modifies bus
      ensures r.Bad? ==> !r.error.AuthFailed?
      ensures bus.clock >= old(bus.clock) && SameOn(frozen, old(bus.chip.regs), bus.chip.regs)
      ensures r.Good? ==> r.value <= 0xffff && BigEndian(r.value) == RegBytes(bus.chip.regs, WireRegister(register), 2)
      ensures r.Good? ==>
        r.value == 256 * RegByte(bus.chip.regs, WireRegister(register), 0) + RegByte(bus.chip.regs, WireRegister(register), 1)
      ensures r.Bad? ==> LastFailed(old(bus.log), bus.log, r.error)
      ensures Grew(old(bus.log), bus.log,
                   if r.Good? then [Read(WireRegister(register), BigEndian(r.value))] else [],
                   PairBound(1), {WireRegister(register)})
    {
      var data := ReadRegister(register, 2, frozen);
      if data.Bad? {
        return Bad(data.error);
      }
      var high: int, low: int := data.value[0], data.value[1];
      assert data.value == BigEndian(high * 256 + low);
      return Good(high * 256 + low);
    }

    method WriteUnsignedBigEndianShort(register: nat, value: int) returns (r: Reply<seq<Byte>>)
      requires Wired()
      modifies bus
      ensures r.Bad? ==> !r.error.AuthFailed?
      ensures bus.clock >= old(bus.clock)
      ensures !(0 <= value <= 0xffff) ==> r == Bad(InvalidData) && bus.log == old(bus.log)
      ensures 0 <= value <= 0xffff && r.Bad? ==> LastFailed(old(bus.log), bus.log, r.error)
      ensures Grew(old(bus.log), bus.log,
                   if r.Good? then [Wrote(WireRegister(register), [value / 256 % 256, value % 256])] else [],
                   MAX_ATTEMPTS, {WireRegister(register)})
    {
      if value < 0 || value > 0xffff {
        GrewNot(bus.log);
        GrewMore(bus.log, bus.log, [], 0, {}, MAX_ATTEMPTS, {WireRegister(register)});
        return Bad(InvalidData);
      }
      r := WriteRegister(register, [value / 256 % 256, value % 256]);
    }

    /** The error code behind a failed authentication, if it can be read at all. */
    method BestEffortErrorCode() returns (code: Option<Byte>)
      requires Wired()
      modifies bus
      ensures bus.clock >= old(bus.clock)
      ensures old(bus.log) <= bus.log && |bus.log| - |old(bus.log)| <= MAX_ATTEMPTS + 1
      ensures InDomain(bus.log[|old(bus.log)|..]) && Touches(bus.log[|old(bus.log)|..], {ERROR_REGISTER})
      ensures |bus.log| > |old(bus.log)| && bus.log[|bus.log| - 1].clean == code.Some?
      ensures code.Some? ==> IsRead(bus.log[|bus.log| - 1]) && code.value == RegByte(bus.chip.regs, 0x05, 0)
    {
      var selected, attempts := RetryIO(Select(ERROR_REGISTER as nat), {});
      if selected.Bad? {
        return None;
      }
      ghost var log := bus.log;
      var result := bus.Transaction(address, [], 1);
      ghost var e := bus.log[|bus.log| - 1];
      assert bus.log == log + [e];
      assert bus.log[|old(bus.log)|..] == log[|old(bus.log)|..] + [e];
      if result.Err? || |result.value| != 1 {
        return None;
      }
      return Some(result.value[0]);
    }

    /** Polls the status register until it reports success: at most 302 polls, and giving up only
        after three seconds. */
    method AwaitSuccess() returns (ok: bool, ghost polls: seq<Op>, ghost tries: nat)
      requires Wired()
      modifies bus
      ensures tries <= 302 && |polls| <= tries
      ensures Grew(old(bus.log), bus.log, polls, PairBound(tries), {AUTH_CONTROL_STATUS})
      ensures if ok then Polled(polls) else Unsuccessful(polls)
      ensures bus.clock >= old(bus.clock) + 10_000_000 && (!ok ==> bus.clock > old(bus.clock) + 3_010_000_000)
    {
      hide Grew, Unsuccessful, Polled;
      bus.Sleep(INITIAL_AUTH_DELAY);
      var deadline := bus.clock + AUTH_TIMEOUT;
      ghost var start := bus.clock;
      polls, tries := [], 0;
      GrewNot(bus.log);
      GrewMore(bus.log, bus.log, [], 0, {}, 0, {AUTH_CONTROL_STATUS});
      NoPolls();
      while true
        invariant tries <= MAX_POLLS - 1 && |polls| <= tries
        invariant start + tries * AUTH_POLL_INTERVAL <= bus.clock
        invariant Grew(old(bus.log), bus.log, polls, PairBound(tries), {AUTH_CONTROL_STATUS})
        invariant Unsuccessful(polls)
        decreases deadline - bus.clock
      {
        ghost var log := bus.log;
        var status := ReadByte(AUTH_CONTROL_STATUS as nat);
        ghost var seen := if status.Good? then [Read(AUTH_CONTROL_STATUS, [status.value])] else [];
        GrewTwice(old(bus.log), log, bus.log, polls, seen, PairBound(tries), PairBound(1),
                  {AUTH_CONTROL_STATUS}, {AUTH_CONTROL_STATUS});
        assert {AUTH_CONTROL_STATUS} + {AUTH_CONTROL_STATUS} == {AUTH_CONTROL_STATUS};
        tries := tries + 1;
        if status.Good? { OnePoll(polls, status.value); } else { assert polls + [] == polls; }
        polls := polls + seen;
        if status.Good? && status.value == AUTH_SUCCESS {
          ok := true;
          return;
        }
        if bus.clock > deadline {
          ok := false;
          return;
        }
        bus.Sleep(AUTH_POLL_INTERVAL);
      }
    }

    /** The three writes that begin a signature. */
    method StartAuthentication(challenge: seq<Byte>) returns (r: Reply<seq<Byte>>)
      requires Wired() && 1 <= |challenge| <= MAX_CHALLENGE
      modifies bus
      ensures r.Bad? ==> !r.error.AuthFailed?
      ensures bus.clock >= old(bus.clock)
      ensures exists ops :: Grew(old(bus.log), bus.log, ops, 3 * MAX_ATTEMPTS,
                                 STARTING)
      ensures r.Good? ==> Grew(old(bus.log), bus.log, StartOps(challenge), 3 * MAX_ATTEMPTS,
                               STARTING)
      ensures r.Bad? ==> LastFailed(old(bus.log), bus.log, r.error)
    {
      hide Grew;
      ghost var all := STARTING;
      r := WriteUnsignedBigEndianShort(CHALLENGE_LENGTH as nat, |challenge|);
      ghost var ops := if r.Good? then [Wrote(CHALLENGE_LENGTH, BigEndian(|challenge|))] else [];
      ghost var log1 := bus.log;
      GrewMore(old(bus.log), bus.log, ops, MAX_ATTEMPTS, {CHALLENGE_LENGTH}, MAX_ATTEMPTS, all);
      if r.Bad? {
        GrewMore(old(bus.log), bus.log, ops, MAX_ATTEMPTS, all, 3 * MAX_ATTEMPTS, all);
        return;
      }
      r := WriteRegister(CHALLENGE_DATA as nat, challenge);
      ghost var more := if r.Good? then [Wrote(CHALLENGE_DATA, challenge)] else [];
      GrewTwice(old(bus.log), log1, bus.log, ops, more, MAX_ATTEMPTS, MAX_ATTEMPTS, all, {CHALLENGE_DATA});
      GrewMore(old(bus.log), bus.log, ops + more, PairBound(1), all + {CHALLENGE_DATA}, PairBound(1), all);
      ghost var log2 := bus.log;
      if r.Bad? {
        GrewMore(old(bus.log), bus.log, ops + more, PairBound(1), all, 3 * MAX_ATTEMPTS, all);
        return;
      }
      r := WriteRegister(AUTH_CONTROL_STATUS as nat, [AUTH_START]);
      ghost var last := if r.Good? then [Wrote(AUTH_CONTROL_STATUS, [AUTH_START])] else [];
      GrewTwice(old(bus.log), log2, bus.log, ops + more, last, PairBound(1), MAX_ATTEMPTS, all, {AUTH_CONTROL_STATUS});
      GrewMore(old(bus.log), bus.log, ops + more + last, 3 * MAX_ATTEMPTS, all + {AUTH_CONTROL_STATUS}, 3 * MAX_ATTEMPTS, all);
    }

    /** The two reads that end a signature.  A failure is that of the last transaction, or the announced
        length is not one of 1 to 65525. */
    method ReadResponse() returns (r: Reply<seq<Byte>>)
      requires Wired()
      modifies bus
      ensures bus.clock >= old(bus.clock)
      ensures r.Bad? ==> !r.error.AuthFailed?
      ensures exists ops :: Grew(old(bus.log), bus.log, ops, PairBound(2), {RESPONSE_LENGTH, RESPONSE_DATA})
      ensures r.Good? ==> 1 <= |r.value| <= 65525 && r.value == RegBytes(bus.chip.regs, 0x12, |r.value|)
      ensures r.Good? ==>
        Grew(old(bus.log), bus.log, ResponseOps(r.value), PairBound(2), {RESPONSE_LENGTH, RESPONSE_DATA})
      ensures r.Bad? ==> FailedOrBadLength(old(bus.log), bus.log, r.error, 0x11)
    {
      hide Grew;
      ghost var all := RESPONSE;
      var length := ReadUnsignedBigEndianShort(RESPONSE_LENGTH as nat, {});
      ghost var ops := if length.Good? then [Read(RESPONSE_LENGTH, BigEndian(length.value))] else [];
      ghost var log := bus.log;
      GrewMore(old(bus.log), bus.log, ops, PairBound(1), {RESPONSE_LENGTH}, PairBound(1), all);
      GrewMore(old(bus.log), bus.log, ops, PairBound(1), all, PairBound(2), all);
      if length.Bad? {
        return Bad(length.error);
      }
      if length.value < 1 || length.value > MAX_DATA {
        BadLength(old(bus.log), bus.log, RESPONSE_LENGTH, length.value, PairBound(2), all);
        return Bad(InvalidData);
      }
      r := ReadRegister(RESPONSE_DATA as nat, length.value, {});
      ghost var more := if r.Good? then [Read(RESPONSE_DATA, r.value)] else [];
      GrewTwice(old(bus.log), log, bus.log, ops, more, PairBound(1), PairBound(1), all, {RESPONSE_DATA});
      GrewMore(old(bus.log), bus.log, ops + more, PairBound(2), all + {RESPONSE_DATA}, PairBound(2), all);
    }

    /** Signs a challenge.  `granted` says whether a poll saw success, and `polledAt` where in the log
        that was: until then no response register is touched and nothing but the start sequence and
        the polls happens, and after it nothing but response registers are touched, whether or not
        the signature succeeds in the end. */
    method SignChallenge(challenge: seq<Byte>)
      returns (r: Reply<seq<Byte>>, ghost polls: seq<Op>, ghost granted: bool, ghost polledAt: nat)
      requires Wired()
      modifies bus
      ensures !(1 <= |challenge| <= 128) ==> r == Bad(InvalidData) && bus.log == old(bus.log)
      ensures old(bus.log) <= bus.log && InDomain(bus.log[|old(bus.log)|..])
      ensures |bus.log| - |old(bus.log)| <= PairBound(MAX_POLLS + 4)
      ensures granted ==> |old(bus.log)| <= polledAt <= |bus.log| && Polled(polls) && |polls| <= MAX_POLLS
      ensures granted ==> Erase(bus.log[|old(bus.log)|..polledAt]) == StartOps(challenge) + polls
      ensures granted ==> Touches(bus.log[|old(bus.log)|..polledAt], BEFORE_RESPONSE)
      ensures granted ==> Touches(bus.log[polledAt..], RESPONSE)
      ensures r.Good? ==> granted && 1 <= |r.value| <= 65525
      ensures r.Good? ==> Erase(bus.log[polledAt..]) == ResponseOps(r.value)
      ensures r.Good? ==> Erase(bus.log[|old(bus.log)|..]) == SigningOps(challenge, polls, r.value)
      ensures r.Good? ==> r.value == RegBytes(bus.chip.regs, 0x12, |r.value|)
      ensures !granted ==> r.Bad? && Touches(bus.log[|old(bus.log)|..], BEFORE_RESPONSE)
      ensures r.Bad? && 1 <= |challenge| <= 128 ==>
        || LastFailed(old(bus.log), bus.log, r.error)
        || (granted && FailedOrBadLength(bus.log[..polledAt], bus.log, r.error, 0x11))
        || (r.error.AuthFailed? && !granted && bus.clock > old(bus.clock) + 3_010_000_000)
      ensures r.Bad? && r.error.AuthFailed? ==>
        && !granted && bus.log != []
        && (if bus.log[|bus.log| - 1].clean then r.error.code == Some(RegByte(bus.chip.regs, 0x05, 0)) else r.error.code == None)
    {
      hide Erase, Settled;
      polls, granted, polledAt := [], false, 0;
      GrewNot(bus.log);
      if |challenge| < 1 || |challenge| > MAX_CHALLENGE {
        return Bad(InvalidData), polls, granted, polledAt;
      }
      var done := StartAuthentication(challenge);
      if done.Bad? {
        return Bad(done.error), polls, granted, polledAt;
      }
      ghost var started := bus.log;
      var ok, seen, tries := AwaitSuccess();
      GrewTwice(old(bus.log), started, bus.log, StartOps(challenge), seen, 3 * MAX_ATTEMPTS,
                PairBound(tries), STARTING, {AUTH_CONTROL_STATUS});
      ghost var polled := bus.log;
      if !ok {
        var code := BestEffortErrorCode();
        TouchesAlso(old(bus.log), polled, bus.log, STARTING + {AUTH_CONTROL_STATUS}, {ERROR_REGISTER});
        return Bad(AuthFailed(code)), polls, granted, polledAt;
      }
      polls, granted, polledAt := seen, true, |polled|;
      r := ReadResponse();
      assert bus.log[|old(bus.log)|..polledAt] == polled[|old(bus.log)|..] && bus.log[..polledAt] == polled;
      if r.Good? {
        GrewTwice(old(bus.log), polled, bus.log, StartOps(challenge) + polls, ResponseOps(r.value),
                  3 * MAX_ATTEMPTS + PairBound(tries), PairBound(2), STARTING + {AUTH_CONTROL_STATUS}, RESPONSE);
      } else {
        TouchesAlso(old(bus.log), polled, bus.log, STARTING + {AUTH_CONTROL_STATUS}, RESPONSE);
      }
    }

    /** Reads the certificate through consecutive 128-byte windows.  Whatever its length, the
        reads partition the result.  If the registers they name do not change meanwhile, the
        result is those registers' content. */
    method ReadCertificate(ghost frozen: set<Byte>) returns (r: Reply<seq<Byte>>, ghost touched: set<Byte>)
      requires Wired() && Frozen(bus.env, frozen)
      modifies bus
      ensures r.Good? ==> 1 <= |r.value| <= 65525
      ensures r.Bad? ==> FailedOrBadLength(old(bus.log), bus.log, r.error, 0x30)
      ensures old(bus.log) <= bus.log && InDomain(bus.log[|old(bus.log)|..])
      ensures r.Good? ==>
        Grew(old(bus.log), bus.log, CertificateOps(r.value), PairBound(1 + WindowCount(|r.value|)), touched)
      ensures r.Good? && CERTIFICATE_LENGTH in frozen ==>
        BigEndian(|r.value|) == RegBytes(old(bus.chip.regs), CERTIFICATE_LENGTH, 2)
      ensures r.Good? && WindowsWithin(|r.value|, frozen) ==>
        r.value == Windows(old(bus.chip.regs), |r.value|, 0, CERTIFICATE_DATA as nat)
    {
      hide Reassembling, Grew, SameOn, Frozen, WindowsWithin, Windows, CertificateOps, InDomain, RegBytes;
      hide FailedOrBadLength, LastFailed, BigEndian, RegByte;
      touched := {CERTIFICATE_LENGTH};
      var length := ReadUnsignedBigEndianShort(CERTIFICATE_LENGTH as nat, frozen);
      if CERTIFICATE_LENGTH in frozen { SameBytes(frozen, old(bus.chip.regs), bus.chip.regs, CERTIFICATE_LENGTH, 2); }
      GrewInDomain(old(bus.log), bus.log,
                   if length.Good? then [Read(CERTIFICATE_LENGTH, BigEndian(length.value))] else [],
                   PairBound(1), {CERTIFICATE_LENGTH});
      if length.Bad? {
        FailedLater(old(bus.log), old(bus.log), bus.log, length.error, CERTIFICATE_LENGTH);
        return Bad(length.error), touched;
      }
      if length.value < 1 || length.value > MAX_DATA {
        BadLength(old(bus.log), bus.log, CERTIFICATE_LENGTH, length.value, PairBound(1), {CERTIFICATE_LENGTH});
        return Bad(InvalidData), touched;
      }
      ghost var k := 0;
      var certificate := new Byte[length.value];
      var offset, register := 0, CERTIFICATE_DATA as nat;
      NoWindows(old(bus.log), bus.log, old(bus.chip.regs), bus.chip.regs, frozen, length.value);
      assert certificate[..0] == [];
      while offset < length.value
        invariant 0 <= offset <= length.value == certificate.Length && register == CERTIFICATE_DATA as nat + k
        invariant fresh(certificate)
        invariant Reassembling(old(bus.log), bus.log, old(bus.chip.regs), bus.chip.regs, frozen, length.value,
                               certificate[..offset], k, touched)
      {
        var count := if 128 < length.value - offset then 128 else length.value - offset;
        ghost var before, log, regs := certificate[..offset], bus.log, bus.chip.regs;
        var window := ReadRegister(register, count, frozen);
        if window.Bad? {
          StopsInDomain(old(bus.log), log, bus.log, old(bus.chip.regs), regs, frozen, length.value, before, k,
                        touched, register);
          FailedLater(old(bus.log), log, bus.log, window.error, CERTIFICATE_LENGTH);
          return Bad(window.error), touched;
        }
        OneWindow(old(bus.log), log, bus.log, old(bus.chip.regs), regs, bus.chip.regs, frozen, length.value,
                  before, window.value, k, touched);
        forall i | 0 <= i < count {
          certificate[offset + i] := window.value[i];
        }
        assert certificate[..offset + count] == before + window.value;
        touched := touched + {WireRegister(register)};
        offset, register, k := offset + count, register + 1, k + 1;
      }
      assert certificate[..offset] == certificate[..];
      AllWindows(old(bus.log), bus.log, old(bus.chip.regs), bus.chip.regs, frozen, certificate[..], k, touched);
      return Good(certificate[..]), touched;
    }
  }

  function WindowCount(length: nat): nat {
    (length + 128 - 1) / 128
  }

  function CertificateOps(certificate: seq<Byte>): seq<Op> {
    [Read(CERTIFICATE_LENGTH, BigEndian(|certificate|))] + WindowOps(certificate, 0, CERTIFICATE_DATA as nat)
  }

  /** The state of a reassembly after k windows. */
  ghost predicate Reassembling(before: seq<Entry>, after: seq<Entry>, regs0: Registers, regs: Registers,
                               frozen: set<Byte>, length: nat, prefix: seq<Byte>, k: nat, touched: set<Byte>)
  {
    && |prefix| == (if 128 * k <= length then 128 * k else length) && 128 * k < length + 128
    && Grew(before, after,
            [Read(CERTIFICATE_LENGTH, BigEndian(length))] + WindowOps(prefix, 0, CERTIFICATE_DATA as nat),
            PairBound(1 + k), touched)
    && SameOn(frozen, regs0, regs)
    && (WindowsWithin(length, frozen) ==>
        prefix + Windows(regs0, length, |prefix|, CERTIFICATE_DATA as nat + k) ==
        Windows(regs0, length, 0, CERTIFICATE_DATA as nat))
  }

  lemma NoWindows(before: seq<Entry>, after: seq<Entry>, regs0: Registers, regs: Registers,
                  frozen: set<Byte>, length: nat)
    requires Grew(before, after, [Read(CERTIFICATE_LENGTH, BigEndian(length))], PairBound(1), {CERTIFICATE_LENGTH})
    requires SameOn(frozen, regs0, regs)
    ensures Reassembling(before, after, regs0, regs, frozen, length, [], 0, {CERTIFICATE_LENGTH})
  {
    var ops := [Read(CERTIFICATE_LENGTH, BigEndian(length))];
    assert ops + [] == ops;
    assert [] + Windows(regs0, length, 0, CERTIFICATE_DATA as nat) == Windows(regs0, length, 0, CERTIFICATE_DATA as nat);
  }

  lemma OneWindow(before: seq<Entry>, middle: seq<Entry>, after: seq<Entry>, regs0: Registers, regs1: Registers,
                  regs: Registers, frozen: set<Byte>, length: nat, prefix: seq<Byte>, window: seq<Byte>,
                  k: nat, touched: set<Byte>)
    requires Reassembling(before, middle, regs0, regs1, frozen, length, prefix, k, touched) && |prefix| < length
    requires |window| == if 128 < length - |prefix| then 128 else length - |prefix|
    requires var register := WireRegister(CERTIFICATE_DATA as nat + k);
      && Grew(middle, after, [Read(register, window)], PairBound(1), {register})
      && window == RegBytes(regs, register, |window|)
    requires SameOn(frozen, regs1, regs)
    ensures Reassembling(before, after, regs0, regs, frozen, length, prefix + window, k + 1,
                         touched + {WireRegister(CERTIFICATE_DATA as nat + k)})
  {
    hide Grew, RegBytes, WindowOps, SameOn, WindowsWithin, Windows, WireRegister, BigEndian;
    var register := WireRegister(CERTIFICATE_DATA as nat + k);
    var first := [Read(CERTIFICATE_LENGTH, BigEndian(length))];
    var ops := WindowOps(prefix, 0, CERTIFICATE_DATA as nat);
    OneWindowLogged(before, middle, after, first, prefix, window, k, touched);
    SameTwice(frozen, regs0, regs1, regs);
    if WindowsWithin(length, frozen) {
      WithinHas(length, frozen, k);
      SameBytes(frozen, regs0, regs, register, |window|);
      WindowsStep(regs0, length, |prefix|, CERTIFICATE_DATA as nat + k);
      Assoc(prefix, window, Windows(regs0, length, |prefix + window|, CERTIFICATE_DATA as nat + k + 1));
    }
  }

  lemma WithinHas(length: nat, registers: set<Byte>, k: nat)
    requires WindowsWithin(length, registers) && 128 * k < length
    ensures WireRegister(CERTIFICATE_DATA as nat + k) in registers
  {
  }

  lemma GrewInDomain(before: seq<Entry>, after: seq<Entry>, ops: seq<Op>, limit: nat, touched: set<Byte>)
    requires Grew(before, after, ops, limit, touched)
    ensures before <= after && InDomain(after[|before|..]) && Touches(after[|before|..], touched)
  {
  }

  lemma OneWindowLogged(before: seq<Entry>, middle: seq<Entry>, after: seq<Entry>, first: seq<Op>,
                        prefix: seq<Byte>, window: seq<Byte>, k: nat, touched: set<Byte>)
    requires |prefix| == 128 * k && 0 < |window| <= 128
    requires Grew(before, middle, first + WindowOps(prefix, 0, CERTIFICATE_DATA as nat), PairBound(1 + k), touched)
    requires var register := WireRegister(CERTIFICATE_DATA as nat + k);
      Grew(middle, after, [Read(register, window)], PairBound(1), {register})
    ensures Grew(before, after, first + WindowOps(prefix + window, 0, CERTIFICATE_DATA as nat),
                 PairBound(2 + k), touched + {WireRegister(CERTIFICATE_DATA as nat + k)})
  {
    hide Grew, WindowOps;
    var register := WireRegister(CERTIFICATE_DATA as nat + k);
    var ops := WindowOps(prefix, 0, CERTIFICATE_DATA as nat);
    GrewTwice(before, middle, after, first + ops, [Read(register, window)],
              PairBound(1 + k), PairBound(1), touched, {register});
    NextWindow(prefix, window, 0, CERTIFICATE_DATA as nat, k);
    Assoc(first, ops, [Read(register, window)]);
  }

  lemma StopsInDomain(before: seq<Entry>, middle: seq<Entry>, after: seq<Entry>, regs0: Registers, regs: Registers,
                      frozen: set<Byte>, length: nat, prefix: seq<Byte>, k: nat, touched: set<Byte>, register: nat)
    requires Reassembling(before, middle, regs0, regs, frozen, length, prefix, k, touched)
    requires Grew(middle, after, [], PairBound(1), {WireRegister(register)})
    ensures |before| <= |middle|
    ensures before <= after && InDomain(after[|before|..])
  {
    assert after[|before|..] == middle[|before|..] + after[|middle|..];
  }

  lemma AllWindows(before: seq<Entry>, after: seq<Entry>, regs0: Registers, regs: Registers,
                   frozen: set<Byte>, certificate: seq<Byte>, k: nat, touched: set<Byte>)
    requires Reassembling(before, after, regs0, regs, frozen, |certificate|, certificate, k, touched)
    ensures Grew(before, after, CertificateOps(certificate), PairBound(1 + WindowCount(|certificate|)), touched)
    ensures before <= after && InDomain(after[|before|..])
    ensures WindowsWithin(|certificate|, frozen) ==>
      certificate == Windows(regs0, |certificate|, 0, CERTIFICATE_DATA as nat)
  {
    assert k <= WindowCount(|certificate|);
    assert certificate + [] == certificate;
  }

  /** The reads that make up a certificate from an offset on. */
  function WindowOps(certificate: seq<Byte>, offset: nat, register: nat): seq<Op>
    requires offset <= |certificate|
    decreases |certificate| - offset
  {
    if offset == |certificate| then []
    else
      var end := if offset + 128 < |certificate| then offset + 128 else |certificate|;
      [Read(WireRegister(register), certificate[offset..end])] + WindowOps(certificate, end, register + 1)
  }

  /** The reads of a certificate spelled out: its length, most significant byte first, from 0x30, and then
      from 0x31 and the following registers 128 bytes each, or what is left. */
  lemma {:induction false} WindowAt(certificate: seq<Byte>, offset: nat, register: nat, k: nat)
    requires offset + 128 * k < |certificate|
    ensures |WindowOps(certificate, offset, register)| > k
    ensures var from, left := offset + 128 * k, |certificate| - offset - 128 * k;
      WindowOps(certificate, offset, register)[k] ==
        Read((register + k) % 256, certificate[from..from + if left < 128 then left else 128])
    decreases k
  {
    if k > 0 {
      WindowAt(certificate, offset + 128, register + 1, k - 1);
    }
  }

  lemma CertificateSpelledOut(certificate: seq<Byte>, k: nat)
    requires |certificate| <= 65525 && 128 * k < |certificate|
    ensures CertificateOps(certificate)[0] == Read(0x30, [|certificate| / 256, |certificate| % 256])
    ensures |CertificateOps(certificate)| > k + 1
    ensures CertificateOps(certificate)[k + 1] ==
      Read((0x31 + k) % 256, certificate[128 * k..128 * k + if |certificate| - 128 * k < 128 then |certificate| - 128 * k else 128])
  {
    WindowAt(certificate, 0, CERTIFICATE_DATA as nat, k);
  }

  /** Adding a window behind whole windows adds one read, of the next register. */
  lemma {:induction false} NextWindow(before: seq<Byte>, window: seq<Byte>, offset: nat, register: nat, k: nat)
    requires |before| == offset + 128 * k && 0 < |window| <= 128
    ensures WindowOps(before + window, offset, register) ==
      WindowOps(before, offset, register) + [Read(WireRegister(register + k), window)]
    decreases k
  {
    var all := before + window;
    if k == 0 {
      assert all[offset..] == window && all[offset..|all|] == window;
      assert WindowOps(all, |all|, register + 1) == [];
    } else {
      var end := offset + 128;
      assert all[offset..end] == before[offset..end];
      NextWindow(before, window, end, register + 1, k - 1);
      Assoc([Read(WireRegister(register), before[offset..end])], WindowOps(before, end, register + 1),
            [Read(WireRegister(register + k), window)]);
    }
  }

  /** The same bytes taken from a register file. */
  function Windows(regs: Registers, length: nat, offset: nat, register: nat): (bytes: seq<Byte>)
    requires offset <= length
    ensures |bytes| == length - offset
    decreases length - offset
  {
    if offset == length then []
    else
      var count := if 128 < length - offset then 128 else length - offset;
      RegBytes(regs, WireRegister(register), count) + Windows(regs, length, offset + count, register + 1)
  }

  ghost predicate WindowsWithin(length: nat, registers: set<Byte>) {
    forall k: nat | 128 * k < length :: WireRegister(CERTIFICATE_DATA as nat + k) in registers
  }

  lemma SameBytes(frozen: set<Byte>, a: Registers, b: Registers, register: Byte, n: nat)
    requires SameOn(frozen, a, b) && register in frozen
    ensures RegBytes(a, register, n) == RegBytes(b, register, n)
  {
  }

  const STARTING: set<Byte> := {CHALLENGE_LENGTH, CHALLENGE_DATA, AUTH_CONTROL_STATUS}
  const RESPONSE: set<Byte> := {RESPONSE_LENGTH, RESPONSE_DATA}
  const BEFORE_RESPONSE: set<Byte> := {CHALLENGE_LENGTH, CHALLENGE_DATA, AUTH_CONTROL_STATUS, ERROR_REGISTER}

  function StartOps(challenge: seq<Byte>): seq<Op> {
    [Wrote(CHALLENGE_LENGTH, BigEndian(|challenge|))] + [Wrote(CHALLENGE_DATA, challenge)] +
    [Wrote(AUTH_CONTROL_STATUS, [AUTH_START])]
  }

  function ResponseOps(signature: seq<Byte>): seq<Op> {
    [Read(RESPONSE_LENGTH, BigEndian(|signature|))] + [Read(RESPONSE_DATA, signature)]
  }

  /** The documented register sequence of a signature. */
  function SigningOps(challenge: seq<Byte>, polls: seq<Op>, signature: seq<Byte>): seq<Op> {
    StartOps(challenge) + polls + ResponseOps(signature)
  }

  /** The signing sequence spelled out: the length of the challenge, most significant byte first, to 0x20;
      the challenge to 0x21; 0x01 to 0x10; polls of 0x10 of which the last and only the last reads 0x10;
      the length of the signature from 0x11 and the signature from 0x12. */
  lemma SigningSpelledOut(challenge: seq<Byte>, polls: seq<Op>, signature: seq<Byte>)
    requires |challenge| <= 128 && |signature| <= 65525 && Polled(polls)
    ensures SigningOps(challenge, polls, signature) ==
      [Wrote(0x20, [0x00, |challenge|]), Wrote(0x21, challenge), Wrote(0x10, [0x01])] + polls +
      [Read(0x11, [|signature| / 256, |signature| % 256]), Read(0x12, signature)]
    ensures polls != [] && polls[|polls| - 1] == Read(0x10, [0x10])
    ensures forall i | 0 <= i < |polls| - 1 :: polls[i].Read? && polls[i].register == 0x10 && polls[i].data != [0x10]
    ensures BEFORE_RESPONSE == {0x20, 0x21, 0x10, 0x05} && RESPONSE == {0x11, 0x12}
  {
  }

  lemma TouchesAlso(a: seq<Entry>, b: seq<Entry>, c: seq<Entry>, first: set<Byte>, second: set<Byte>)
    requires a <= b && b <= c
    requires InDomain(b[|a|..]) && InDomain(c[|b|..]) && Touches(b[|a|..], first) && Touches(c[|b|..], second)
    ensures InDomain(c[|a|..]) && Touches(c[|a|..], first + second)
  {
    assert c[|a|..] == b[|a|..] + c[|b|..];
  }

  /** An unsigned short, most significant byte first. */
  function BigEndian(value: int): (bytes: seq<Byte>)
    ensures |bytes| == 2 && (0 <= value <= 65535 ==> 256 * (bytes[0] as int) + bytes[1] as int == value)
  {
    [value / 256 % 256, value % 256]
  }

  predicate Unsuccessful(polls: seq<Op>) {
    forall i | 0 <= i < |polls| ::
      polls[i].Read? && polls[i].register == AUTH_CONTROL_STATUS && |polls[i].data| == 1 &&
      polls[i].data[0] != AUTH_SUCCESS
  }

  lemma NoPolls()
    ensures Unsuccessful([])
  {
  }

  lemma OnePoll(polls: seq<Op>, status: Byte)
    requires Unsuccessful(polls)
    ensures if status == AUTH_SUCCESS then Polled(polls + [Read(AUTH_CONTROL_STATUS, [status])])
            else Unsuccessful(polls + [Read(AUTH_CONTROL_STATUS, [status])])
  {
    var all := polls + [Read(AUTH_CONTROL_STATUS, [status])];
    assert all[..|all| - 1] == polls;
  }

  /** Some polls, of which exactly the last saw success. */
  predicate Polled(polls: seq<Op>) {
    && polls != []
    && polls[|polls| - 1] == Read(AUTH_CONTROL_STATUS, [AUTH_SUCCESS])
    && Unsuccessful(polls[..|polls| - 1])
  }

  lemma NothingYet(a: Action, chip: Chip, log: seq<Entry>)
    requires Sensible(a)
    ensures Did(a, Bad(InvalidData), chip, log, log, 0)
  {
    GrewNot(log);
    GrewMore(log, log, [], 0, {}, 0, TouchedBy(a));
  }

  lemma StillInDomain(before: seq<Entry>, middle: seq<Entry>, after: seq<Entry>, touched: set<Byte>)
    requires before <= middle <= after
    requires InDomain(middle[|before|..]) && Touches(middle[|before|..], touched)
    requires InDomain(after[|middle|..]) && Touches(after[|middle|..], touched)
    ensures InDomain(after[|before|..]) && Touches(after[|before|..], touched)
  {
    assert after[|before|..] == middle[|before|..] + after[|middle|..];
  }

  lemma OnceMore(a: Action, r: Reply<seq<Byte>>, chip0: Chip, chip: Chip,
                 before: seq<Entry>, middle: seq<Entry>, after: seq<Entry>, tries: nat)
    requires Sensible(a) && Did(a, Bad(InvalidData), chip0, before, middle, tries * Cost(a))
    requires Did(a, r, chip, middle, after, Cost(a)) && tries < MAX_ATTEMPTS
    ensures Did(a, r, chip, before, after, (tries + 1) * Cost(a))
    ensures r.Bad? ==> Did(a, Bad(InvalidData), chip, before, after, (tries + 1) * Cost(a))
  {
    hide Grew, OpOf, RegBytes, InDomain, Touches;
    assert (tries + 1) * Cost(a) == tries * Cost(a) + Cost(a);
    if Oversized(a) {
      assert after[|before|..] == middle[|before|..] + after[|middle|..];
    } else if a.Select? {
      StillInDomain(before, middle, after, TouchedBy(a));
    } else {
      var ops := if r.Good? then [OpOf(a, r.value)] else [];
      GrewTwice(before, middle, after, [], ops, tries * Cost(a), Cost(a), TouchedBy(a), TouchedBy(a));
      assert TouchedBy(a) + TouchedBy(a) == TouchedBy(a);
      assert [] + ops == ops;
    }
  }

  predicate AllTransportFailures(before: seq<Entry>, after: seq<Entry>) {
    forall i | |before| <= i < |after| && !after[i].clean :: after[i].error.Some? && after[i].error != Some(Plain)
  }

  lemma Prefixes(a: Action, r: Reply<seq<Byte>>, chip0: Chip, chip: Chip,
                 before: seq<Entry>, middle: seq<Entry>, after: seq<Entry>, tries: nat)
    requires Sensible(a) && Did(a, Bad(InvalidData), chip0, before, middle, tries * Cost(a))
    requires Did(a, r, chip, middle, after, Cost(a))
    ensures before <= middle <= after
  {
  }

  lemma FailuresSoFar(before: seq<Entry>, middle: seq<Entry>, after: seq<Entry>)
    requires before <= middle <= after && |middle| < |after|
    requires AllTransportFailures(before, middle) && CleanUpToLast(middle, after)
    ensures TransportFailures(before, after)
    ensures forall error | LastFailed(middle, after, error) && Retryable(error) :: AllTransportFailures(before, after)
  {
    forall i | |before| <= i < |after| - 1 && !after[i].clean ensures after[i].error.Some? && after[i].error != Some(Plain) {
      assert i < |middle| && after[i] == middle[i];
    }
  }

  lemma SameTwice(registers: set<Byte>, a: Registers, b: Registers, c: Registers)
    ensures SameOn(registers, a, a)
    ensures SameOn(registers, a, b) && SameOn(registers, b, c) ==> SameOn(registers, a, c)
  {
  }

  // ---------------------------------------------------------------- the certificate

  const CERTIFICATE_SPACE := 26496

  /** The chip's documented layout: the length in register 0x30, the bytes in 128-byte windows in
      register 0x31 and those that follow. */
  ghost predicate HoldsCertificate(regs: Registers, certificate: seq<Byte>) {
    && 256 * (RegByte(regs, 0x30, 0) as int) + RegByte(regs, 0x30, 1) as int == |certificate|
    && forall i | 0 <= i < |certificate| ::
         RegByte(regs, WireRegister(CERTIFICATE_DATA as nat + i / 128), i % 128) == certificate[i]
  }

  lemma {:induction false} WindowByte(regs: Registers, length: nat, k: nat, i: nat)
    requires 128 * k + i < length
    ensures Windows(regs, length, 128 * k, CERTIFICATE_DATA as nat + k)[i] ==
      RegByte(regs, WireRegister(CERTIFICATE_DATA as nat + k + i / 128), i % 128)
    decreases i
  {
    hide Windows, RegByte, RegBytes, WireRegister;
    var offset, register := 128 * k, CERTIFICATE_DATA as nat + k;
    var count := if 128 < length - offset then 128 else length - offset;
    var first := RegBytes(regs, WireRegister(register), count);
    var rest := Windows(regs, length, offset + count, register + 1);
    WindowsStep(regs, length, offset, register);
    if i < 128 {
      FirstOf(regs, WireRegister(register), i, count);
      assert (first + rest)[i] == first[i];
    } else {
      var j := i - 128;
      assert (first + rest)[i] == rest[j];
      WindowByte(regs, length, k + 1, j);
    }
  }

  lemma WindowsStep(regs: Registers, length: nat, offset: nat, register: nat)
    requires offset < length
    ensures var count := if 128 < length - offset then 128 else length - offset;
      Windows(regs, length, offset, register) ==
      RegBytes(regs, WireRegister(register), count) + Windows(regs, length, offset + count, register + 1)
  {
  }

  lemma FirstOf(regs: Registers, register: Byte, i: nat, n: nat)
    requires i < n
    ensures RegBytes(regs, register, n)[i] == RegByte(regs, register, i)
  {
  }

  /** What the driver reassembles from a chip that holds a certificate is the certificate. */
  lemma CertificateReassembled(regs: Registers, certificate: seq<Byte>)
    requires HoldsCertificate(regs, certificate)
    ensures Windows(regs, |certificate|, 0, CERTIFICATE_DATA as nat) == certificate
  {
    hide Windows, RegBytes, RegByte, WireRegister, BigEndian;
    var bytes := Windows(regs, |certificate|, 0, CERTIFICATE_DATA as nat);
    forall i | 0 <= i < |certificate| ensures bytes[i] == certificate[i] {
      WindowByte(regs, |certificate|, 0, i);
    }
  }

  /** So a successful `ReadCertificate` of such a chip returns the certificate: its length is the
      announced one and its bytes are the windows'. */
  lemma CertificateIsRead(regs: Registers, certificate: seq<Byte>, value: seq<Byte>)
    requires HoldsCertificate(regs, certificate) && |value| <= 65525
    requires BigEndian(|value|) == RegBytes(regs, CERTIFICATE_LENGTH, 2)
    requires value == Windows(regs, |value|, 0, CERTIFICATE_DATA as nat)
    ensures value == certificate
  {
    hide BigEndian, Windows, WireRegister;
    assert BigEndian(|value|)[0] == RegByte(regs, 0x30, 0) && BigEndian(|value|)[1] == RegByte(regs, 0x30, 1);
    hide RegBytes, RegByte;
    assert |value| == |certificate|;
    CertificateReassembled(regs, certificate);
  }

  /** The windows have registers of their own, all of them behind 0x31, exactly up to 26496 bytes.
      One more byte and a window is read from register 0x00, although the driver accepts lengths
      up to 65525. */
  lemma RegistersSuffice(length: nat)
    ensures (forall k: nat | 128 * k < length :: WireRegister(CERTIFICATE_DATA as nat + k) == CERTIFICATE_DATA as nat + k)
      <==> length <= CERTIFICATE_SPACE
    ensures 128 * 207 == CERTIFICATE_SPACE && WireRegister(CERTIFICATE_DATA as nat + 207) == 0x00
  {
    if length > CERTIFICATE_SPACE {
      assert 128 * 207 < length && WireRegister(CERTIFICATE_DATA as nat + 207) != CERTIFICATE_DATA as nat + 207;
    }
  }

  /** Beyond that, the reassembled bytes are those of register 0x00. */
  lemma CertificateWraps(regs: Registers, length: nat)
    requires length > CERTIFICATE_SPACE
    ensures Windows(regs, length, 0, CERTIFICATE_DATA as nat)[CERTIFICATE_SPACE] == RegByte(regs, 0x00, 0)
  {
    hide Windows, RegBytes, RegByte;
    WindowByte(regs, length, 0, CERTIFICATE_SPACE);
    assert CERTIFICATE_SPACE / 128 == 207 && CERTIFICATE_SPACE % 128 == 0;
  }
}
