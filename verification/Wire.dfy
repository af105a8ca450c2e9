/** The CH341 command stream and the I2C bus it drives.

    The bridge accepts packets of at most 32 bytes.  A packet is the mark 0xaa followed by
    commands, and ends at the first END command (0x00) or at its last byte.  `Decode` is the
    bridge's reading of such a packet and `Trace` is what it then does on the bus, in the terms
    of the NXP I2C-bus specification UM10204 (sections 3.1.4, 3.1.5, 3.1.6 and 3.1.10).
    Neither mentions the encoder. */
module Wire {
  import opened Outcome

  type Byte = b: int | 0 <= b < 256

  const MAX_PACKET := 32
  const MARK: Byte := 0xaa
  const END: Byte := 0x00
  const I2C_START: Byte := 0x74
  const I2C_STOP: Byte := 0x75
  const WRITE: Byte := 0x80
  const READ: Byte := 0xc0
  const MAX_TRANSACTION := 0xffff

  /** One bridge command.  `WriteOne` reports a status byte, `WriteBlock` reports none. */
  datatype Command =
    | Speed(code: Byte)
    | Start
    | Stop
    | WriteOne(value: Byte)
    | WriteBlock(values: seq<Byte>)
    | ReadAcked(count: nat)
    | ReadLast

  /** What happens on the bus; a change of its speed is an event of its own. */
  datatype Event =
    | SpeedSet(code: Byte)
    | StartCondition
    | Sent(value: Byte)
    | ReceivedAck
    | ReceivedNack
    | StopCondition

  predicate ValidCommand(c: Command) {
    match c
    case Speed(code) => 0x60 <= code <= 0x63
    case WriteBlock(values) => 1 <= |values| <= 0x3f
    case ReadAcked(count) => 1 <= count <= 0x3f
    case _ => true
  }

  function Encode(c: Command): seq<Byte>
    requires ValidCommand(c)
  {
    match c
    case Speed(code) => [code]
    case Start => [I2C_START]
    case Stop => [I2C_STOP]
    case WriteOne(value) => [WRITE, value]
    case WriteBlock(values) => [WRITE + |values|] + values
    case ReadAcked(count) => [READ + count]
    case ReadLast => [READ]
  }

  predicate ValidCommands(cs: seq<Command>) {
    cs == [] || (ValidCommand(cs[0]) && ValidCommands(cs[1..]))
  }

  function EncodeAll(cs: seq<Command>): seq<Byte>
    requires ValidCommands(cs)
  {
    if cs == [] then [] else Encode(cs[0]) + EncodeAll(cs[1..])
  }

  /** Puts commands in front of a decoded tail, if the tail decodes. */
  function Prepend(cs: seq<Command>, tail: Option<seq<Command>>): Option<seq<Command>> {
    match tail
    case None => None
    case Some(rest) => Some(cs + rest)
  }

  /** How the bridge reads the bytes after the mark: None is an unknown or truncated command. */
  function Decode(s: seq<Byte>): Option<seq<Command>> {
    if s == [] || s[0] == END then Some([])
    else if s[0] == I2C_START then Prepend([Start], Decode(s[1..]))
    else if s[0] == I2C_STOP then Prepend([Stop], Decode(s[1..]))
    else if 0x60 <= s[0] <= 0x63 then Prepend([Speed(s[0])], Decode(s[1..]))
    else if s[0] == WRITE then
      if |s| < 2 then None else Prepend([WriteOne(s[1])], Decode(s[2..]))
    else if WRITE < s[0] < READ then
      var n := s[0] - WRITE;
      if |s| < 1 + n then None else Prepend([WriteBlock(s[1..1 + n])], Decode(s[1 + n..]))
    else if s[0] == READ then Prepend([ReadLast], Decode(s[1..]))
    else if READ < s[0] then Prepend([ReadAcked(s[0] - READ)], Decode(s[1..]))
    else None
  }

  function DecodePacket(p: seq<Byte>): Option<seq<Command>> {
    if p == [] || p[0] != MARK then None else Decode(p[1..])
  }

  function Sends(values: seq<Byte>): seq<Event> {
    if values == [] then [] else [Sent(values[0])] + Sends(values[1..])
  }

  function Acks(n: nat): seq<Event> {
    if n == 0 then [] else [ReceivedAck] + Acks(n - 1)
  }

  function Events(c: Command): seq<Event> {
    match c
    case Speed(code) => [SpeedSet(code)]
    case Start => [StartCondition]
    case Stop => [StopCondition]
    case WriteOne(value) => [Sent(value)]
    case WriteBlock(values) => Sends(values)
    case ReadAcked(count) => Acks(count)
    case ReadLast => [ReceivedNack]
  }

  function Trace(cs: seq<Command>): seq<Event> {
    if cs == [] then [] else Events(cs[0]) + Trace(cs[1..])
  }

  /** Status bytes the bridge reports for a command, and data bytes it returns for it. */
  function Statuses(c: Command): nat {
    if c.WriteOne? then 1 else 0
  }

  function DataBytes(c: Command): nat {
    match c
    case ReadAcked(count) => count
    case ReadLast => 1
    case _ => 0
  }

  function StatusCount(cs: seq<Command>): nat {
    if cs == [] then 0 else Statuses(cs[0]) + StatusCount(cs[1..])
  }

  function DataCount(cs: seq<Command>): nat {
    if cs == [] then 0 else DataBytes(cs[0]) + DataCount(cs[1..])
  }

  /** For every byte a command sends, in order, whether a status reports on it. */
  function Marks(c: Command): seq<bool> {
    match c
    case WriteOne(_) => [true]
    case WriteBlock(values) => Repeat(false, |values|)
    case _ => []
  }

  function MarksOf(cs: seq<Command>): seq<bool> {
    if cs == [] then [] else Marks(cs[0]) + MarksOf(cs[1..])
  }

  function Repeat<T>(x: T, n: nat): seq<T> {
    if n == 0 then [] else [x] + Repeat(x, n - 1)
  }

  /** A packet that reports statuses and returns data. */
  predicate Mixed(cs: seq<Command>) {
    StatusCount(cs) > 0 && DataCount(cs) > 0
  }

  predicate AnyMixed(packets: seq<seq<Byte>>) {
    packets != [] &&
    ((DecodePacket(packets[0]).Some? && Mixed(DecodePacket(packets[0]).value)) || AnyMixed(packets[1..]))
  }

  /** The stream cut every 32 bytes, which is how it is sent to the bridge. */
  function Packets(stream: seq<Byte>): seq<seq<Byte>> {
    if stream == [] then []
    else if |stream| <= MAX_PACKET then [stream]
    else [stream[..MAX_PACKET]] + Packets(stream[MAX_PACKET..])
  }

  /** All commands of a list of packets, in order; None if some packet does not decode. */
  function Interpret(packets: seq<seq<Byte>>): Option<seq<Command>> {
    if packets == [] then Some([])
    else match DecodePacket(packets[0])
      case None => None
      case Some(cs) => Prepend(cs, Interpret(packets[1..]))
  }

  /** The bus transaction a request asks for. */
  function RequestedTrace(address: Byte, data: seq<Byte>, readLength: nat): (t: seq<Event>)
    requires address <= 0x7f
  {
    WriteTrace(address, data) + ReadTrace(address, readLength) + [StopCondition]
  }

  function WriteTrace(address: Byte, data: seq<Byte>): seq<Event>
    requires address <= 0x7f
  {
    if data == [] then [] else [StartCondition, Sent(address * 2)] + Sends(data)
  }

  function ReadTrace(address: Byte, readLength: nat): seq<Event>
    requires address <= 0x7f
  {
    if readLength == 0 then []
    else [StartCondition, Sent(address * 2 + 1)] + ReadTail(readLength)
  }

  /** Every byte read is acknowledged but the last. */
  function ReadTail(readLength: nat): seq<Event>
    requires readLength > 0
  {
    Acks(readLength - 1) + [ReceivedNack]
  }

  /** Shape of one packet's commands that the reply handling relies on: no status after data,
      at most 32 data bytes, and every START directly followed by the byte that addresses. */
  predicate StatusesFirst(cs: seq<Command>) {
    cs == [] || ((DataBytes(cs[0]) == 0 || StatusCount(cs[1..]) == 0) && StatusesFirst(cs[1..]))
  }

  predicate IsWrite(c: Command) {
    c.WriteOne? || c.WriteBlock?
  }

  predicate StartsAddressed(cs: seq<Command>) {
    cs == [] || ((cs[0].Start? ==> |cs| > 1 && IsWrite(cs[1])) && StartsAddressed(cs[1..]))
  }

  predicate PacketShape(cs: seq<Command>) {
    StatusesFirst(cs) && StartsAddressed(cs) && DataCount(cs) <= 32
  }

  predicate WellFormedPacket(p: seq<Byte>) {
    |p| <= MAX_PACKET && DecodePacket(p).Some? && PacketShape(DecodePacket(p).value)
  }

  predicate WellFormed(packets: seq<seq<Byte>>) {
    packets == [] || (WellFormedPacket(packets[0]) && WellFormed(packets[1..]))
  }

  /** What a correct compilation of a request is: every 32-byte cut is a well formed packet,
      and interpreting the cuts in order performs exactly the requested transaction. */
  predicate Compiled(stream: seq<Byte>, address: Byte, data: seq<Byte>, readLength: nat) {
    && address <= 0x7f
    && WellFormed(Packets(stream))
    && Interpret(Packets(stream)).Some?
    && Trace(Interpret(Packets(stream)).value) == RequestedTrace(address, data, readLength)
  }

  // ---------------------------------------------------------------- lemmas

  lemma Assoc<T>(a: seq<T>, b: seq<T>, c: seq<T>)
    ensures a + b + c == a + (b + c)
  {
  }

  lemma Cons<T>(a: seq<T>, b: seq<T>)
    requires a != []
    ensures (a + b)[0] == a[0] && (a + b)[1..] == a[1..] + b
  {
  }

  lemma {:induction false} EncodeAllConcat(a: seq<Command>, b: seq<Command>)
    requires ValidCommands(a) && ValidCommands(b)
    ensures ValidCommands(a + b) && EncodeAll(a + b) == EncodeAll(a) + EncodeAll(b)
  {
    if a == [] {
      assert a + b == b;
    } else {
      Cons(a, b);
      EncodeAllConcat(a[1..], b);
      Assoc(Encode(a[0]), EncodeAll(a[1..]), EncodeAll(b));
    }
  }

  /** Decoding is a left inverse of encoding, whatever the payload bytes are: commands put in
      front of any bytes decode to those commands in front of what the bytes decode to. */
  lemma {:induction false} DecodeEncode(cs: seq<Command>, rest: seq<Byte>)
    requires ValidCommands(cs)
    ensures Decode(EncodeAll(cs) + rest) == Prepend(cs, Decode(rest))
  {
    if cs == [] {
      assert EncodeAll(cs) + rest == rest;
      PrependNothing(Decode(rest));
    } else {
      var tail := EncodeAll(cs[1..]) + rest;
      var more := Decode(rest);
      assert Decode(tail) == Prepend(cs[1..], more) by { DecodeEncode(cs[1..], rest); }
      assert EncodeAll(cs) + rest == Encode(cs[0]) + tail;
      DecodeOne(cs[0], tail);
      PrependTwice(cs, more);
    }
  }

  lemma PrependNothing(tail: Option<seq<Command>>)
    ensures Prepend([], tail) == tail
  {
    if tail.Some? { assert [] + tail.value == tail.value; }
  }

  lemma PrependTwice(cs: seq<Command>, tail: Option<seq<Command>>)
    requires cs != []
    ensures Prepend([cs[0]], Prepend(cs[1..], tail)) == Prepend(cs, tail)
  {
    if tail.Some? {
      assert [cs[0]] + (cs[1..] + tail.value) == cs + tail.value;
    }
  }

  lemma DecodeOne(c: Command, tail: seq<Byte>)
    requires ValidCommand(c)
    ensures Decode(Encode(c) + tail) == Prepend([c], Decode(tail))
  {
    var s := Encode(c) + tail;
    if c.WriteBlock? {
      assert s[1..1 + |c.values|] == c.values && s[1 + |c.values|..] == tail;
    } else if c.WriteOne? {
      assert s[2..] == tail;
    } else {
      assert s[1..] == tail;
    }
  }

  lemma {:induction false} TraceConcat(a: seq<Command>, b: seq<Command>)
    ensures Trace(a + b) == Trace(a) + Trace(b)
  {
    if a == [] {
      assert a + b == b;
    } else {
      Cons(a, b);
      TraceConcat(a[1..], b);
      Assoc(Events(a[0]), Trace(a[1..]), Trace(b));
    }
  }

  lemma {:induction false} CountsConcat(a: seq<Command>, b: seq<Command>)
    ensures StatusCount(a + b) == StatusCount(a) + StatusCount(b)
    ensures DataCount(a + b) == DataCount(a) + DataCount(b)
  {
    if a == [] {
      assert a + b == b;
    } else {
      Cons(a, b);
      CountsConcat(a[1..], b);
    }
  }

  lemma {:induction false} MarksConcat(a: seq<Command>, b: seq<Command>)
    ensures MarksOf(a + b) == MarksOf(a) + MarksOf(b)
  {
    if a == [] {
      assert a + b == b;
    } else {
      Cons(a, b);
      MarksConcat(a[1..], b);
      Assoc(Marks(a[0]), MarksOf(a[1..]), MarksOf(b));
    }
  }

  function Count(marks: seq<bool>): nat {
    if marks == [] then 0 else (if marks[0] then 1 else 0) + Count(marks[1..])
  }

  lemma {:induction false} CountConcat(a: seq<bool>, b: seq<bool>)
    ensures Count(a + b) == Count(a) + Count(b)
  {
    if a == [] {
      assert a + b == b;
    } else {
      Cons(a, b);
      CountConcat(a[1..], b);
    }
  }

  lemma {:induction false} CountRepeat(mark: bool, n: nat)
    ensures Count(Repeat(mark, n)) == if mark then n else 0
  {
    if n > 0 {
      CountRepeat(mark, n - 1);
    }
  }

  /** There is one status for every byte that is marked. */
  lemma {:induction false} StatusesAreMarks(cs: seq<Command>)
    ensures Count(MarksOf(cs)) == StatusCount(cs)
  {
    if cs != [] {
      StatusesAreMarks(cs[1..]);
      CountConcat(Marks(cs[0]), MarksOf(cs[1..]));
      if cs[0].WriteBlock? {
        CountRepeat(false, |cs[0].values|);
      } else if cs[0].WriteOne? {
        assert [true][1..] == [];
      }
    }
  }

  function ReadEvents(t: seq<Event>): nat {
    if t == [] then 0
    else (if t[0].ReceivedAck? || t[0].ReceivedNack? then 1 else 0) + ReadEvents(t[1..])
  }

  lemma {:induction false} ReadEventsConcat(a: seq<Event>, b: seq<Event>)
    ensures ReadEvents(a + b) == ReadEvents(a) + ReadEvents(b)
  {
    if a == [] {
      assert a + b == b;
    } else {
      Cons(a, b);
      ReadEventsConcat(a[1..], b);
    }
  }

  lemma {:induction false} ReadEventsOfSends(values: seq<Byte>)
    ensures ReadEvents(Sends(values)) == 0
  {
    if values != [] {
      ReadEventsOfSends(values[1..]);
    }
  }

  lemma {:induction false} ReadEventsOfAcks(n: nat)
    ensures ReadEvents(Acks(n)) == n
  {
    if n > 0 {
      ReadEventsOfAcks(n - 1);
    }
  }

  /** The data bytes a command list returns are the read events of its trace. */
  lemma {:induction false} DataCountIsReads(cs: seq<Command>)
    ensures DataCount(cs) == ReadEvents(Trace(cs))
  {
    if cs != [] {
      DataCountIsReads(cs[1..]);
      ReadEventsConcat(Events(cs[0]), Trace(cs[1..]));
      match cs[0] {
        case WriteBlock(values) => ReadEventsOfSends(values);
        case ReadAcked(count) => ReadEventsOfAcks(count);
        case _ =>
      }
    }
  }

  lemma RequestedReads(address: Byte, data: seq<Byte>, readLength: nat)
    requires address <= 0x7f
    ensures ReadEvents(RequestedTrace(address, data, readLength)) == readLength
  {
    var w, r := WriteTrace(address, data), ReadTrace(address, readLength);
    ReadsOfWrite(address, data);
    ReadsOfRead(address, readLength);
    ReadEventsConcat(w, r);
    ReadEventsConcat(w + r, [StopCondition]);
  }

  lemma ReadsOfWrite(address: Byte, data: seq<Byte>)
    requires address <= 0x7f
    ensures ReadEvents(WriteTrace(address, data)) == 0
  {
    if data != [] {
      ReadEventsConcat([StartCondition, Sent(address * 2)], Sends(data));
      ReadEventsOfSends(data);
      ReadEventsConcat([StartCondition], [Sent(address * 2)]);
      assert [StartCondition] + [Sent(address * 2)] == [StartCondition, Sent(address * 2)];
    }
  }

  lemma ReadsOfRead(address: Byte, readLength: nat)
    requires address <= 0x7f
    ensures ReadEvents(ReadTrace(address, readLength)) == readLength
  {
    if readLength > 0 {
      var head, acks := [StartCondition, Sent(address * 2 + 1)], Acks(readLength - 1);
      ReadEventsOfAcks(readLength - 1);
      assert ReadEvents([ReceivedNack]) == 1;
      assert ReadEvents(head) == ReadEvents(head[1..]) == 0;
      ReadEventsConcat(acks, [ReceivedNack]);
      ReadEventsConcat(head, acks + [ReceivedNack]);
      hide Acks, ReadEvents;
      assert ReadTrace(address, readLength) == head + (acks + [ReceivedNack]);
    }
  }

  /** A compiled stream returns exactly as many data bytes as were asked for. */
  lemma CompiledDataCount(stream: seq<Byte>, address: Byte, data: seq<Byte>, readLength: nat)
    requires Compiled(stream, address, data, readLength)
    ensures DataCount(Interpret(Packets(stream)).value) == readLength
  {
    DataCountIsReads(Interpret(Packets(stream)).value);
    RequestedReads(address, data, readLength);
  }
}
