/** Sending a compiled stream to the bridge and reassembling its answers. */
module Executor {
  import opened Outcome
  import opened Wire

  // ---------------------------------------------------------------- the USB side

  /** One IN transfer as the USB stack reports it; an empty chunk is a transfer of no bytes. */
  datatype Transfer = Chunk(data: seq<Byte>) | Fault(kind: ErrorKind)

  /** The USB schedule: what the coming IN transfers and OUT transfers will do, and the OUT
      transfers so far.  A device with nothing left to say times out; OUT transfers beyond the
      schedule succeed. */
  datatype Link = Link(inbound: seq<Transfer>, outbound: seq<Option<ErrorKind>>,
                       sent: seq<seq<Byte>>, maxPacketSize: int)

  function Send(l: Link, data: seq<Byte>): (Option<ErrorKind>, Link) {
    if l.outbound == [] then (None, l.(sent := l.sent + [data]))
    else (l.outbound[0], l.(outbound := l.outbound[1..], sent := l.sent + [data]))
  }

  /** A chunk larger than the buffer is an overflow, which is reported as a protocol error. */
  function Receive(l: Link, capacity: nat): (Transfer, Link) {
    if l.inbound == [] then (Fault(TimedOut), l)
    else
      var t, rest := l.inbound[0], l.(inbound := l.inbound[1..]);
      if t.Chunk? && |t.data| > capacity then (Fault(Protocol), rest) else (t, rest)
  }

  /** The size of a read buffer: every chunk of at most the endpoint's packet size and at most 32 bytes
      fits, and no larger one does; an endpoint that claims no size can still deliver single bytes. */
  function Capacity(maxPacketSize: int): (c: nat)
    ensures 1 <= c <= 32
    ensures if maxPacketSize <= 32 then maxPacketSize <= c else c == 32
    ensures c <= maxPacketSize || c == 1
  {
    if maxPacketSize < 1 then 1 else if maxPacketSize > MAX_PACKET then MAX_PACKET else maxPacketSize
  }

  class UsbLink {
    var inbound: seq<Transfer>
    var outbound: seq<Option<ErrorKind>>
    var sent: seq<seq<Byte>>
    const maxPacketSize: int

    constructor (l: Link)
      ensures State() == l
    {
      inbound, outbound, sent, maxPacketSize := l.inbound, l.outbound, l.sent, l.maxPacketSize;
    }

    function State(): Link
      reads this
    {
      Link(inbound, outbound, sent, maxPacketSize)
    }

    method Write(data: seq<Byte>) returns (error: Option<ErrorKind>)
      modifies this
      ensures (error, State()) == Send(old(State()), data)
    {
      sent := sent + [data];
      if outbound == [] {
        return None;
      }
      error := outbound[0];
      outbound := outbound[1..];
    }

    method Read(capacity: nat) returns (t: Transfer)
      modifies this
      ensures (t, State()) == Receive(old(State()), capacity)
    {
      if inbound == [] {
        return Fault(TimedOut);
      }
      t := inbound[0];
      inbound := inbound[1..];
      if t.Chunk? && |t.data| > capacity {
        t := Fault(Protocol);
      }
    }
  }

  // ---------------------------------------------------------------- reading one answer

  /** What reading at most `limit` bytes yields: it ends when they are there, or when the device
      falls quiet after something has arrived or nothing need arrive. */
  function Collect(l: Link, got: seq<Byte>, limit: nat, allowEmpty: bool): (Result<seq<Byte>>, Link)
    decreases |l.inbound|, if |got| < limit then 1 else 0
  {
    if |got| >= limit then (Ok(got), l)
    else
      var room := limit - |got|;
      var size := Capacity(l.maxPacketSize);
      var (t, rest) := Receive(l, if room < size then room else size);
      var quietIsFine := got != [] || allowEmpty;
      match t
      case Fault(kind) => (if quietIsFine && kind == TimedOut then Ok(got) else Err(kind), rest)
      case Chunk(data) =>
        if data == [] then (if quietIsFine then Ok(got) else Err(DeviceMissing), rest)
        else Collect(rest, got + data, limit, allowEmpty)
  }

  method BulkReadAtMost(usb: UsbLink, limit: nat, allowEmpty: bool) returns (r: Result<seq<Byte>>)
    modifies usb
    ensures (r, usb.State()) == Collect(old(usb.State()), [], limit, allowEmpty)
  {
    var size := Capacity(usb.maxPacketSize);
    var data: seq<Byte> := [];
    while |data| < limit
      invariant Collect(usb.State(), data, limit, allowEmpty) == Collect(old(usb.State()), [], limit, allowEmpty)
      decreases |usb.inbound|, limit - |data|
    {
      var room := limit - |data|;
      var t := usb.Read(if room < size then room else size);
      match t {
        case Fault(kind) =>
          if (data != [] || allowEmpty) && kind == TimedOut {
            return Ok(data);
          }
          return Err(kind);
        case Chunk(chunk) =>
          if chunk == [] {
            if data != [] || allowEmpty {
              return Ok(data);
            }
            return Err(DeviceMissing);
          }
          data := data + chunk;
      }
    }
    return Ok(data);
  }

  // ---------------------------------------------------------------- one packet

  /** Status and data bytes a packet makes the bridge answer, under `Wire.Decode`. */
  function AnswerLengths(p: seq<Byte>): Result<(nat, nat)> {
    if p == [] then Ok((0, 0))
    else LengthsOf(Decode(p[1..]))
  }

  function LengthsOf(decoded: Option<seq<Command>>): Result<(nat, nat)> {
    match decoded
    case None => Err(Protocol)
    case Some(cs) => Ok((StatusCount(cs), DataCount(cs)))
  }

  function Plus(written: nat, data: nat, r: Result<(nat, nat)>): Result<(nat, nat)> {
    match r
    case Err(kind) => Err(kind)
    case Ok(more) => Ok((written + more.0, data + more.1))
  }

  /** The low six bits of a command. */
  function LengthBits(command: Byte): nat {
    command % 64
  }

  function EncodedLength(command: Byte): (n: nat)
    ensures 1 <= n <= 0x3f
  {
    if LengthBits(command) == 0 then 1 else LengthBits(command)
  }

  lemma LengthField(command: Byte)
    ensures 0x80 <= command <= 0xbf ==>
      LengthBits(command) == command - WRITE &&
      EncodedLength(command) == if command == WRITE then 1 else command - WRITE
    ensures 0xc0 <= command ==>
      EncodedLength(command) == if command == READ then 1 else command - READ
  {
  }

  /** With this much counted so far, the total lies in what is still to be decoded. */
  ghost predicate Counted(p: seq<Byte>, index: nat, written: nat, data: nat) {
    1 <= index <= |p| && AnswerLengths(p) == Plus(written, data, LengthsOf(Decode(p[index..])))
  }

  /** The executor's own decoder, which only counts: it agrees with the bridge's decoder on every
      byte string, including which ones are malformed. */
  method InstructionLengths(p: seq<Byte>) returns (r: Result<(nat, nat)>)
    ensures r == AnswerLengths(p)
  {
    hide AnswerLengths, Counted, Plus, LengthsOf, Decode, EncodedLength, LengthBits;
    AtStart(p);
    if p == [] {
      return Ok((0, 0));
    }
    var written: nat, data: nat := 0, 0;
    var index: nat := 1;
    while index < |p|
      invariant 1 <= index <= |p|
      invariant Counted(p, index, written, data)
    {
      var command := p[index];
      Stops(p, index, written, data);
      index := index + 1;
      if command == END {
        return Ok((written, data));
      } else if command == I2C_START || command == I2C_STOP {
        ConditionStep(p, index - 1, written, data);
      } else if 0x80 <= command <= 0xbf {
        LengthField(command);
        var n := EncodedLength(command);
        index := index + n;
        if index <= |p| {
          WriteStep(p, index - n - 1, n, written, data);
        }
        if LengthBits(command) == 0 {
          written := written + n;
        }
      } else if 0xc0 <= command {
        LengthField(command);
        ReadStep(p, index - 1, written, data);
        data := data + EncodedLength(command);
      } else if 0x60 <= command <= 0x63 {
        OneByteStep(p, index - 1, Speed(command), written, data);
      } else {
        return Err(Protocol);
      }
      if index > |p| {
        return Err(Protocol);
      }
    }
    AtEnd(p, written, data);
    return Ok((written, data));
  }

  lemma AtStart(p: seq<Byte>)
    ensures if p == [] then AnswerLengths(p) == Ok((0, 0)) else Counted(p, 1, 0, 0)
  {
  }

  lemma AtEnd(p: seq<Byte>, written: nat, data: nat)
    requires Counted(p, |p|, written, data)
    ensures AnswerLengths(p) == Ok((written, data))
  {
    assert p[|p|..] == [];
  }

  predicate Unknown(command: Byte) {
    command < 0x80 && command !in {END, I2C_START, I2C_STOP} && !(0x60 <= command <= 0x63)
  }

  /** Where the decoder stops early: END, an unknown command, or a cut-off write. */
  lemma Stops(p: seq<Byte>, at: nat, written: nat, data: nat)
    requires at < |p| && Counted(p, at, written, data)
    ensures p[at] == END ==> AnswerLengths(p) == Ok((written, data))
    ensures Unknown(p[at]) ==> AnswerLengths(p) == Err(Protocol)
    ensures 0x80 <= p[at] <= 0xbf && |p| < at + 1 + EncodedLength(p[at]) ==>
      AnswerLengths(p) == Err(Protocol)
  {
    hide AnswerLengths;
    assert p[at..][0] == p[at];
  }

  lemma CommandStep(p: seq<Byte>, at: nat, to: nat, c: Command, written: nat, data: nat)
    requires at <= to <= |p| && ValidCommand(c) && p[at..to] == Encode(c)
    requires Counted(p, at, written, data)
    ensures Counted(p, to, written + Statuses(c), data + DataBytes(c))
  {
    hide AnswerLengths;
    DecodedStep(p, at, to, c);
    var tail := Decode(p[to..]);
    hide Decode;
    if tail.Some? {
      assert ([c] + tail.value)[1..] == tail.value;
    }
  }

  lemma OneByteStep(p: seq<Byte>, at: nat, c: Command, written: nat, data: nat)
    requires at < |p| && ValidCommand(c) && Encode(c) == [p[at]]
    requires Counted(p, at, written, data)
    ensures Counted(p, at + 1, written, data + DataBytes(c))
  {
    hide Counted;
    assert p[at..at + 1] == [p[at]];
    CommandStep(p, at, at + 1, c, written, data);
  }

  lemma ConditionStep(p: seq<Byte>, at: nat, written: nat, data: nat)
    requires at < |p| && (p[at] == I2C_START || p[at] == I2C_STOP)
    requires Counted(p, at, written, data)
    ensures Counted(p, at + 1, written, data)
  {
    hide Counted;
    OneByteStep(p, at, if p[at] == I2C_START then Start else Stop, written, data);
  }

  lemma ReadStep(p: seq<Byte>, at: nat, written: nat, data: nat)
    requires at < |p| && READ <= p[at] && Counted(p, at, written, data)
    ensures Counted(p, at + 1, written, data + if p[at] == READ then 1 else p[at] - READ)
  {
    hide Counted;
    OneByteStep(p, at, if p[at] == READ then ReadLast else ReadAcked(p[at] - READ), written, data);
  }

  lemma WriteStep(p: seq<Byte>, at: nat, n: nat, written: nat, data: nat)
    requires at + 1 + n <= |p| && 0x80 <= p[at] <= 0xbf
    requires n == if p[at] == WRITE then 1 else p[at] - WRITE
    requires Counted(p, at, written, data)
    ensures Counted(p, at + 1 + n, written + if p[at] == WRITE then 1 else 0, data)
  {
    hide Counted, Encode, ValidCommand;
    var values := p[at + 1..at + 1 + n];
    assert p[at..at + 1 + n] == [p[at]] + values;
    if p[at] == WRITE {
      assert values == [p[at + 1]];
      EncodedWrite(values);
      CommandStep(p, at, at + 1 + n, WriteOne(p[at + 1]), written, data);
    } else {
      EncodedWrite(values);
      CommandStep(p, at, at + 1 + n, WriteBlock(values), written, data);
    }
  }

  lemma EncodedWrite(values: seq<Byte>)
    requires 1 <= |values| <= 0x3f
    ensures ValidCommand(WriteBlock(values)) && Encode(WriteBlock(values)) == [WRITE + |values|] + values
    ensures ValidCommand(WriteOne(values[0])) && Encode(WriteOne(values[0])) == [WRITE] + [values[0]]
  {
  }

  lemma DecodedStep(p: seq<Byte>, from: nat, to: nat, c: Command)
    requires from <= to <= |p| && ValidCommand(c) && p[from..to] == Encode(c)
    ensures Decode(p[from..]) == Prepend([c], Decode(p[to..]))
  {
    assert p[from..] == p[from..to] + p[to..];
    DecodeOne(c, p[to..]);
  }

  predicate Acknowledged(statuses: seq<Byte>) {
    forall i | 0 <= i < |statuses| :: statuses[i] < 0x80
  }

  method CheckStatusBytes(statuses: seq<Byte>) returns (error: Option<ErrorKind>)
    ensures error == if Acknowledged(statuses) then None else Some(Nack)
  {
    for i := 0 to |statuses|
      invariant Acknowledged(statuses[..i])
    {
      if statuses[i] >= 0x80 {
        return Some(Nack);
      }
    }
    assert statuses[..|statuses|] == statuses;
    return None;
  }

  // ---------------------------------------------------------------- the whole stream

  /** Sending one packet and reading its answer: the data are the last bytes received, whatever
      precedes them is taken for status bytes. */
  function RunPacket(l: Link, p: seq<Byte>): (Result<seq<Byte>>, Link) {
    var (error, l1) := Send(l, p);
    if error.Some? then (Err(error.value), l1)
    else match AnswerLengths(p)
      case Err(kind) => (Err(kind), l1)
      case Ok((written, data)) =>
        if written + data == 0 then (Ok([]), l1)
        else
          var (received, l2) := Collect(l1, [], written + data, data == 0);
          (Judge(received, data), l2)
  }

  function Judge(received: Result<seq<Byte>>, data: nat): Result<seq<Byte>> {
    match received
    case Err(kind) => Err(kind)
    case Ok(bytes) =>
      if |bytes| < data then Err(DeviceMissing)
      else if !Acknowledged(bytes[..|bytes| - data]) then Err(Nack)
      else Ok(bytes[|bytes| - data..])
  }

  function RunPackets(l: Link, packets: seq<seq<Byte>>, response: seq<Byte>): (Result<seq<Byte>>, Link)
    decreases |packets|
  {
    if packets == [] then (Ok(response), l)
    else
      var (r, l1) := RunPacket(l, packets[0]);
      match r
      case Err(kind) => (Err(kind), l1)
      case Ok(bytes) => RunPackets(l1, packets[1..], response + bytes)
  }

  /** Bus speeds in kHz and the command that selects each. */
  function SpeedCommand(speed: int): Option<Byte> {
    if speed == 20 then Some(0x60)
    else if speed == 100 then Some(0x61)
    else if speed == 400 then Some(0x62)
    else if speed == 750 then Some(0x63)
    else None
  }

  function Run(l: Link, speed: int, stream: seq<Byte>, readLength: nat): (Result<seq<Byte>>, Link) {
    match SpeedCommand(speed)
    case None => (Err(Plain), l)
    case Some(code) =>
      var (error, l1) := Send(l, [MARK, code, END]);
      if error.Some? then (Err(error.value), l1)
      else
        var (r, l2) := RunPackets(l1, Packets(stream), []);
        if r.Ok? && |r.value| != readLength then (Err(Protocol), l2) else (r, l2)
  }

  method ExecutePacket(usb: UsbLink, packet: seq<Byte>) returns (r: Result<seq<Byte>>)
    modifies usb
    ensures (r, usb.State()) == RunPacket(old(usb.State()), packet)
  {
    hide Collect, AnswerLengths;
    var error := usb.Write(packet);
    if error.Some? {
      return Err(error.value);
    }
    var lengths := InstructionLengths(packet);
    if lengths.Err? {
      return Err(lengths.kind);
    }
    var (written, data) := lengths.value;
    if written + data == 0 {
      return Ok([]);
    }
    var received := BulkReadAtMost(usb, written + data, data == 0);
    if received.Err? {
      return Err(received.kind);
    }
    var bytes := received.value;
    if |bytes| < data {
      return Err(DeviceMissing);
    }
    var dataStart := |bytes| - data;
    var nack := CheckStatusBytes(bytes[..dataStart]);
    if nack.Some? {
      return Err(nack.value);
    }
    return Ok(bytes[dataStart..]);
  }

  method Execute(usb: UsbLink, speed: int, stream: seq<Byte>, readLength: nat) returns (r: Result<seq<Byte>>)
    modifies usb
    ensures (r, usb.State()) == Run(old(usb.State()), speed, stream, readLength)
  {
    var code := SpeedCommand(speed);
    if code == None {
      return Err(Plain);
    }
    var error := usb.Write([MARK, code.value, END]);
    if error.Some? {
      return Err(error.value);
    }
    ghost var start := usb.State();
    var response: seq<Byte> := [];
    var offset := 0;
    hide RunPacket;
    while offset < |stream|
      invariant 0 <= offset <= |stream|
      invariant RunPackets(usb.State(), Packets(stream[offset..]), response) ==
                RunPackets(start, Packets(stream), [])
    {
      var end := if offset + MAX_PACKET < |stream| then offset + MAX_PACKET else |stream|;
      CutAt(stream, offset, end);
      var answer := ExecutePacket(usb, stream[offset..end]);
      if answer.Err? {
        return Err(answer.kind);
      }
      response := response + answer.value;
      offset := end;
    }
    if |response| != readLength {
      return Err(Protocol);
    }
    return Ok(response);
  }

  /** How a read goes on: a chunk the endpoint delivers and that is wanted is taken.  What ends it: a fault other than a timeout always does, a timeout or an
      empty transfer only if something was needed and nothing has come, and a chunk larger than what is
      left to read, or than the buffer, is a protocol error. */
  lemma CollectEnds(l: Link, got: seq<Byte>, limit: nat, allowEmpty: bool)
    requires |got| < limit && l.inbound != []
    ensures var t, r := l.inbound[0], Collect(l, got, limit, allowEmpty).0;
      && (t.Fault? && t.kind != TimedOut ==> r == Err(t.kind))
      && (t == Fault(TimedOut) ==> r == if got != [] || allowEmpty then Ok(got) else Err(TimedOut))
      && (t == Chunk([]) ==> r == if got != [] || allowEmpty then Ok(got) else Err(DeviceMissing))
      && (t.Chunk? && !FitsEndpoint(t.data, l.maxPacketSize) ==> r == Err(Protocol))
      && (t.Chunk? && |t.data| > limit - |got| ==> r == Err(Protocol))
      && (t.Chunk? && t.data != [] && FitsEndpoint(t.data, l.maxPacketSize) && |t.data| <= limit - |got| ==>
            r == Collect(l.(inbound := l.inbound[1..]), got + t.data, limit, allowEmpty).0)
  {
  }

  /** What an endpoint of this packet size delivers in one transfer. */
  predicate FitsEndpoint(chunk: seq<Byte>, maxPacketSize: int) {
    |chunk| <= 32 && (|chunk| <= maxPacketSize || |chunk| <= 1)
  }

  lemma {:induction false} RunPacketsSends(l: Link, packets: seq<seq<Byte>>, response: seq<Byte>)
    ensures var (r, l1) := RunPackets(l, packets, response);
      && l.sent <= l1.sent <= l.sent + packets
      && (r.Ok? ==> l1.sent == l.sent + packets)
    decreases |packets|
  {
    if packets == [] {
      assert l.sent + packets == l.sent;
    } else {
      var (r, l1) := RunPacket(l, packets[0]);
      RunPacketSends(l, packets[0]);
      Assoc(l.sent, [packets[0]], packets[1..]);
      assert [packets[0]] + packets[1..] == packets;
      hide RunPacket;
      if r.Ok? {
        RunPacketsSends(l1, packets[1..], response + r.value);
      }
    }
  }

  lemma RunPacketSends(l: Link, p: seq<Byte>)
    ensures RunPacket(l, p).1.sent == l.sent + [p]
    ensures l.outbound != [] && l.outbound[0].Some? ==> RunPacket(l, p).0 == Err(l.outbound[0].value)
  {
    hide AnswerLengths, Judge;
    if Send(l, p).0 == None && AnswerLengths(p).Ok? {
      var (written, data) := AnswerLengths(p).value;
      CollectSendsNothing(Send(l, p).1, [], written + data, data == 0);
    }
  }

  lemma {:induction false} CollectSendsNothing(l: Link, got: seq<Byte>, limit: nat, allowEmpty: bool)
    ensures Collect(l, got, limit, allowEmpty).1.sent == l.sent
    decreases |l.inbound|
  {
    if |got| < limit && l.inbound != [] {
      var room := limit - |got|;
      var size := Capacity(l.maxPacketSize);
      var (t, rest) := Receive(l, if room < size then room else size);
      if t.Chunk? && t.data != [] {
        CollectSendsNothing(rest, got + t.data, limit, allowEmpty);
      }
    }
  }

  /** What an execution writes to the bridge: the packet that sets the configured speed and then the
      packets of the stream, in order, all of them if it succeeds; a transfer that fails ends it with
      the transfer's error. */
  lemma ExecutionSends(l: Link, speed: int, stream: seq<Byte>, readLength: nat)
    requires SpeedCommand(speed).Some?
    ensures var (r, l1) := Run(l, speed, stream, readLength);
      var all := [[0xaa, SpeedCommand(speed).value, 0x00]] + Packets(stream);
      && l.sent <= l1.sent <= l.sent + all
      && (r.Ok? ==> l1.sent == l.sent + all && |r.value| == readLength)
      && (l.outbound != [] && l.outbound[0].Some? ==> r == Err(l.outbound[0].value))
  {
    var l1 := Send(l, [MARK, SpeedCommand(speed).value, END]).1;
    var configuration: seq<seq<Byte>> := [[0xaa, SpeedCommand(speed).value, 0x00]];
    RunPacketsSends(l1, Packets(stream), []);
    hide RunPackets, Packets;
    Assoc(l.sent, configuration, Packets(stream));
  }

  /** A packet that reports two statuses and returns two data bytes. */
  lemma LengthsExample()
    ensures AnswerLengths([0xaa, 0x74, 0x80, 0x22, 0x80, 0x30, 0x74, 0x81, 0x23, 0xc1, 0xc0, 0x75, 0x00]) == Ok((2, 2))
  {
    hide AnswerLengths, EncodeAll, ValidCommands, StatusCount, DataCount;
    var p: seq<Byte> := [0xaa, 0x74, 0x80, 0x22, 0x80, 0x30, 0x74, 0x81, 0x23, 0xc1, 0xc0, 0x75, 0x00];
    var read: seq<Byte> := [0x74, 0x81, 0x23, 0xc1, 0xc0, 0x75];
    var cs := ExampleRead(read);
    var write: seq<Byte> := [0x74, 0x80, 0x22, 0x80, 0x30];
    var all := ExampleWrite(write, cs, read);
    LengthsOfCommands(all, write + read);
    assert p == [MARK] + (write + read + [END]);
  }

  lemma LengthsOfCommands(cs: seq<Command>, bytes: seq<Byte>)
    requires ValidCommands(cs) && EncodeAll(cs) == bytes
    ensures AnswerLengths([MARK] + (bytes + [END])) == Ok((StatusCount(cs), DataCount(cs)))
  {
    hide EncodeAll, ValidCommands, StatusCount, DataCount;
    DecodeEncode(cs, [END]);
    assert ([MARK] + (bytes + [END]))[1..] == bytes + [END];
    assert cs + [] == cs;
  }

  lemma ExampleRead(bytes: seq<Byte>) returns (cs: seq<Command>)
    requires bytes == [0x74, 0x81, 0x23, 0xc1, 0xc0, 0x75]
    ensures ValidCommands(cs) && EncodeAll(cs) == bytes && StatusCount(cs) == 0 && DataCount(cs) == 2
  {
    NoCommands();
    hide EncodeAll, ValidCommands, StatusCount, DataCount;
    FrontOf(Stop, [], []);
    FrontOf(ReadLast, [Stop] + [], [0x75]);
    FrontOf(ReadAcked(1), [ReadLast] + ([Stop] + []), [0xc0] + [0x75]);
    cs := [ReadAcked(1)] + ([ReadLast] + ([Stop] + []));
    FrontOf(WriteBlock([0x23]), cs, [0xc1] + ([0xc0] + [0x75]));
    cs := [WriteBlock([0x23])] + cs;
    FrontOf(Start, cs, [WRITE + 1] + [0x23] + ([0xc1] + ([0xc0] + [0x75])));
    cs := [Start] + cs;
  }

  lemma ExampleWrite(bytes: seq<Byte>, read: seq<Command>, rest: seq<Byte>) returns (cs: seq<Command>)
    requires bytes == [0x74, 0x80, 0x22, 0x80, 0x30] && ValidCommands(read) && EncodeAll(read) == rest
    ensures ValidCommands(cs) && EncodeAll(cs) == bytes + rest
    ensures StatusCount(cs) == 2 + StatusCount(read) && DataCount(cs) == DataCount(read)
  {
    hide EncodeAll, ValidCommands, StatusCount, DataCount;
    FrontOf(WriteOne(0x30), read, rest);
    cs := [WriteOne(0x30)] + read;
    FrontOf(WriteOne(0x22), cs, [0x80, 0x30] + rest);
    cs := [WriteOne(0x22)] + cs;
    FrontOf(Start, cs, [0x80, 0x22] + ([0x80, 0x30] + rest));
    cs := [Start] + cs;
  }

  lemma NoCommands()
    ensures ValidCommands([]) && EncodeAll([]) == [] && StatusCount([]) == 0 && DataCount([]) == 0
  {
  }

  lemma FrontOf(c: Command, cs: seq<Command>, bytes: seq<Byte>)
    requires ValidCommand(c) && ValidCommands(cs) && EncodeAll(cs) == bytes
    ensures ValidCommands([c] + cs) && EncodeAll([c] + cs) == Encode(c) + bytes
    ensures StatusCount([c] + cs) == Statuses(c) + StatusCount(cs) && DataCount([c] + cs) == DataBytes(c) + DataCount(cs)
  {
    Cons([c], cs);
    assert [c][1..] + cs == cs;
  }

  lemma CutAt(stream: seq<Byte>, offset: nat, end: nat)
    requires offset < end <= |stream|
    requires end == offset + MAX_PACKET || (end == |stream| && end <= offset + MAX_PACKET)
    ensures Packets(stream[offset..]) == [stream[offset..end]] + Packets(stream[end..])
  {
    var s := stream[offset..];
    if |s| <= MAX_PACKET {
      assert stream[offset..end] == s && stream[end..] == [];
    } else {
      assert s[..MAX_PACKET] == stream[offset..end] && s[MAX_PACKET..] == stream[end..];
    }
  }

  /** The packets are a partition of the stream: all but the last are full, and put together
      they are the stream. */
  lemma {:induction false} PacketsPartition(stream: seq<Byte>)
    ensures Join(Packets(stream)) == stream
    ensures forall i | 0 <= i < |Packets(stream)| - 1 :: |Packets(stream)[i]| == MAX_PACKET
    ensures forall i | 0 <= i < |Packets(stream)| :: 0 < |Packets(stream)[i]| <= MAX_PACKET
    decreases |stream|
  {
    if 0 < |stream| <= MAX_PACKET {
      assert Join([stream]) == stream + Join([]) == stream;
    } else if |stream| > MAX_PACKET {
      var rest := Packets(stream[MAX_PACKET..]);
      PacketsPartition(stream[MAX_PACKET..]);
      assert Packets(stream) == [stream[..MAX_PACKET]] + rest;
      assert Join(Packets(stream)) == stream[..MAX_PACKET] + Join(rest);
    }
  }

  function Join(parts: seq<seq<Byte>>): seq<Byte> {
    if parts == [] then [] else parts[0] + Join(parts[1..])
  }
}
