/** The authentication chip as a target on the I2C bus, and what a whole transaction does to it.
    The chip is a file of byte-string registers with a register pointer: the first byte written
    selects a register, further bytes are stored in it, and a read starts at the front of the
    selected register.  Beyond a register's content the released bus reads as ones. */
module Target {
  import opened Outcome
  import opened Wire
  import opened Encoder
  import opened Executor
  import opened Delivery
  import opened Acknowledgement

  type Registers = map<Byte, seq<Byte>>

  datatype Chip = Chip(regs: Registers, pointer: Byte)

  function RegByte(regs: Registers, register: Byte, index: nat): Byte {
    if register in regs && index < |regs[register]| then regs[register][index] else 0xff
  }

  /** n bytes of a register from an offset on. */
  function RegFrom(regs: Registers, register: Byte, cursor: nat, n: nat): (bytes: seq<Byte>)
    ensures |bytes| == n
    ensures forall i | 0 <= i < n :: bytes[i] == RegByte(regs, register, cursor + i)
    decreases n
  {
    if n == 0 then [] else [RegByte(regs, register, cursor)] + RegFrom(regs, register, cursor + 1, n - 1)
  }

  function RegBytes(regs: Registers, register: Byte, n: nat): (bytes: seq<Byte>)
    ensures |bytes| == n
  {
    RegFrom(regs, register, 0, n)
  }

  /** What writing these bytes to the chip does. */
  function Store(chip: Chip, data: seq<Byte>): Chip {
    if data == [] then chip
    else if |data| == 1 then chip.(pointer := data[0])
    else Chip(chip.regs[data[0] := data[1..]], data[0])
  }

  /** A whole transaction, as the driver above the transport sees it. */
  function Transact(chip: Chip, data: seq<Byte>, readLength: nat): (Chip, seq<Byte>) {
    var after := Store(chip, data);
    (after, RegBytes(after.regs, after.pointer, readLength))
  }

  // ---------------------------------------------------------------- the target, event by event

  datatype Phase = Idle | Addressing | Receiving(buffer: seq<Byte>) | Sending(cursor: nat) | Ignoring

  datatype Target = Target(chip: Chip, phase: Phase)

  function Commit(t: Target): Chip {
    if t.phase.Receiving? then Store(t.chip, t.phase.buffer) else t.chip
  }

  /** One bus event at the target with this address, and the byte it puts on the bus. */
  function Step(t: Target, address: Byte, e: Event): (Target, seq<Byte>) {
    match e
    case SpeedSet(_) => (t, [])
    case StartCondition => (Target(Commit(t), Addressing), [])
    case StopCondition => (Target(Commit(t), Idle), [])
    case Sent(value) =>
      if t.phase.Addressing? then
        (t.(phase := if value == address * 2 then Receiving([])
                     else if value == address * 2 + 1 then Sending(0) else Ignoring), [])
      else if t.phase.Receiving? then (t.(phase := Receiving(t.phase.buffer + [value])), [])
      else (t, [])
    case ReceivedAck =>
      if t.phase.Sending? then
        (t.(phase := Sending(t.phase.cursor + 1)), [RegByte(t.chip.regs, t.chip.pointer, t.phase.cursor)])
      else (t, [0xff])
    case ReceivedNack =>
      if t.phase.Sending? then
        (t.(phase := Ignoring), [RegByte(t.chip.regs, t.chip.pointer, t.phase.cursor)])
      else (t, [0xff])
  }

  function Drive(t: Target, address: Byte, events: seq<Event>): (Target, seq<Byte>)
    decreases |events|
  {
    if events == [] then (t, [])
    else
      var (t1, out) := Step(t, address, events[0]);
      var (t2, more) := Drive(t1, address, events[1..]);
      (t2, out + more)
  }

  lemma {:induction false} DriveConcat(t: Target, address: Byte, a: seq<Event>, b: seq<Event>)
    ensures var (t1, out) := Drive(t, address, a);
      Drive(t, address, a + b) == (Drive(t1, address, b).0, out + Drive(t1, address, b).1)
    decreases |a|
  {
    if a == [] {
      assert a + b == b;
      assert [] + Drive(t, address, b).1 == Drive(t, address, b).1;
    } else {
      Cons(a, b);
      var (t1, out) := Step(t, address, a[0]);
      DriveConcat(t1, address, a[1..], b);
      var (t2, more) := Drive(t1, address, a[1..]);
      Assoc(out, more, Drive(t2, address, b).1);
    }
  }

  lemma DriveOne(t: Target, address: Byte, e: Event)
    ensures Drive(t, address, [e]) == Step(t, address, e)
  {
    var (t1, out) := Step(t, address, e);
    assert [e][1..] == [];
    assert Drive(t1, address, []) == (t1, []);
    assert out + [] == out;
  }

  lemma DriveTwo(t: Target, address: Byte, a: Event, b: Event)
    ensures var (t1, out) := Step(t, address, a);
      Drive(t, address, [a, b]) == (Step(t1, address, b).0, out + Step(t1, address, b).1)
  {
    DriveOne(Step(t, address, a).0, address, b);
    assert [a, b][0] == a && [a, b][1..] == [b];
  }

  lemma {:induction false} DriveSends(t: Target, address: Byte, values: seq<Byte>)
    requires t.phase.Receiving?
    ensures Drive(t, address, Sends(values)) == (t.(phase := Receiving(t.phase.buffer + values)), [])
    decreases |values|
  {
    if values == [] {
      assert t.phase.buffer + [] == t.phase.buffer;
    } else {
      assert Sends(values)[0] == Sent(values[0]) && Sends(values)[1..] == Sends(values[1..]);
      Assoc(t.phase.buffer, [values[0]], values[1..]);
      assert [values[0]] + values[1..] == values;
      var t1 := t.(phase := Receiving(t.phase.buffer + [values[0]]));
      DriveSends(t1, address, values[1..]);
      assert Step(t, address, Sent(values[0])) == (t1, []);
      var (t2, more) := Drive(t1, address, Sends(values[1..]));
      assert [] + more == [];
      assert t2 == t.(phase := Receiving(t.phase.buffer + values));
    }
  }

  lemma {:induction false} DriveTail(t: Target, address: Byte, n: nat)
    requires t.phase.Sending? && n > 0
    ensures Drive(t, address, ReadTail(n)) ==
      (t.(phase := Ignoring), RegFrom(t.chip.regs, t.chip.pointer, t.phase.cursor, n))
    decreases n
  {
    var here := RegByte(t.chip.regs, t.chip.pointer, t.phase.cursor);
    if n == 1 {
      assert ReadTail(1) == [ReceivedNack];
      assert Drive(t.(phase := Ignoring), address, []) == (t.(phase := Ignoring), []);
    } else {
      assert ReadTail(n) == [ReceivedAck] + ReadTail(n - 1);
      DriveTail(t.(phase := Sending(t.phase.cursor + 1)), address, n - 1);
    }
  }

  lemma DriveWrite(t: Target, address: Byte, data: seq<Byte>)
    requires address <= 0x7f && t.phase.Idle?
    ensures Drive(t, address, WriteTrace(address, data)) ==
      (if data == [] then t else Target(t.chip, Receiving(data)), [])
  {
    if data != [] {
      var head := [StartCondition, Sent(address * 2)];
      var t1 := Target(t.chip, Addressing);
      var t2 := Target(t.chip, Receiving([]));
      DriveTwo(t, address, StartCondition, Sent(address * 2));
      DriveConcat(t, address, head, Sends(data));
      DriveSends(t2, address, data);
      hide Drive;
      assert [] + data == data;
    }
  }

  lemma DriveRead(t: Target, address: Byte, readLength: nat)
    requires address <= 0x7f && (t.phase.Idle? || t.phase.Receiving?)
    ensures var r := Drive(t, address, ReadTrace(address, readLength));
      && Commit(r.0) == Commit(t) && r.1 == RegBytes(Commit(t).regs, Commit(t).pointer, readLength)
  {
    if readLength > 0 {
      var head := [StartCondition, Sent(address * 2 + 1)];
      var t1 := Target(Commit(t), Addressing);
      var t2 := Target(Commit(t), Sending(0));
      DriveTwo(t, address, StartCondition, Sent(address * 2 + 1));
      DriveConcat(t, address, head, ReadTail(readLength));
      DriveTail(t2, address, readLength);
      hide Drive;
      assert [] + RegFrom(t2.chip.regs, t2.chip.pointer, 0, readLength) ==
        RegFrom(t2.chip.regs, t2.chip.pointer, 0, readLength);
    }
  }

  /** The requested bus trace performs exactly one transaction on an idle target. */
  lemma DriveRequested(chip: Chip, address: Byte, data: seq<Byte>, readLength: nat)
    requires address <= 0x7f
    ensures Drive(Target(chip, Idle), address, RequestedTrace(address, data, readLength)) ==
      (Target(Transact(chip, data, readLength).0, Idle), Transact(chip, data, readLength).1)
  {
    var t := Target(chip, Idle);
    var w, r := WriteTrace(address, data), ReadTrace(address, readLength);
    DriveWrite(t, address, data);
    DriveConcat(t, address, w, r);
    var t1 := Drive(t, address, w).0;
    DriveRead(t1, address, readLength);
    DriveConcat(t, address, w + r, [StopCondition]);
    var t2 := Drive(t1, address, r).0;
    DriveOne(t2, address, StopCondition);
    hide Drive, RegBytes, WriteTrace, ReadTrace;
    assert [] + RegBytes(Commit(t1).regs, Commit(t1).pointer, readLength) + [] ==
      RegBytes(Commit(t1).regs, Commit(t1).pointer, readLength);
  }

  // ---------------------------------------------------------------- acknowledgements

  /** Whether the target pulls the line low after a byte was sent: for its own address in either
      direction, and for every byte written to it. */
  predicate Acknowledges(t: Target, own: Byte, value: Byte) {
    if t.phase.Addressing? then value == own * 2 || value == own * 2 + 1 else t.phase.Receiving?
  }

  /** Every byte sent is acknowledged, or none is. */
  predicate AllSent(t: Target, own: Byte, events: seq<Event>, acknowledged: bool)
    decreases |events|
  {
    events == [] ||
    ((events[0].Sent? ==> Acknowledges(t, own, events[0].value) == acknowledged) &&
     AllSent(Step(t, own, events[0]).0, own, events[1..], acknowledged))
  }

  lemma {:induction false} AllSentConcat(t: Target, own: Byte, a: seq<Event>, b: seq<Event>, acknowledged: bool)
    ensures AllSent(t, own, a + b, acknowledged) <==>
      AllSent(t, own, a, acknowledged) && AllSent(Drive(t, own, a).0, own, b, acknowledged)
    decreases |a|
  {
    if a == [] {
      assert a + b == b;
    } else {
      Cons(a, b);
      AllSentConcat(Step(t, own, a[0]).0, own, a[1..], b, acknowledged);
    }
  }

  lemma {:induction false} SendsAcknowledged(t: Target, own: Byte, values: seq<Byte>)
    requires t.phase.Receiving?
    ensures AllSent(t, own, Sends(values), true)
    decreases |values|
  {
    if values != [] {
      Cons([Sent(values[0])], Sends(values[1..]));
      SendsAcknowledged(t.(phase := Receiving(t.phase.buffer + [values[0]])), own, values[1..]);
    }
  }

  lemma {:induction false} TailHasNoSent(t: Target, own: Byte, n: nat, acknowledged: bool)
    requires n > 0
    ensures AllSent(t, own, ReadTail(n), acknowledged)
    decreases n
  {
    if n == 1 {
      assert ReadTail(1) == [ReceivedNack];
    } else {
      assert ReadTail(n) == [ReceivedAck] + ReadTail(n - 1);
      TailHasNoSent(Step(t, own, ReceivedAck).0, own, n - 1, acknowledged);
    }
  }

  /** The byte after a START is the only one of the two that can be acknowledged. */
  lemma SentAfterStart(t: Target, own: Byte, value: Byte, acknowledged: bool)
    ensures AllSent(t, own, [StartCondition, Sent(value)], acknowledged) <==>
      (value == own * 2 || value == own * 2 + 1) == acknowledged
  {
    var head := [StartCondition, Sent(value)];
    var t1 := Step(t, own, StartCondition).0;
    assert head[1..] == [Sent(value)] && [Sent(value)][1..] == [];
    assert AllSent(Step(t1, own, Sent(value)).0, own, [], acknowledged);
    assert AllSent(t1, own, [Sent(value)], acknowledged) <==> Acknowledges(t1, own, value) == acknowledged;
  }

  lemma StopHasNoSent(t: Target, own: Byte, acknowledged: bool)
    ensures AllSent(t, own, [StopCondition], acknowledged)
  {
    assert [StopCondition][1..] == [];
  }

  /** A chip at the requested address acknowledges every byte of the transaction. */
  lemma RequestAcknowledged(chip: Chip, address: Byte, data: seq<Byte>, readLength: nat)
    requires address <= 0x7f
    ensures AllSent(Target(chip, Idle), address, RequestedTrace(address, data, readLength), true)
  {
    hide AllSent, Drive;
    var t := Target(chip, Idle);
    var w, r := WriteTrace(address, data), ReadTrace(address, readLength);
    DriveWrite(t, address, data);
    if data != [] {
      var head := [StartCondition, Sent(address * 2)];
      SentAfterStart(t, address, address * 2, true);
      AllSentConcat(t, address, head, Sends(data), true);
      DriveTwo(t, address, StartCondition, Sent(address * 2));
      SendsAcknowledged(Target(chip, Receiving([])), address, data);
    } else {
      NothingSent(t, address, true);
    }
    var t1 := Drive(t, address, w).0;
    if readLength > 0 {
      var head := [StartCondition, Sent(address * 2 + 1)];
      SentAfterStart(t1, address, address * 2 + 1, true);
      AllSentConcat(t1, address, head, ReadTail(readLength), true);
      TailHasNoSent(Drive(t1, address, head).0, address, readLength, true);
    } else {
      NothingSent(t1, address, true);
    }
    AllSentConcat(t, address, w, r, true);
    AllSentConcat(t, address, w + r, [StopCondition], true);
    StopHasNoSent(Drive(t, address, w + r).0, address, true);
  }

  lemma NothingSent(t: Target, own: Byte, acknowledged: bool)
    ensures AllSent(t, own, [], acknowledged)
  {
  }

  // ---------------------------------------------------------------- nobody at the address

  /** Released bus: what reads deliver when nobody drives it. */
  function Ones(n: nat): seq<Byte> {
    if n == 0 then [] else [0xff] + Ones(n - 1)
  }

  lemma {:induction false} IgnoresSends(t: Target, own: Byte, values: seq<Byte>)
    requires t.phase.Ignoring?
    ensures Drive(t, own, Sends(values)) == (t, []) && AllSent(t, own, Sends(values), false)
    decreases |values|
  {
    if values != [] {
      Cons([Sent(values[0])], Sends(values[1..]));
      IgnoresSends(t, own, values[1..]);
    }
  }

  lemma {:induction false} IgnoresTail(t: Target, own: Byte, n: nat)
    requires t.phase.Ignoring? && n > 0
    ensures Drive(t, own, ReadTail(n)) == (t, Ones(n)) && AllSent(t, own, ReadTail(n), false)
    decreases n
  {
    if n == 1 {
      assert ReadTail(1) == [ReceivedNack];
      DriveOne(t, own, ReceivedNack);
    } else {
      assert ReadTail(n) == [ReceivedAck] + ReadTail(n - 1);
      IgnoresTail(t, own, n - 1);
    }
  }

  /** A chip at another address acknowledges nothing, drives nothing and is left as it was. */
  lemma RequestIgnored(chip: Chip, own: Byte, address: Byte, data: seq<Byte>, readLength: nat)
    requires address <= 0x7f && own <= 0x7f && own != address
    ensures Drive(Target(chip, Idle), own, RequestedTrace(address, data, readLength)) ==
      (Target(chip, Idle), Ones(readLength))
    ensures AllSent(Target(chip, Idle), own, RequestedTrace(address, data, readLength), false)
  {
    var t, off := Target(chip, Idle), Target(chip, Ignoring);
    var w, r := WriteTrace(address, data), ReadTrace(address, readLength);
    IgnoredWrite(t, own, address, data);
    var t1 := Drive(t, own, w).0;
    IgnoredRead(t1, own, address, readLength);
    var t2 := Drive(t1, own, r).0;
    DriveConcat(t, own, w, r);
    AllSentConcat(t, own, w, r, false);
    DriveConcat(t, own, w + r, [StopCondition]);
    AllSentConcat(t, own, w + r, [StopCondition], false);
    DriveOne(t2, own, StopCondition);
    StopHasNoSent(t2, own, false);
    hide Drive, WriteTrace, ReadTrace, AllSent;
    assert [] + Ones(readLength) + [] == Ones(readLength);
  }

  lemma IgnoredWrite(t: Target, own: Byte, address: Byte, data: seq<Byte>)
    requires address <= 0x7f && own <= 0x7f && own != address && t.phase.Idle?
    ensures Drive(t, own, WriteTrace(address, data)) == (if data == [] then t else t.(phase := Ignoring), [])
    ensures AllSent(t, own, WriteTrace(address, data), false)
  {
    if data != [] {
      var head := [StartCondition, Sent(address * 2)];
      DriveTwo(t, own, StartCondition, Sent(address * 2));
      DriveConcat(t, own, head, Sends(data));
      AllSentConcat(t, own, head, Sends(data), false);
      IgnoresSends(t.(phase := Ignoring), own, data);
      SentAfterStart(t, own, address * 2, false);
    }
  }

  lemma IgnoredRead(t: Target, own: Byte, address: Byte, readLength: nat)
    requires address <= 0x7f && own <= 0x7f && own != address && (t.phase.Idle? || t.phase.Ignoring?)
    ensures var (t1, out) := Drive(t, own, ReadTrace(address, readLength));
      t1.chip == t.chip && (t1.phase.Idle? || t1.phase.Ignoring?) && out == Ones(readLength)
    ensures AllSent(t, own, ReadTrace(address, readLength), false)
  {
    if readLength > 0 {
      var head := [StartCondition, Sent(address * 2 + 1)];
      DriveTwo(t, own, StartCondition, Sent(address * 2 + 1));
      DriveConcat(t, own, head, ReadTail(readLength));
      AllSentConcat(t, own, head, ReadTail(readLength), false);
      IgnoresTail(t.(phase := Ignoring), own, readLength);
      SentAfterStart(t, own, address * 2 + 1, false);
    }
  }

  // ---------------------------------------------------------------- down to the USB transfers

  /** The acknowledgements of all bytes sent, in order. */
  function AcksOf(t: Target, own: Byte, events: seq<Event>): seq<bool>
    decreases |events|
  {
    if events == [] then []
    else
      (if events[0].Sent? then [Acknowledges(t, own, events[0].value)] else []) +
      AcksOf(Step(t, own, events[0]).0, own, events[1..])
  }

  lemma {:induction false} AcksOfConcat(t: Target, own: Byte, a: seq<Event>, b: seq<Event>)
    ensures AcksOf(t, own, a + b) == AcksOf(t, own, a) + AcksOf(Drive(t, own, a).0, own, b)
    decreases |a|
  {
    if a == [] {
      assert a + b == b;
    } else {
      Cons(a, b);
      AcksOfConcat(Step(t, own, a[0]).0, own, a[1..], b);
      Assoc(if a[0].Sent? then [Acknowledges(t, own, a[0].value)] else [],
            AcksOf(Step(t, own, a[0]).0, own, a[1..]), AcksOf(Drive(t, own, a).0, own, b));
    }
  }

  lemma {:induction false} AcksLength(t: Target, own: Byte, events: seq<Event>)
    ensures |AcksOf(t, own, events)| == |SentBytes(events)|
    decreases |events|
  {
    if events != [] {
      AcksLength(Step(t, own, events[0]).0, own, events[1..]);
    }
  }

  lemma {:induction false} AcksAlike(t: Target, own: Byte, events: seq<Event>, acknowledged: bool)
    requires AllSent(t, own, events, acknowledged)
    ensures forall i | 0 <= i < |AcksOf(t, own, events)| :: AcksOf(t, own, events)[i] == acknowledged
    decreases |events|
  {
    if events != [] {
      AcksAlike(Step(t, own, events[0]).0, own, events[1..], acknowledged);
    }
  }

  /** The acknowledgements that a packet's statuses report, in order. */
  function Reports(t: Target, own: Byte, cs: seq<Command>): (reports: seq<bool>)
    ensures |reports| == StatusCount(cs)
  {
    MarkPerByte(cs);
    AcksLength(t, own, Trace(cs));
    StatusesAreMarks(cs);
    Picked(MarksOf(cs), AcksOf(t, own, Trace(cs)))
  }

  /** Every packet's data bytes are those the target puts on the bus while the packet runs, and its
      statuses tell which bytes the target acknowledged. */
  ghost predicate Serves(t: Target, own: Byte, packets: seq<seq<Byte>>, answers: seq<Answer>)
    requires WellFormed(packets) && |packets| == |answers|
    decreases |packets|
  {
    packets == [] ||
    (var cs := DecodePacket(packets[0]).value;
     var (t1, out) := Drive(t, own, Trace(cs));
     && answers[0].data == out && Tells(answers[0].statuses, Reports(t, own, cs))
     && Serves(t1, own, packets[1..], answers[1..]))
  }

  lemma {:induction false} ServedData(t: Target, own: Byte, packets: seq<seq<Byte>>, answers: seq<Answer>)
    requires WellFormed(packets) && |packets| == |answers| && Serves(t, own, packets, answers)
    ensures Interpret(packets).Some?
    ensures AllData(answers) == Drive(t, own, Trace(Interpret(packets).value)).1
    decreases |packets|
  {
    if packets != [] {
      var cs := DecodePacket(packets[0]).value;
      ServedData(Drive(t, own, Trace(cs)).0, own, packets[1..], answers[1..]);
      var rest := Interpret(packets[1..]).value;
      TraceConcat(cs, rest);
      DriveConcat(t, own, Trace(cs), Trace(rest));
    }
  }

  /** A serving target's answers tell its acknowledgements. */
  lemma {:induction false} ServesTells(t: Target, own: Byte, packets: seq<seq<Byte>>, answers: seq<Answer>)
    requires WellFormed(packets) && |packets| == |answers| && Serves(t, own, packets, answers)
    ensures Interpret(packets).Some?
    ensures TellAll(packets, answers, AcksOf(t, own, Trace(Interpret(packets).value)))
    decreases |packets|
  {
    if packets != [] {
      var cs := DecodePacket(packets[0]).value;
      var t1 := Drive(t, own, Trace(cs)).0;
      ServesTells(t1, own, packets[1..], answers[1..]);
      var rest := Interpret(packets[1..]).value;
      TraceConcat(cs, rest);
      AcksOfConcat(t, own, Trace(cs), Trace(rest));
      MarkPerByte(cs);
      AcksLength(t, own, Trace(cs));
      hide AcksOf, Trace, MarksOf, Tells, Picked, Drive, Interpret, DecodePacket;
      var here, later := AcksOf(t, own, Trace(cs)), AcksOf(t1, own, Trace(rest));
      assert (here + later)[..|here|] == here && (here + later)[|here|..] == later;
    }
  }

  predicate AllTell(answers: seq<Answer>, acknowledged: bool) {
    forall i, j | 0 <= i < |answers| && 0 <= j < |answers[i].statuses| ::
      (answers[i].statuses[j] < 0x80) == acknowledged
  }

  lemma {:induction false} PickedAlike(marks: seq<bool>, acks: seq<bool>, acknowledged: bool)
    requires |marks| == |acks| && forall i | 0 <= i < |acks| :: acks[i] == acknowledged
    ensures forall i | 0 <= i < |Picked(marks, acks)| :: Picked(marks, acks)[i] == acknowledged
  {
    if marks != [] {
      assert forall i | 0 <= i < |acks| - 1 :: acks[1..][i] == acks[i + 1];
      PickedAlike(marks[1..], acks[1..], acknowledged);
    }
  }

  /** If all bytes sent fare alike, all statuses tell the same. */
  lemma {:induction false} TellAlike(packets: seq<seq<Byte>>, answers: seq<Answer>, acks: seq<bool>, acknowledged: bool)
    requires WellFormed(packets) && |packets| == |answers| && TellAll(packets, answers, acks)
    requires forall i | 0 <= i < |acks| :: acks[i] == acknowledged
    ensures AllTell(answers, acknowledged)
    decreases |packets|
  {
    if packets != [] {
      var marks := MarksOf(DecodePacket(packets[0]).value);
      PickedAlike(marks, acks[..|marks|], acknowledged);
      TellAlike(packets[1..], answers[1..], acks[|marks|..], acknowledged);
      FirstTells(answers, acknowledged);
    }
  }

  lemma FirstTells(answers: seq<Answer>, acknowledged: bool)
    requires answers != [] && AllTell(answers[1..], acknowledged) && AllTell([answers[0]], acknowledged)
    ensures AllTell(answers, acknowledged)
  {
    forall i, j | 0 <= i < |answers| && 0 <= j < |answers[i].statuses|
      ensures (answers[i].statuses[j] < 0x80) == acknowledged
    {
      if i == 0 {
        assert [answers[0]][0].statuses[j] == answers[i].statuses[j];
      } else {
        assert answers[1..][i - 1].statuses[j] == answers[i].statuses[j];
      }
    }
  }

  lemma StatusesAlike(t: Target, own: Byte, packets: seq<seq<Byte>>, answers: seq<Answer>, acknowledged: bool)
    requires WellFormed(packets) && |packets| == |answers| && Serves(t, own, packets, answers)
    requires Interpret(packets).Some? && AllSent(t, own, Trace(Interpret(packets).value), acknowledged)
    ensures AllTell(answers, acknowledged)
  {
    hide *;
    ServesTells(t, own, packets, answers);
    AcksAlike(t, own, Trace(Interpret(packets).value), acknowledged);
    TellAlike(packets, answers, AcksOf(t, own, Trace(Interpret(packets).value)), acknowledged);
  }

  /** From register contents to USB transfers, for a bridge with this chip behind it.  A chip at the
      requested address makes the execution return exactly what the transaction reads from it,
      and the same bus events leave it as the transaction does. */
  lemma TransactionOnTheWire(l: Link, speed: int, stream: seq<Byte>, address: Byte, data: seq<Byte>,
                             readLength: nat, answers: seq<Answer>, chip: Chip)
    requires Compiled(stream, address, data, readLength)
    requires SpeedCommand(speed).Some? && l.outbound == []
    requires AllAnswer(Packets(stream), answers, Capacity(l.maxPacketSize))
    requires l.inbound == Scripts(Packets(stream), answers)
    requires Serves(Target(chip, Idle), address, Packets(stream), answers)
    ensures Run(l, speed, stream, readLength).0 == Ok(Transact(chip, data, readLength).1)
    ensures Drive(Target(chip, Idle), address, Trace(Interpret(Packets(stream)).value)).0 ==
      Target(Transact(chip, data, readLength).0, Idle)
  {
    assert |Packets(stream)| == |answers|;
    hide Run, AllAnswer, Scripts, Drive, Interpret, Packets, Transact, AllData, NoneNacked, Serves, RequestedTrace;
    hide AllSent, AllTell;
    EndToEnd(l, speed, stream, address, data, readLength, answers);
    ServedData(Target(chip, Idle), address, Packets(stream), answers);
    DriveRequested(chip, address, data, readLength);
    RequestAcknowledged(chip, address, data, readLength);
    StatusesAlike(Target(chip, Idle), address, Packets(stream), answers, true);
    NoneNackedWhenTold(answers, true);
  }

  /** Some status byte reaches the executor. */
  predicate StatusArrives(answers: seq<Answer>) {
    exists i | 0 <= i < |answers| :: answers[i].missing < |answers[i].statuses|
  }

  lemma NoneNackedWhenTold(answers: seq<Answer>, acknowledged: bool)
    requires AllTell(answers, acknowledged)
    ensures NoneNacked(answers) <==> acknowledged || !StatusArrives(answers)
  {
    if !acknowledged && StatusArrives(answers) {
      var i :| 0 <= i < |answers| && answers[i].missing < |answers[i].statuses|;
      assert answers[i].statuses[answers[i].missing..][0] >= 0x80;
      assert !Received(answers[i]);
    }
  }

  /** With nobody at the requested address the execution reports a NACK if and only if some status
      reaches it, and otherwise succeeds with ones. */
  lemma NobodyThere(l: Link, speed: int, stream: seq<Byte>, address: Byte, data: seq<Byte>,
                    readLength: nat, answers: seq<Answer>, chip: Chip, own: Byte)
    requires Compiled(stream, address, data, readLength) && own <= 0x7f && own != address
    requires SpeedCommand(speed).Some? && l.outbound == []
    requires AllAnswer(Packets(stream), answers, Capacity(l.maxPacketSize))
    requires l.inbound == Scripts(Packets(stream), answers)
    requires Serves(Target(chip, Idle), own, Packets(stream), answers)
    ensures Run(l, speed, stream, readLength).0 == if StatusArrives(answers) then Err(Nack) else Ok(Ones(readLength))
    ensures Drive(Target(chip, Idle), own, Trace(Interpret(Packets(stream)).value)).0 == Target(chip, Idle)
  {
    assert |Packets(stream)| == |answers|;
    hide Run, AllAnswer, Scripts, Drive, Interpret, Packets, AllData, NoneNacked, Serves, RequestedTrace;
    hide AllSent, AllTell, StatusArrives;
    EndToEnd(l, speed, stream, address, data, readLength, answers);
    ServedData(Target(chip, Idle), own, Packets(stream), answers);
    RequestIgnored(chip, own, address, data, readLength);
    StatusesAlike(Target(chip, Idle), own, Packets(stream), answers, false);
    NoneNackedWhenTold(answers, false);
  }

  lemma {:induction false} ArrivingStatuses(packets: seq<seq<Byte>>, answers: seq<Answer>, size: nat)
    requires WellFormed(packets) && AllAnswer(packets, answers, size) && AllArrive(answers)
    ensures Interpret(packets).Some?
    ensures StatusArrives(answers) <==> StatusCount(Interpret(packets).value) > 0
    decreases |packets|
  {
    if packets != [] {
      ArrivingStatuses(packets[1..], answers[1..], size);
      CountsConcat(DecodePacket(packets[0]).value, Interpret(packets[1..]).value);
      assert forall i | 0 <= i < |answers| - 1 :: answers[1..][i] == answers[i + 1];
      if StatusArrives(answers) {
        var i :| 0 <= i < |answers| && answers[i].missing < |answers[i].statuses|;
        if i > 0 { assert answers[1..][i - 1].missing < |answers[1..][i - 1].statuses|; }
      } else {
        assert !(answers[0].missing < |answers[0].statuses|);
      }
    }
  }

  /** What a caller can tell before the call: with every status arriving, a request to an address where
      nobody is gets reported if and only if it writes, or reads at most 32 bytes.  A pure read of
      more succeeds with ones. */
  lemma AbsenceReported(l: Link, speed: int, stream: seq<Byte>, address: Byte, data: seq<Byte>,
                        readLength: nat, answers: seq<Answer>, chip: Chip, own: Byte)
    requires Encodable(address, data, readLength) && own <= 0x7f && own != address
    requires Emitted(stream, address, data, readLength)
    requires SpeedCommand(speed).Some? && l.outbound == []
    requires AllAnswer(Packets(stream), answers, Capacity(l.maxPacketSize)) && AllArrive(answers)
    requires l.inbound == Scripts(Packets(stream), answers)
    requires Serves(Target(chip, Idle), own, Packets(stream), answers)
    ensures Run(l, speed, stream, readLength).0 ==
      if data != [] || readLength <= 32 then Err(Nack) else Ok(Ones(readLength))
  {
    hide Run, Scripts, Interpret, Packets, Serves, StatusArrives, MarksOf, AnyMixed, Repeat;
    ArrivingStatuses(Packets(stream), answers, Capacity(l.maxPacketSize));
    NobodyThere(l, speed, stream, address, data, readLength, answers, chip, own);
  }

  // ---------------------------------------------------------------- such bridges exist

  lemma {:induction false} DriveLength(t: Target, own: Byte, events: seq<Event>)
    ensures |Drive(t, own, events).1| == ReadEvents(events)
    decreases |events|
  {
    if events != [] {
      DriveLength(Step(t, own, events[0]).0, own, events[1..]);
    }
  }

  function StatusBytes(reports: seq<bool>): (statuses: seq<Byte>)
    ensures Tells(statuses, reports)
  {
    seq(|reports|, i requires 0 <= i < |reports| => if reports[i] then 0 else 0x80)
  }

  /** The answers of a bridge with this target behind it, all of whose bytes arrive. */
  function ServingAnswers(t: Target, own: Byte, packets: seq<seq<Byte>>): (answers: seq<Answer>)
    requires WellFormed(packets)
    ensures |answers| == |packets|
    decreases |packets|
  {
    if packets == [] then []
    else
      var cs := DecodePacket(packets[0]).value;
      var (t1, out) := Drive(t, own, Trace(cs));
      [WholeAnswer(StatusBytes(Reports(t, own, cs)), out)] + ServingAnswers(t1, own, packets[1..])
  }

  lemma {:induction false} ServingAnswersServe(t: Target, own: Byte, packets: seq<seq<Byte>>, size: nat)
    requires WellFormed(packets) && size >= 1
    ensures var answers := ServingAnswers(t, own, packets);
      AllAnswer(packets, answers, size) && AllArrive(answers) && Serves(t, own, packets, answers)
    decreases |packets|
  {
    if packets != [] {
      var cs := DecodePacket(packets[0]).value;
      var (t1, out) := Drive(t, own, Trace(cs));
      var statuses := StatusBytes(Reports(t, own, cs));
      DriveLength(t, own, Trace(cs));
      DataCountIsReads(cs);
      WholeAnswerFits(cs, statuses, out, size);
      ServingAnswersServe(t1, own, packets[1..], size);
      hide Drive, Trace, Reports, StatusBytes, DecodePacket, Answers, Tells, Singles;
      ArriveFirst(WholeAnswer(statuses, out), ServingAnswers(t1, own, packets[1..]));
    }
  }

  lemma ArriveFirst(a: Answer, answers: seq<Answer>)
    requires a.missing == 0 && AllArrive(answers)
    ensures AllArrive([a] + answers)
  {
  }

  /** For every stream of well formed packets and every target there is a link over which this target
      serves it. */
  function ServingLink(t: Target, own: Byte, stream: seq<Byte>): Link
    requires WellFormed(Packets(stream))
  {
    Link(Scripts(Packets(stream), ServingAnswers(t, own, Packets(stream))), [], [], MAX_PACKET)
  }

  /** The service does happen: over the link of the chip at the address every compiled request returns
      what the transaction reads. */
  lemma PresenceHappens(stream: seq<Byte>, speed: int, address: Byte, data: seq<Byte>, readLength: nat, chip: Chip)
    requires Compiled(stream, address, data, readLength) && SpeedCommand(speed).Some?
    ensures Run(ServingLink(Target(chip, Idle), address, stream), speed, stream, readLength).0 ==
      Ok(Transact(chip, data, readLength).1)
  {
    hide Run, Packets, Interpret, Scripts, ServingAnswers, Serves, AllAnswer, Transact, Trace, RequestedTrace;
    var t := Target(chip, Idle);
    var l, answers := ServingLink(t, address, stream), ServingAnswers(t, address, Packets(stream));
    ServingAnswersServe(t, address, Packets(stream), Capacity(l.maxPacketSize));
    TransactionOnTheWire(l, speed, stream, address, data, readLength, answers, chip);
  }

  /** And so does the unnoticed absence: over the link of a chip at another address every request is
      answered as `AbsenceReported` says, a pure read of more than 32 bytes by a success. */
  lemma AbsenceHappens(stream: seq<Byte>, speed: int, address: Byte, data: seq<Byte>, readLength: nat,
                       chip: Chip, own: Byte)
    requires Encodable(address, data, readLength) && own <= 0x7f && own != address
    requires Emitted(stream, address, data, readLength) && SpeedCommand(speed).Some?
    ensures Run(ServingLink(Target(chip, Idle), own, stream), speed, stream, readLength).0 ==
      if data != [] || readLength <= 32 then Err(Nack) else Ok(Ones(readLength))
  {
    hide Run, Packets, Interpret, Scripts, ServingAnswers, Serves, AllAnswer, StreamMarks, RequestMarks, AnyMixed;
    var t := Target(chip, Idle);
    var l, answers := ServingLink(t, own, stream), ServingAnswers(t, own, Packets(stream));
    ServingAnswersServe(t, own, Packets(stream), Capacity(l.maxPacketSize));
    AbsenceReported(l, speed, stream, address, data, readLength, answers, chip, own);
  }

  /** A concrete case: 33 bytes read, at 100 kHz, from an address where nobody is. */
  method AbsenceExample(address: Byte, chip: Chip, own: Byte) returns (r: Result<seq<Byte>>)
    requires address <= 0x7f && own <= 0x7f && own != address
    ensures r == Ok(Ones(33))
  {
    hide Run, Ones, Packets, Interpret, AnyMixed, StreamMarks, RequestMarks, Trace, RequestedTrace;
    var encoded := EncodeTransaction(address, [], 33);
    var usb := new UsbLink(ServingLink(Target(chip, Idle), own, encoded.value));
    AbsenceHappens(encoded.value, 100, address, [], 33, chip, own);
    r := Execute(usb, 100, encoded.value, 33);
  }
}
