/** Which bytes on the bus the statuses tell about.  For every pattern of acknowledgements, a NACK is
    reported exactly if one of the bytes that have a status is not acknowledged. */
module Acknowledgement {
  import opened Outcome
  import opened Wire
  import opened Encoder
  import opened Executor
  import opened Delivery

  // ---------------------------------------------------------------- the bytes sent

  /** The bytes the bus events send, in order. */
  function SentBytes(t: seq<Event>): seq<Byte> {
    if t == [] then []
    else (if t[0].Sent? then [t[0].value] else []) + SentBytes(t[1..])
  }

  lemma {:induction false} SentBytesConcat(a: seq<Event>, b: seq<Event>)
    ensures SentBytes(a + b) == SentBytes(a) + SentBytes(b)
  {
    if a == [] {
      assert a + b == b;
    } else {
      Cons(a, b);
      SentBytesConcat(a[1..], b);
      Assoc(if a[0].Sent? then [a[0].value] else [], SentBytes(a[1..]), SentBytes(b));
    }
  }

  lemma {:induction false} SentBytesOfSends(values: seq<Byte>)
    ensures SentBytes(Sends(values)) == values
  {
    if values != [] {
      SentBytesOfSends(values[1..]);
      Cons([Sent(values[0])], Sends(values[1..]));
    }
  }

  lemma {:induction false} SentBytesOfAcks(n: nat)
    ensures SentBytes(Acks(n)) == []
  {
    if n > 0 {
      SentBytesOfAcks(n - 1);
    }
  }

  lemma SentBytesOfOne(e: Event)
    ensures SentBytes([e]) == if e.Sent? then [e.value] else []
  {
    assert [e][1..] == [];
  }

  lemma {:induction false} RepeatLength(mark: bool, n: nat)
    ensures |Repeat(mark, n)| == n
    ensures forall i | 0 <= i < n :: Repeat(mark, n)[i] == mark
  {
    if n > 0 {
      RepeatLength(mark, n - 1);
    }
  }

  /** Marks and bytes sent correspond one to one. */
  lemma MarksOfCommand(c: Command)
    ensures |SentBytes(Events(c))| == |Marks(c)|
  {
    match c {
      case WriteBlock(values) =>
        SentBytesOfSends(values);
        RepeatLength(false, |values|);
      case ReadAcked(count) => SentBytesOfAcks(count);
      case WriteOne(value) => SentBytesOfOne(Sent(value));
      case Start => SentBytesOfOne(StartCondition);
      case Stop => SentBytesOfOne(StopCondition);
      case ReadLast => SentBytesOfOne(ReceivedNack);
      case Speed(code) => SentBytesOfOne(SpeedSet(code));
    }
  }

  lemma {:induction false} MarkPerByte(cs: seq<Command>)
    ensures |MarksOf(cs)| == |SentBytes(Trace(cs))|
  {
    if cs != [] {
      MarkPerByte(cs[1..]);
      MarksOfCommand(cs[0]);
      SentBytesConcat(Events(cs[0]), Trace(cs[1..]));
    }
  }

  /** What a request sends: the write address and the data, then the read address. */
  function RequestBytes(address: Byte, data: seq<Byte>, readLength: nat): seq<Byte>
    requires address <= 0x7f
  {
    (if data == [] then [] else [address * 2] + data) + (if readLength == 0 then [] else [address * 2 + 1])
  }

  lemma SentByRequest(address: Byte, data: seq<Byte>, readLength: nat)
    requires address <= 0x7f
    ensures SentBytes(RequestedTrace(address, data, readLength)) == RequestBytes(address, data, readLength)
  {
    var w, r := WriteTrace(address, data), ReadTrace(address, readLength);
    SentByWrite(address, data);
    SentByRead(address, readLength);
    SentBytesConcat(w, r);
    SentBytesConcat(w + r, [StopCondition]);
    SentBytesOfOne(StopCondition);
    assert SentBytes(w + r) + [] == SentBytes(w + r);
  }

  lemma SentByHead(value: Byte, tail: seq<Event>)
    ensures SentBytes([StartCondition, Sent(value)] + tail) == [value] + SentBytes(tail)
  {
    SentBytesOfOne(StartCondition);
    SentBytesOfOne(Sent(value));
    SentBytesConcat([StartCondition], [Sent(value)]);
    SentBytesConcat([StartCondition, Sent(value)], tail);
    assert [StartCondition] + [Sent(value)] == [StartCondition, Sent(value)];
  }

  lemma SentByWrite(address: Byte, data: seq<Byte>)
    requires address <= 0x7f
    ensures SentBytes(WriteTrace(address, data)) == if data == [] then [] else [address * 2] + data
  {
    SentByHead(address * 2, Sends(data));
    SentBytesOfSends(data);
  }

  lemma SentByRead(address: Byte, readLength: nat)
    requires address <= 0x7f
    ensures SentBytes(ReadTrace(address, readLength)) == if readLength == 0 then [] else [address * 2 + 1]
  {
    if readLength > 0 {
      SentByHead(address * 2 + 1, ReadTail(readLength));
      SentBytesOfAcks(readLength - 1);
      SentBytesOfOne(ReceivedNack);
      SentBytesConcat(Acks(readLength - 1), [ReceivedNack]);
    }
  }

  /** In what the encoder emits, every byte sent has a status, in order, but for the read address in the
      general form. */
  lemma EveryByteButOne(stream: seq<Byte>, address: Byte, data: seq<Byte>, readLength: nat)
    requires Emitted(stream, address, data, readLength)
    ensures SentBytes(Trace(Interpret(Packets(stream)).value)) == RequestBytes(address, data, readLength)
    ensures |StreamMarks(stream)| == |RequestBytes(address, data, readLength)|
    ensures forall i | 0 <= i < |StreamMarks(stream)| ::
      StreamMarks(stream)[i] <==>
        !(readLength > 0 && !ShortForm(data, readLength) && i == |RequestBytes(address, data, readLength)| - 1)
  {
    SentByRequest(address, data, readLength);
    MarkPerByte(Interpret(Packets(stream)).value);
    RepeatLength(true, WriteStatuses(data));
    hide ShortForm, Packets, Interpret, Trace, WellFormed, Repeat, AnyMixed;
  }

  // ---------------------------------------------------------------- what statuses tell

  /** The acknowledgements of the marked bytes. */
  function Picked(marks: seq<bool>, acks: seq<bool>): (picked: seq<bool>)
    requires |marks| == |acks|
    ensures |picked| == Count(marks)
  {
    if marks == [] then []
    else (if marks[0] then [acks[0]] else []) + Picked(marks[1..], acks[1..])
  }

  /** Every marked byte is acknowledged. */
  predicate MarkedAcknowledged(marks: seq<bool>, acks: seq<bool>)
    requires |marks| == |acks|
  {
    forall i | 0 <= i < |marks| && marks[i] :: acks[i]
  }

  predicate All(reports: seq<bool>) {
    forall i | 0 <= i < |reports| :: reports[i]
  }

  lemma {:induction false} PickedAll(marks: seq<bool>, acks: seq<bool>)
    requires |marks| == |acks|
    ensures All(Picked(marks, acks)) <==> MarkedAcknowledged(marks, acks)
  {
    if marks != [] {
      var rest := Picked(marks[1..], acks[1..]);
      PickedAll(marks[1..], acks[1..]);
      MarkedFirst(marks, acks);
      if marks[0] {
        assert [acks[0]] + rest == Picked(marks, acks);
        AllCons(acks[0], rest);
      } else {
        assert [] + rest == rest;
      }
    }
  }

  lemma AllCons(first: bool, rest: seq<bool>)
    ensures All([first] + rest) <==> first && All(rest)
  {
    if All([first] + rest) {
      assert ([first] + rest)[0];
      forall i | 0 <= i < |rest| ensures rest[i] {
        assert ([first] + rest)[i + 1];
      }
    }
  }

  lemma MarkedFirst(marks: seq<bool>, acks: seq<bool>)
    requires |marks| == |acks| && marks != []
    ensures MarkedAcknowledged(marks, acks) <==> (marks[0] ==> acks[0]) && MarkedAcknowledged(marks[1..], acks[1..])
  {
    if MarkedAcknowledged(marks, acks) {
      forall i | 0 <= i < |marks| - 1 && marks[1..][i] ensures acks[1..][i] {
        assert marks[i + 1];
      }
    }
    if (marks[0] ==> acks[0]) && MarkedAcknowledged(marks[1..], acks[1..]) {
      forall i | 0 <= i < |marks| && marks[i] ensures acks[i] {
        if i > 0 { assert marks[1..][i - 1]; }
      }
    }
  }

  lemma {:induction false} MarkedConcat(marks1: seq<bool>, acks1: seq<bool>, marks2: seq<bool>, acks2: seq<bool>)
    requires |marks1| == |acks1| && |marks2| == |acks2|
    ensures MarkedAcknowledged(marks1 + marks2, acks1 + acks2) <==>
      MarkedAcknowledged(marks1, acks1) && MarkedAcknowledged(marks2, acks2)
  {
    if marks1 == [] {
      assert marks1 + marks2 == marks2 && acks1 + acks2 == acks2;
    } else {
      Cons(marks1, marks2);
      Cons(acks1, acks2);
      MarkedConcat(marks1[1..], acks1[1..], marks2, acks2);
      MarkedFirst(marks1, acks1);
      MarkedFirst(marks1 + marks2, acks1 + acks2);
    }
  }

  /** A status tells a missing acknowledgement in bit 7. */
  predicate Tells(statuses: seq<Byte>, reports: seq<bool>) {
    |statuses| == |reports| && forall i | 0 <= i < |statuses| :: (statuses[i] < 0x80) == reports[i]
  }

  lemma TellsAll(statuses: seq<Byte>, reports: seq<bool>)
    requires Tells(statuses, reports)
    ensures Acknowledged(statuses) <==> All(reports)
  {
  }

  /** Every packet's statuses tell the acknowledgements of its marked bytes, out of those of all bytes
      the stream sends. */
  ghost predicate TellAll(packets: seq<seq<Byte>>, answers: seq<Answer>, acks: seq<bool>)
    requires WellFormed(packets) && |packets| == |answers|
    decreases |packets|
  {
    if packets == [] then acks == []
    else
      var marks := MarksOf(DecodePacket(packets[0]).value);
      && |marks| <= |acks| && Tells(answers[0].statuses, Picked(marks, acks[..|marks|]))
      && TellAll(packets[1..], answers[1..], acks[|marks|..])
  }

  predicate AllArrive(answers: seq<Answer>) {
    forall i | 0 <= i < |answers| :: answers[i].missing == 0
  }

  lemma {:induction false} TellAllLength(packets: seq<seq<Byte>>, answers: seq<Answer>, acks: seq<bool>)
    requires WellFormed(packets) && |packets| == |answers| && TellAll(packets, answers, acks)
    ensures Interpret(packets).Some? && |acks| == |MarksOf(Interpret(packets).value)|
    decreases |packets|
  {
    if packets != [] {
      var cs := DecodePacket(packets[0]).value;
      TellAllLength(packets[1..], answers[1..], acks[|MarksOf(cs)|..]);
      MarksConcat(cs, Interpret(packets[1..]).value);
    }
  }

  lemma {:induction false} NackedByPattern(packets: seq<seq<Byte>>, answers: seq<Answer>, acks: seq<bool>, size: nat)
    requires WellFormed(packets) && AllAnswer(packets, answers, size) && AllArrive(answers)
    requires TellAll(packets, answers, acks)
    ensures Interpret(packets).Some? && |acks| == |MarksOf(Interpret(packets).value)|
    ensures NoneNacked(answers) <==> MarkedAcknowledged(MarksOf(Interpret(packets).value), acks)
    decreases |packets|
  {
    hide *;
    OnePerPacket(packets, answers, size);
    TellAllLength(packets, answers, acks);
    if packets == [] {
      NothingNacked(answers);
    } else {
      PatternStep(packets, answers, acks, size);
      var n := |MarksOf(DecodePacket(packets[0]).value)|;
      NackedByPattern(packets[1..], answers[1..], acks[n..], size);
      FirstByPattern(answers[0], MarksOf(DecodePacket(packets[0]).value), acks[..n]);
      NackedHere(answers);
      MarkedConcat(MarksOf(DecodePacket(packets[0]).value), acks[..n],
                   MarksOf(Interpret(packets[1..]).value), acks[n..]);
    }
  }

  lemma OnePerPacket(packets: seq<seq<Byte>>, answers: seq<Answer>, size: nat)
    requires WellFormed(packets) && AllAnswer(packets, answers, size)
    ensures |packets| == |answers|
  {
  }

  lemma NothingNacked(answers: seq<Answer>)
    ensures answers == [] ==> NoneNacked(answers)
    ensures Interpret([]) == Some([]) && MarksOf([]) == [] && MarkedAcknowledged([], [])
  {
  }

  lemma PatternStep(packets: seq<seq<Byte>>, answers: seq<Answer>, acks: seq<bool>, size: nat)
    requires WellFormed(packets) && AllAnswer(packets, answers, size) && AllArrive(answers)
    requires TellAll(packets, answers, acks) && packets != []
    ensures DecodePacket(packets[0]).Some? && Interpret(packets[1..]).Some? && Interpret(packets).Some?
    ensures var cs, rest := DecodePacket(packets[0]).value, Interpret(packets[1..]).value;
      && |MarksOf(cs)| <= |acks| && acks == acks[..|MarksOf(cs)|] + acks[|MarksOf(cs)|..]
      && MarksOf(Interpret(packets).value) == MarksOf(cs) + MarksOf(rest)
      && |answers| == |packets| && answers[0].missing == 0 && AllArrive(answers[1..])
      && Tells(answers[0].statuses, Picked(MarksOf(cs), acks[..|MarksOf(cs)|]))
      && WellFormed(packets[1..]) && AllAnswer(packets[1..], answers[1..], size)
      && TellAll(packets[1..], answers[1..], acks[|MarksOf(cs)|..])
  {
    hide Answers, Picked, Tells, DecodePacket, AllArrive;
    var cs := DecodePacket(packets[0]).value;
    TellAllLength(packets[1..], answers[1..], acks[|MarksOf(cs)|..]);
    ArriveHere(answers);
    MarksConcat(cs, Interpret(packets[1..]).value);
  }

  lemma ArriveHere(answers: seq<Answer>)
    requires AllArrive(answers) && answers != []
    ensures answers[0].missing == 0 && AllArrive(answers[1..])
  {
    assert forall i | 0 <= i < |answers| - 1 :: answers[1..][i] == answers[i + 1];
  }

  lemma FirstByPattern(a: Answer, marks: seq<bool>, acks: seq<bool>)
    requires a.missing == 0 && |marks| == |acks| && Tells(a.statuses, Picked(marks, acks))
    ensures Received(a) <==> MarkedAcknowledged(marks, acks)
  {
    hide Picked;
    assert a.statuses[0..] == a.statuses;
    TellsAll(a.statuses, Picked(marks, acks));
    PickedAll(marks, acks);
  }

  /** The bytes of a request that have a status come first; this one among them is not acknowledged. */
  predicate Unacknowledged(data: seq<Byte>, readLength: nat, acks: seq<bool>) {
    exists i | 0 <= i < WriteStatuses(data) + ShortFormExtra(data, readLength) && i < |acks| :: !acks[i]
  }

  lemma PatternOfRequest(data: seq<Byte>, readLength: nat, acks: seq<bool>)
    requires |acks| == |RequestMarks(data, readLength)|
    ensures MarkedAcknowledged(RequestMarks(data, readLength), acks) <==> !Unacknowledged(data, readLength, acks)
  {
    var marks, n := RequestMarks(data, readLength), WriteStatuses(data) + ShortFormExtra(data, readLength);
    RepeatLength(true, WriteStatuses(data));
    assert forall i | 0 <= i < |marks| :: marks[i] <==> i < n;
    hide RequestMarks, ShortForm, Repeat, WriteStatuses;
    if Unacknowledged(data, readLength, acks) {
      var i :| 0 <= i < n && i < |acks| && !acks[i];
      assert marks[i] && !acks[i];
    }
  }

  /** For every pattern of acknowledgements of the bytes a request sends, with all statuses arriving,
      the execution reports a NACK if and only if one of the bytes that have a status is not
      acknowledged, and returns the data otherwise. */
  lemma NackExactly(l: Link, speed: int, stream: seq<Byte>, address: Byte, data: seq<Byte>, readLength: nat,
                    answers: seq<Answer>, acks: seq<bool>)
    requires Emitted(stream, address, data, readLength)
    requires SpeedCommand(speed).Some? && l.outbound == []
    requires AllAnswer(Packets(stream), answers, Capacity(l.maxPacketSize)) && AllArrive(answers)
    requires l.inbound == Scripts(Packets(stream), answers)
    requires TellAll(Packets(stream), answers, acks)
    ensures |acks| == |RequestBytes(address, data, readLength)|
    ensures Run(l, speed, stream, readLength).0 ==
      if Unacknowledged(data, readLength, acks) then Err(Nack) else Ok(AllData(answers))
  {
    hide Run, Packets, Interpret, AllAnswer, Scripts, TellAll, AllArrive, AllData, MarksOf, NoneNacked, Unacknowledged;
    hide RequestMarks, RequestBytes, MarkedAcknowledged, AnyMixed;
    EveryByteButOne(stream, address, data, readLength);
    EndToEnd(l, speed, stream, address, data, readLength, answers);
    NackedByPattern(Packets(stream), answers, acks, Capacity(l.maxPacketSize));
    PatternOfRequest(data, readLength, acks);
  }
}
