/** What a bridge that answers correctly makes of an execution, however USB cuts its answers into
    transfers. */
module Delivery {
  import opened Outcome
  import opened Wire
  import opened Executor

  /** The bytes the bridge produces for a packet, in the order in which it performs the commands:
      a status for each reporting write, data for each read. */
  function Reply(cs: seq<Command>, statuses: seq<Byte>, data: seq<Byte>): (reply: seq<Byte>)
    requires |statuses| == StatusCount(cs) && |data| == DataCount(cs)
    ensures |reply| == |statuses| + |data|
  {
    if cs == [] then []
    else match cs[0]
      case WriteOne(_) => [statuses[0]] + Reply(cs[1..], statuses[1..], data)
      case ReadAcked(n) => data[..n] + Reply(cs[1..], statuses, data[n..])
      case ReadLast => [data[0]] + Reply(cs[1..], statuses, data[1..])
      case _ => Reply(cs[1..], statuses, data)
  }

  /** One packet's answer: the statuses and data behind it, how many leading status bytes never
      arrive, how USB cuts the rest, and how the silence after it is reported. */
  datatype Answer = Answer(statuses: seq<Byte>, data: seq<Byte>, missing: nat,
                           chunks: seq<seq<Byte>>, quiet: Transfer)

  predicate Cut(chunks: seq<seq<Byte>>, size: nat) {
    chunks == [] || (0 < |chunks[0]| <= size && Cut(chunks[1..], size))
  }

  predicate Answers(cs: seq<Command>, a: Answer, size: nat) {
    && |a.statuses| == StatusCount(cs) && |a.data| == DataCount(cs)
    && a.missing <= |a.statuses|
    && Cut(a.chunks, size)
    && Join(a.chunks) == Reply(cs, a.statuses, a.data)[a.missing..]
    && (a.quiet == Fault(TimedOut) || a.quiet == Chunk([]))
  }

  function Chunks(parts: seq<seq<Byte>>): seq<Transfer> {
    if parts == [] then [] else [Chunk(parts[0])] + Chunks(parts[1..])
  }

  /** The transfers an answer takes; a packet without answer is not read at all. */
  function Script(cs: seq<Command>, a: Answer): seq<Transfer> {
    if StatusCount(cs) + DataCount(cs) == 0 then []
    else Chunks(a.chunks) + if a.missing > 0 then [a.quiet] else []
  }

  predicate Received(a: Answer)
    requires a.missing <= |a.statuses|
  {
    Acknowledged(a.statuses[a.missing..])
  }

  // ---------------------------------------------------------------- one packet

  lemma {:induction false} NoStatusesLeft(cs: seq<Command>, statuses: seq<Byte>, data: seq<Byte>)
    requires |statuses| == StatusCount(cs) && |data| == DataCount(cs)
    requires StatusCount(cs) == 0
    ensures Reply(cs, statuses, data) == data
  {
    if cs != [] {
      NoStatusesLeft(cs[1..], statuses, data[DataBytes(cs[0])..]);
      assert data[0..] == data;
      match cs[0]
      case ReadAcked(n) => assert data[..n] + data[n..] == data;
      case ReadLast => assert [data[0]] + data[1..] == data;
      case _ =>
    }
  }

  /** In a packet of the encoder's shape all status bytes precede all data bytes. */
  lemma {:induction false} StatusesThenData(cs: seq<Command>, statuses: seq<Byte>, data: seq<Byte>)
    requires |statuses| == StatusCount(cs) && |data| == DataCount(cs)
    requires StatusesFirst(cs)
    ensures Reply(cs, statuses, data) == statuses + data
  {
    if cs == [] {
    } else if StatusCount(cs) == 0 {
      NoStatusesLeft(cs, statuses, data);
      assert statuses + data == data;
    } else if cs[0].WriteOne? {
      StatusesThenData(cs[1..], statuses[1..], data);
      Assoc([statuses[0]], statuses[1..], data);
      assert [statuses[0]] + statuses[1..] == statuses;
    } else {
      StatusesThenData(cs[1..], statuses, data);
    }
  }

  /** Reading an answer collects exactly the bytes that arrive, for every way of cutting them. */
  lemma {:induction false} CollectChunks(l: Link, chunks: seq<seq<Byte>>, tail: seq<Transfer>,
                                         got: seq<Byte>, limit: nat, allowEmpty: bool)
    requires l.inbound == Chunks(chunks) + tail
    requires Cut(chunks, Capacity(l.maxPacketSize)) && |got| + |Join(chunks)| <= limit
    ensures Collect(l, got, limit, allowEmpty) ==
      Collect(l.(inbound := tail), got + Join(chunks), limit, allowEmpty)
    decreases |chunks|
  {
    if chunks == [] {
      assert got + [] == got && [] + tail == tail;
    } else {
      var rest := l.(inbound := l.inbound[1..]);
      assert l.inbound == [Chunk(chunks[0])] + (Chunks(chunks[1..]) + tail);
      assert l.inbound[0] == Chunk(chunks[0]) && rest.inbound == Chunks(chunks[1..]) + tail;
      Assoc(got, chunks[0], Join(chunks[1..]));
      CollectChunks(rest, chunks[1..], tail, got + chunks[0], limit, allowEmpty);
    }
  }

  lemma WhatArrives(cs: seq<Command>, a: Answer, size: nat)
    requires Answers(cs, a, size) && StatusesFirst(cs)
    ensures Join(a.chunks) == a.statuses[a.missing..] + a.data
  {
    hide Join, Cut, Reply, StatusesFirst, StatusCount, DataCount;
    StatusesThenData(cs, a.statuses, a.data);
  }

  /** Bytes that arrive in chunks, and if they are fewer than asked for, the silence that tells. */
  lemma CollectScript(l: Link, chunks: seq<seq<Byte>>, quiet: seq<Transfer>, rest: seq<Transfer>, arrived: seq<Byte>,
                      limit: nat, allowEmpty: bool)
    requires l.inbound == Chunks(chunks) + quiet + rest
    requires Cut(chunks, Capacity(l.maxPacketSize)) && Join(chunks) == arrived
    requires if quiet == [] then |arrived| == limit
             else |arrived| < limit && (arrived != [] || allowEmpty) && |quiet| == 1 &&
                  (quiet[0] == Fault(TimedOut) || quiet[0] == Chunk([]))
    ensures Collect(l, [], limit, allowEmpty) == (Ok(arrived), l.(inbound := rest))
  {
    hide Join, Cut, Chunks, Collect;
    Assoc(Chunks(chunks), quiet, rest);
    CollectChunks(l, chunks, quiet + rest, [], limit, allowEmpty);
    assert [] + arrived == arrived;
    if quiet == [] {
      assert quiet + rest == rest;
      AllCollected(l.(inbound := rest), arrived, limit, allowEmpty);
    } else {
      Cons(quiet, rest);
      assert quiet[1..] + rest == rest;
      QuietEnds(l.(inbound := quiet + rest), arrived, limit, allowEmpty);
    }
  }

  lemma AllCollected(l: Link, got: seq<Byte>, limit: nat, allowEmpty: bool)
    requires |got| >= limit
    ensures Collect(l, got, limit, allowEmpty) == (Ok(got), l)
  {
  }

  lemma CollectAnswer(l: Link, cs: seq<Command>, a: Answer, rest: seq<Transfer>)
    requires Answers(cs, a, Capacity(l.maxPacketSize)) && StatusesFirst(cs)
    requires StatusCount(cs) + DataCount(cs) > 0
    requires l.inbound == Script(cs, a) + rest
    ensures Collect(l, [], StatusCount(cs) + DataCount(cs), DataCount(cs) == 0) ==
      (Ok(a.statuses[a.missing..] + a.data), l.(inbound := rest))
  {
    hide Reply, StatusCount, DataCount, StatusesFirst, Join, Cut, Chunks, Collect;
    var quiet := if a.missing > 0 then [a.quiet] else [];
    WhatArrives(cs, a, Capacity(l.maxPacketSize));
    CollectScript(l, a.chunks, quiet, rest, a.statuses[a.missing..] + a.data, StatusCount(cs) + DataCount(cs),
                  DataCount(cs) == 0);
  }

  lemma QuietEnds(l: Link, got: seq<Byte>, limit: nat, allowEmpty: bool)
    requires |got| < limit && (got != [] || allowEmpty) && l.inbound != []
    requires l.inbound[0] == Fault(TimedOut) || l.inbound[0] == Chunk([])
    ensures Collect(l, got, limit, allowEmpty) == (Ok(got), l.(inbound := l.inbound[1..]))
  {
  }

  lemma LengthsOfPacket(p: seq<Byte>)
    requires WellFormedPacket(p)
    ensures var cs := DecodePacket(p).value;
      AnswerLengths(p) == Ok((StatusCount(cs), DataCount(cs))) && StatusesFirst(cs)
  {
  }

  lemma JudgeAnswer(a: Answer)
    requires a.missing <= |a.statuses|
    ensures Judge(Ok(a.statuses[a.missing..] + a.data), |a.data|) == if Received(a) then Ok(a.data) else Err(Nack)
  {
    var bytes := a.statuses[a.missing..] + a.data;
    assert bytes[..|bytes| - |a.data|] == a.statuses[a.missing..] && bytes[|bytes| - |a.data|..] == a.data;
  }

  lemma AnswerSize(cs: seq<Command>, a: Answer, size: nat)
    requires Answers(cs, a, size)
    ensures a.missing <= |a.statuses| && |a.data| == DataCount(cs)
    ensures StatusCount(cs) + DataCount(cs) == 0 ==> Script(cs, a) == [] && a.data == [] && Received(a)
  {
  }

  /** One packet against an answering bridge: its data exactly, or NACK if a status that did
      arrive has bit 7 set. */
  lemma PacketDelivered(l: Link, p: seq<Byte>, a: Answer, rest: seq<Transfer>)
    requires WellFormedPacket(p) && l.outbound == []
    requires Answers(DecodePacket(p).value, a, Capacity(l.maxPacketSize))
    requires l.inbound == Script(DecodePacket(p).value, a) + rest
    ensures a.missing <= |a.statuses|
    ensures RunPacket(l, p) ==
      (if Received(a) then Ok(a.data) else Err(Nack), l.(inbound := rest, sent := l.sent + [p]))
  {
    hide PacketShape, AnswerLengths, Collect, DecodePacket, StatusesFirst, StatusCount, DataCount;
    hide Answers, Script, Judge, Received;
    var cs := DecodePacket(p).value;
    var l1 := l.(sent := l.sent + [p]);
    LengthsOfPacket(p);
    AnswerSize(cs, a, Capacity(l.maxPacketSize));
    if StatusCount(cs) + DataCount(cs) == 0 {
      assert [] + rest == rest;
    } else {
      CollectAnswer(l1, cs, a, rest);
      JudgeAnswer(a);
    }
  }

  // ---------------------------------------------------------------- answers that arrive whole

  /** Bytes cut into single ones. */
  function Singles(bytes: seq<Byte>): seq<seq<Byte>> {
    if bytes == [] then [] else [[bytes[0]]] + Singles(bytes[1..])
  }

  lemma {:induction false} SinglesFit(bytes: seq<Byte>, size: nat)
    requires size >= 1
    ensures Cut(Singles(bytes), size) && Join(Singles(bytes)) == bytes
  {
    if bytes != [] {
      var rest := Singles(bytes[1..]);
      SinglesFit(bytes[1..], size);
      Cons([[bytes[0]]], rest);
      assert [bytes[0]] + bytes[1..] == bytes;
    }
  }

  /** An answer whose bytes all arrive, one by one. */
  function WholeAnswer(statuses: seq<Byte>, data: seq<Byte>): Answer {
    Answer(statuses, data, 0, Singles(statuses + data), Fault(TimedOut))
  }

  lemma WholeAnswerFits(cs: seq<Command>, statuses: seq<Byte>, data: seq<Byte>, size: nat)
    requires StatusesFirst(cs) && size >= 1
    requires |statuses| == StatusCount(cs) && |data| == DataCount(cs)
    ensures Answers(cs, WholeAnswer(statuses, data), size)
  {
    hide Reply, StatusesFirst, StatusCount, DataCount, Singles, Join, Cut;
    StatusesThenData(cs, statuses, data);
    SinglesFit(statuses + data, size);
  }

  // ---------------------------------------------------------------- the whole stream

  predicate AllAnswer(packets: seq<seq<Byte>>, answers: seq<Answer>, size: nat)
    requires WellFormed(packets)
  {
    && |packets| == |answers|
    && (packets == [] ||
        (Answers(DecodePacket(packets[0]).value, answers[0], size) &&
         AllAnswer(packets[1..], answers[1..], size)))
  }

  function Scripts(packets: seq<seq<Byte>>, answers: seq<Answer>): seq<Transfer>
    requires WellFormed(packets) && |packets| == |answers|
  {
    if packets == [] then []
    else Script(DecodePacket(packets[0]).value, answers[0]) + Scripts(packets[1..], answers[1..])
  }

  function AllData(answers: seq<Answer>): seq<Byte> {
    if answers == [] then [] else answers[0].data + AllData(answers[1..])
  }

  predicate NoneNacked(answers: seq<Answer>) {
    forall i | 0 <= i < |answers| && answers[i].missing <= |answers[i].statuses| :: Received(answers[i])
  }

  lemma {:induction false} StreamDelivered(l: Link, packets: seq<seq<Byte>>, answers: seq<Answer>,
                                           response: seq<Byte>)
    requires WellFormed(packets) && l.outbound == []
    requires AllAnswer(packets, answers, Capacity(l.maxPacketSize))
    requires l.inbound == Scripts(packets, answers)
    ensures RunPackets(l, packets, response).0 ==
      if NoneNacked(answers) then Ok(response + AllData(answers)) else Err(Nack)
    decreases |packets|
  {
    if packets == [] {
      assert response + [] == response;
    } else {
      var a, rest := answers[0], Scripts(packets[1..], answers[1..]);
      PacketDelivered(l, packets[0], a, rest);
      NackedHere(answers);
      hide RunPacket, Answers, Script, WellFormedPacket, Received;
      if Received(a) {
        var l1 := l.(inbound := rest, sent := l.sent + [packets[0]]);
        StreamDelivered(l1, packets[1..], answers[1..], response + a.data);
        Assoc(response, a.data, AllData(answers[1..]));
      }
    }
  }

  lemma NackedHere(answers: seq<Answer>)
    requires answers != [] && answers[0].missing <= |answers[0].statuses|
    ensures NoneNacked(answers) <==> Received(answers[0]) && NoneNacked(answers[1..])
  {
    forall i | 0 <= i < |answers[1..]| ensures answers[1..][i] == answers[i + 1] {}
    if Received(answers[0]) && NoneNacked(answers[1..]) {
      forall i | 0 <= i < |answers| && answers[i].missing <= |answers[i].statuses|
        ensures Received(answers[i])
      {
        if i > 0 { assert answers[i] == answers[1..][i - 1]; }
      }
    }
  }

  lemma {:induction false} AllDataLength(packets: seq<seq<Byte>>, answers: seq<Answer>, size: nat)
    requires WellFormed(packets) && AllAnswer(packets, answers, size)
    ensures Interpret(packets).Some? && |AllData(answers)| == DataCount(Interpret(packets).value)
  {
    if packets != [] {
      AllDataLength(packets[1..], answers[1..], size);
      CountsConcat(DecodePacket(packets[0]).value, Interpret(packets[1..]).value);
    }
  }

  /** End to end: for every compiled request and every bridge that answers each packet with its
      statuses and data, whatever leading statuses are missing and however USB cuts the answers,
      the execution returns exactly the data asked for, in order, or reports a NACK if and only
      if a status that arrived has bit 7 set.  In particular its final length check never fires. */
  lemma EndToEnd(l: Link, speed: int, stream: seq<Byte>, address: Byte, data: seq<Byte>,
                 readLength: nat, answers: seq<Answer>)
    requires Compiled(stream, address, data, readLength)
    requires SpeedCommand(speed).Some? && l.outbound == []
    requires AllAnswer(Packets(stream), answers, Capacity(l.maxPacketSize))
    requires l.inbound == Scripts(Packets(stream), answers)
    ensures |AllData(answers)| == readLength
    ensures Run(l, speed, stream, readLength).0 ==
      if NoneNacked(answers) then Ok(AllData(answers)) else Err(Nack)
  {
    var packets := Packets(stream);
    var l1 := Send(l, [MARK, SpeedCommand(speed).value, END]).1;
    AllDataLength(packets, answers, Capacity(l.maxPacketSize));
    CompiledDataCount(stream, address, data, readLength);
    hide RunPackets, Interpret, AllAnswer, Scripts, AllData, NoneNacked;
    StreamDelivered(l1, packets, answers, []);
    assert [] + AllData(answers) == AllData(answers);
  }

  // ---------------------------------------------------------------- the final length check

  /** Over any link, faithful or not, a packet that succeeds yields exactly its data bytes. */
  lemma PacketLength(l: Link, p: seq<Byte>)
    requires WellFormedPacket(p)
    ensures RunPacket(l, p).0.Ok? ==> |RunPacket(l, p).0.value| == DataCount(DecodePacket(p).value)
  {
    LengthsOfPacket(p);
    hide Collect, DecodePacket, AnswerLengths, PacketShape;
  }

  lemma {:induction false} StreamLength(l: Link, packets: seq<seq<Byte>>, response: seq<Byte>)
    requires WellFormed(packets) && Interpret(packets).Some?
    ensures RunPackets(l, packets, response).0.Ok? ==>
      |RunPackets(l, packets, response).0.value| == |response| + DataCount(Interpret(packets).value)
    decreases |packets|
  {
    if packets != [] {
      PacketLength(l, packets[0]);
      CountsConcat(DecodePacket(packets[0]).value, Interpret(packets[1..]).value);
      var (r, l1) := RunPacket(l, packets[0]);
      hide RunPacket, WellFormedPacket;
      if r.Ok? {
        StreamLength(l1, packets[1..], response + r.value);
      }
    }
  }

  /** The final length check of an execution can never fail: whatever the device does, the result is
      that of running the packets. */
  lemma LengthCheckNeverFails(l: Link, speed: int, stream: seq<Byte>, address: Byte, data: seq<Byte>, readLength: nat)
    requires Compiled(stream, address, data, readLength) && SpeedCommand(speed).Some?
    ensures var (error, l1) := Send(l, [MARK, SpeedCommand(speed).value, END]);
      Run(l, speed, stream, readLength) ==
      if error.Some? then (Err(error.value), l1) else RunPackets(l1, Packets(stream), [])
  {
    hide RunPackets, Interpret, Packets;
    CompiledDataCount(stream, address, data, readLength);
    StreamLength(Send(l, [MARK, SpeedCommand(speed).value, END]).1, Packets(stream), []);
  }
}
