/** What becomes of an answer whose end is lost.  The executor takes missing bytes for leading status
    bytes, so whether it notices depends on how many statuses the packet reports. */
module LostTail {
  import opened Outcome
  import opened Wire
  import opened Layout
  import opened Encoder
  import opened Executor
  import opened Delivery

  /** An answer that lost its last `lost` bytes: how the rest is cut, and what follows it. */
  datatype Loss = Loss(statuses: seq<Byte>, data: seq<Byte>, lost: nat, chunks: seq<seq<Byte>>, after: seq<Transfer>)

  /** After the rest the device is silent: no more transfers, a timeout, or an empty transfer. */
  predicate Silent(after: seq<Transfer>) {
    after == [] || after[0] == Fault(TimedOut) || after[0] == Chunk([])
  }

  predicate Loses(cs: seq<Command>, loss: Loss, size: nat) {
    && |loss.statuses| == StatusCount(cs) && |loss.data| == DataCount(cs)
    && 0 < loss.lost <= |loss.statuses| + |loss.data|
    && Cut(loss.chunks, size)
    && Join(loss.chunks) == Reply(cs, loss.statuses, loss.data)[..|loss.statuses| + |loss.data| - loss.lost]
    && Silent(loss.after)
  }

  /** The statuses the executor still takes for statuses. */
  function Judged(loss: Loss): seq<Byte>
    requires loss.lost <= |loss.statuses|
  {
    loss.statuses[..|loss.statuses| - loss.lost]
  }

  /** The bytes it takes for data: a window that lies too early by what was lost. */
  function Shifted(loss: Loss): seq<Byte>
    requires loss.lost <= |loss.statuses|
  {
    (loss.statuses + loss.data)[|loss.statuses| - loss.lost..][..|loss.data|]
  }

  function Verdict(loss: Loss): Result<seq<Byte>> {
    if loss.data != [] && loss.lost == |loss.statuses| + |loss.data| then
      Err(if loss.after == [] || loss.after[0].Fault? then TimedOut else DeviceMissing)
    else if loss.lost > |loss.statuses| then Err(DeviceMissing)
    else if !Acknowledged(Judged(loss)) then Err(Nack)
    else Ok(Shifted(loss))
  }

  /** The silence is read as one transfer. */
  function Rest(after: seq<Transfer>): seq<Transfer> {
    if after == [] then [] else after[1..]
  }

  // ---------------------------------------------------------------- one packet

  /** Exactly what comes of a lost tail, whatever the statuses say and however much is lost.  It goes
      unnoticed if and only if no more bytes are lost than there are statuses, and none of those
      that keep their place reports a NACK. */
  lemma LostTailExactly(l: Link, p: seq<Byte>, loss: Loss)
    requires WellFormedPacket(p) && l.outbound == []
    requires Loses(DecodePacket(p).value, loss, Capacity(l.maxPacketSize))
    requires l.inbound == Chunks(loss.chunks) + loss.after
    ensures RunPacket(l, p).0 == Verdict(loss)
    ensures RunPacket(l, p).1 == l.(inbound := Rest(loss.after), sent := l.sent + [p])
    ensures RunPacket(l, p).0.Ok? <==> loss.lost <= |loss.statuses| && Acknowledged(Judged(loss))
  {
    hide Collect, Decode, DecodePacket, Join, Cut, Chunks, Reply, StatusCount, DataCount;
    hide AnswerLengths, Judged, Shifted;
    var cs := DecodePacket(p).value;
    var l1 := l.(sent := l.sent + [p]);
    var whole, received := |loss.statuses| + |loss.data|, Join(loss.chunks);
    LengthsOfPacket(p);
    WhatArrives(cs, loss, Capacity(l.maxPacketSize));
    assert [] + received == received;
    CollectChunks(l1, loss.chunks, loss.after, [], whole, loss.data == []);
    SilenceEnds(l1.(inbound := loss.after), received, whole, loss.data == []);
  }

  lemma WhatArrives(cs: seq<Command>, loss: Loss, size: nat)
    requires StatusesFirst(cs) && Loses(cs, loss, size)
    ensures |Join(loss.chunks)| == |loss.statuses| + |loss.data| - loss.lost
    ensures loss.lost <= |loss.statuses| ==>
      var received := Join(loss.chunks);
      && received[..|received| - |loss.data|] == Judged(loss)
      && received[|received| - |loss.data|..] == Shifted(loss)
  {
    hide Join, Cut, Reply, StatusesFirst;
    StatusesThenData(cs, loss.statuses, loss.data);
  }

  lemma SilenceEnds(l: Link, got: seq<Byte>, limit: nat, allowEmpty: bool)
    requires Silent(l.inbound) && |got| < limit
    ensures Collect(l, got, limit, allowEmpty).0 ==
      if got != [] || allowEmpty then Ok(got)
      else Err(if l.inbound == [] || l.inbound[0].Fault? then TimedOut else DeviceMissing)
    ensures Collect(l, got, limit, allowEmpty).1 == l.(inbound := Rest(l.inbound))
  {
  }

  /** The worst cases, for the packet of a one-byte read.  The bridge answers one status and the data
      byte 7.  When the data byte is lost, the call succeeds and returns the status instead, be it an
      acknowledgement or a NACK. */
  lemma LostTailExample(l: Link, status: Byte)
    requires l.outbound == [] && l.inbound == [Chunk([status])]
    ensures var p := [0xaa, 0x74, 0x80, 0x23, 0xc0, 0x75, 0x00];
      WellFormedPacket(p) && RunPacket(l, p).0 == Ok([status])
  {
    hide PacketShape, DecodePacket, StatusCount, DataCount, RunPacket, Reply;
    var p: seq<Byte> := [0xaa, 0x74, 0x80, 0x23, 0xc0, 0x75, 0x00];
    ExamplePacket(p);
    var loss := Loss([status], [7], 1, [[status]], []);
    ExampleLoss(DecodePacket(p).value, loss, status, Capacity(l.maxPacketSize));
    LostTailExactly(l, p, loss);
  }

  lemma ExampleLoss(cs: seq<Command>, loss: Loss, status: Byte, size: nat)
    requires StatusesFirst(cs) && StatusCount(cs) == 1 && DataCount(cs) == 1 && size >= 1
    requires loss == Loss([status], [7], 1, [[status]], [])
    ensures Loses(cs, loss, size) && Verdict(loss) == Ok([status])
    ensures Chunks(loss.chunks) + loss.after == [Chunk([status])]
  {
    hide StatusCount, DataCount, StatusesFirst, Reply;
    StatusesThenData(cs, [status], [7]);
    assert [[status]][1..] == [] && [status] + [] == [status];
    assert Join([[status]]) == [status] && Cut([[status]], size);
    assert Chunks([[status]]) == [Chunk([status])] + Chunks([]) == [Chunk([status])];
    assert Reply(cs, [status], [7])[..1] == [status] && Judged(loss) == [];
    assert ([status] + [7])[0..][..1] == [status];
  }

  lemma ExamplePacket(p: seq<Byte>)
    requires p == [0xaa, 0x74, 0x80, 0x23, 0xc0, 0x75, 0x00]
    ensures WellFormedPacket(p) && StatusesFirst(DecodePacket(p).value)
    ensures StatusCount(DecodePacket(p).value) == 1 && DataCount(DecodePacket(p).value) == 1
  {
    var c3, e3: seq<Byte> := [Stop], [0x75];
    var c2, e2: seq<Byte> := [ReadLast] + c3, [0xc0] + e3;
    var c1, e1: seq<Byte> := [WriteOne(0x23)] + c2, [0x80, 0x23] + e2;
    var c0, e0: seq<Byte> := [Start] + c1, [0x74] + e1;
    assert c0[1..] == c1 && c1[1..] == c2 && c2[1..] == c3 && c3[1..] == [];
    assert ValidCommands(c3) && EncodeAll(c3) == e3;
    assert ValidCommands(c2) && EncodeAll(c2) == e2;
    assert ValidCommands(c1) && EncodeAll(c1) == e1;
    assert ValidCommands(c0) && EncodeAll(c0) == e0;
    assert p[1..] == e0 + [END];
    DecodeEncode(c0, [END]);
    assert c0 + [] == c0;
    hide Decode, EncodeAll;
    assert StatusCount(c2) == 0 && DataCount(c2) == 1 && StatusesFirst(c2) && StartsAddressed(c2);
    assert StatusCount(c1) == 1 && DataCount(c1) == 1 && StatusesFirst(c1) && StartsAddressed(c1);
    assert StatusCount(c0) == 1 && DataCount(c0) == 1 && StatusesFirst(c0) && StartsAddressed(c0);
  }

  /** A loss of one byte from an answer of zeros. */
  function ZeroLoss(cs: seq<Command>, after: seq<Transfer>): Loss
    requires StatusCount(cs) > 0
  {
    var received := StatusCount(cs) + DataCount(cs) - 1;
    Loss(Zeros(StatusCount(cs)), Zeros(DataCount(cs)), 1, Singles(Zeros(received)), after)
  }

  lemma ZeroLossPasses(cs: seq<Command>, after: seq<Transfer>, size: nat)
    requires StatusesFirst(cs) && StatusCount(cs) > 0 && size >= 1 && Silent(after)
    ensures Loses(cs, ZeroLoss(cs, after), size) && Verdict(ZeroLoss(cs, after)).Ok?
  {
    hide StatusCount, DataCount, StatusesFirst, Reply, Singles, Join, Cut;
    var loss := ZeroLoss(cs, after);
    StatusesThenData(cs, loss.statuses, loss.data);
    SinglesFit(Zeros(StatusCount(cs) + DataCount(cs) - 1), size);
  }

  ghost predicate TailLost(l: Link, p: seq<Byte>, loss: Loss)
    requires WellFormedPacket(p)
  {
    && l.outbound == [] && l.inbound == Chunks(loss.chunks) + loss.after
    && Loses(DecodePacket(p).value, loss, Capacity(l.maxPacketSize))
  }

  /** Every lost tail of a packet is reported if and only if the packet reports no status. */
  lemma PacketLossReported(p: seq<Byte>)
    requires WellFormedPacket(p)
    ensures (forall l: Link, loss: Loss | TailLost(l, p, loss) :: RunPacket(l, p).0.Err?) <==>
      StatusCount(DecodePacket(p).value) == 0
  {
    var cs := DecodePacket(p).value;
    LengthsOfPacket(p);
    forall l: Link, loss: Loss | TailLost(l, p, loss)
      ensures RunPacket(l, p).0.Ok? ==> StatusCount(cs) > 0
    {
      LostTailExactly(l, p, loss);
    }
    if StatusCount(cs) > 0 {
      var loss := ZeroLoss(cs, []);
      var l := Link(Chunks(loss.chunks) + [], [], [], MAX_PACKET);
      ZeroLossPasses(cs, [], MAX_PACKET);
      LostTailExactly(l, p, loss);
      assert TailLost(l, p, loss);
    }
  }

  // ---------------------------------------------------------------- whole requests

  /** The first packets are answered, and the answer to the next one loses its tail. */
  predicate LosesAt(packets: seq<seq<Byte>>, answers: seq<Answer>, loss: Loss, size: nat)
    requires WellFormed(packets)
    decreases |packets|
  {
    && packets != []
    && if answers == [] then Loses(DecodePacket(packets[0]).value, loss, size)
       else
         && Answers(DecodePacket(packets[0]).value, answers[0], size) && Received(answers[0])
         && LosesAt(packets[1..], answers[1..], loss, size)
  }

  function LossScript(packets: seq<seq<Byte>>, answers: seq<Answer>, loss: Loss): seq<Transfer>
    requires WellFormed(packets) && |answers| < |packets|
  {
    if answers == [] then Chunks(loss.chunks) + loss.after
    else Script(DecodePacket(packets[0]).value, answers[0]) + LossScript(packets[1..], answers[1..], loss)
  }

  lemma {:induction false} LosesSomewhere(packets: seq<seq<Byte>>, answers: seq<Answer>, loss: Loss, size: nat)
    requires WellFormed(packets) && LosesAt(packets, answers, loss, size)
    ensures |answers| < |packets|
    decreases |packets|
  {
    if answers != [] {
      LosesSomewhere(packets[1..], answers[1..], loss, size);
    }
  }

  ghost predicate StreamTailLost(l: Link, stream: seq<Byte>, answers: seq<Answer>, loss: Loss)
    requires WellFormed(Packets(stream))
  {
    && l.outbound == [] && LosesAt(Packets(stream), answers, loss, Capacity(l.maxPacketSize))
    && (LosesSomewhere(Packets(stream), answers, loss, Capacity(l.maxPacketSize));
        l.inbound == LossScript(Packets(stream), answers, loss))
  }

  /** A lost tail that its packet reports is reported by the whole execution.  Without statuses every
      one is. */
  lemma {:induction false} StreamLossReported(l: Link, packets: seq<seq<Byte>>, answers: seq<Answer>, loss: Loss,
                                              response: seq<Byte>)
    requires WellFormed(packets) && Interpret(packets).Some? && StatusCount(Interpret(packets).value) == 0
    requires l.outbound == [] && LosesAt(packets, answers, loss, Capacity(l.maxPacketSize)) && |answers| < |packets|
    requires l.inbound == LossScript(packets, answers, loss)
    ensures RunPackets(l, packets, response).0.Err?
    decreases |packets|
  {
    var cs := DecodePacket(packets[0]).value;
    CountsConcat(cs, Interpret(packets[1..]).value);
    if answers == [] {
      LostTailExactly(l, packets[0], loss);
      hide RunPacket, WellFormedPacket;
    } else {
      var rest := LossScript(packets[1..], answers[1..], loss);
      PacketDelivered(l, packets[0], answers[0], rest);
      hide RunPacket, WellFormedPacket, Answers, Script, Received;
      var l1 := l.(inbound := rest, sent := l.sent + [packets[0]]);
      StreamLossReported(l1, packets[1..], answers[1..], loss, response + answers[0].data);
    }
  }

  /** An answer of zeros that arrives as a whole. */
  function ZeroAnswer(cs: seq<Command>): Answer {
    WholeAnswer(Zeros(StatusCount(cs)), Zeros(DataCount(cs)))
  }

  lemma ZeroAnswerFits(cs: seq<Command>, size: nat)
    requires StatusesFirst(cs) && size >= 1
    ensures Answers(cs, ZeroAnswer(cs), size) && Received(ZeroAnswer(cs))
  {
    hide StatusCount, DataCount, StatusesFirst, Reply, Singles, Join, Cut, Answers;
    WholeAnswerFits(cs, Zeros(StatusCount(cs)), Zeros(DataCount(cs)), size);
  }

  function ZeroAnswers(packets: seq<seq<Byte>>): seq<Answer>
    requires WellFormed(packets)
  {
    if packets == [] then [] else [ZeroAnswer(DecodePacket(packets[0]).value)] + ZeroAnswers(packets[1..])
  }

  lemma {:induction false} ZeroAnswersFit(packets: seq<seq<Byte>>, size: nat)
    requires WellFormed(packets) && size >= 1
    ensures AllAnswer(packets, ZeroAnswers(packets), size) && NoneNacked(ZeroAnswers(packets))
  {
    if packets != [] {
      ZeroAnswerFits(DecodePacket(packets[0]).value, size);
      ZeroAnswersFit(packets[1..], size);
      NackedHere(ZeroAnswers(packets));
    }
  }

  ghost predicate Passes(packets: seq<seq<Byte>>, answers: seq<Answer>, loss: Loss, size: int)
    requires WellFormed(packets) && |answers| < |packets|
  {
    && LosesAt(packets, answers, loss, Capacity(size))
    && forall l: Link, response |
         l.outbound == [] && l.maxPacketSize == size && l.inbound == LossScript(packets, answers, loss) ::
         RunPackets(l, packets, response).0.Ok?
  }

  lemma PassesHere(packets: seq<seq<Byte>>, size: int) returns (loss: Loss)
    requires WellFormed(packets) && packets != [] && StatusCount(DecodePacket(packets[0]).value) > 0
    ensures Passes(packets, [], loss, size)
  {
    var cs, rest := DecodePacket(packets[0]).value, packets[1..];
    ZeroAnswersFit(rest, Capacity(size));
    var after := [Fault(TimedOut)] + Scripts(rest, ZeroAnswers(rest));
    loss := ZeroLoss(cs, after);
    LengthsOfPacket(packets[0]);
    ZeroLossPasses(cs, after, Capacity(size));
    hide RunPacket, Loses, ZeroLoss, Answers;
    forall l: Link, response | l.outbound == [] && l.maxPacketSize == size && l.inbound == LossScript(packets, [], loss)
      ensures RunPackets(l, packets, response).0.Ok?
    {
      LostTailExactly(l, packets[0], loss);
      assert Rest(after) == Scripts(rest, ZeroAnswers(rest));
      var (r, l1) := RunPacket(l, packets[0]);
      StreamDelivered(l1, rest, ZeroAnswers(rest), response + r.value);
    }
  }

  lemma PassesLater(packets: seq<seq<Byte>>, more: seq<Answer>, loss: Loss, size: int)
    requires WellFormed(packets) && packets != [] && |more| < |packets| - 1
    requires Passes(packets[1..], more, loss, size)
    ensures Passes(packets, [ZeroAnswer(DecodePacket(packets[0]).value)] + more, loss, size)
  {
    hide RunPackets, RunPacket, Answers, ZeroAnswer, Received, LossScript, Script, PacketShape, Loses;
    var cs, rest := DecodePacket(packets[0]).value, packets[1..];
    var answers := [ZeroAnswer(cs)] + more;
    LengthsOfPacket(packets[0]);
    ZeroAnswerFits(cs, Capacity(size));
    assert answers[0] == ZeroAnswer(cs) && answers[1..] == more;
    forall l: Link, response | l.outbound == [] && l.maxPacketSize == size && l.inbound == LossScript(packets, answers, loss)
      ensures RunPackets(l, packets, response).0.Ok?
    {
      StepOver(l, packets, answers, loss, response);
      var next := l.(inbound := LossScript(rest, more, loss), sent := l.sent + [packets[0]]);
      assert RunPackets(next, rest, response + answers[0].data).0.Ok?;
    }
  }

  /** The packets before the loss are delivered. */
  lemma StepOver(l: Link, packets: seq<seq<Byte>>, answers: seq<Answer>, loss: Loss, response: seq<Byte>)
    requires WellFormed(packets) && answers != [] && |answers| < |packets| && l.outbound == []
    requires Answers(DecodePacket(packets[0]).value, answers[0], Capacity(l.maxPacketSize)) && Received(answers[0])
    requires l.inbound == LossScript(packets, answers, loss)
    ensures RunPackets(l, packets, response) ==
      RunPackets(l.(inbound := LossScript(packets[1..], answers[1..], loss), sent := l.sent + [packets[0]]),
                 packets[1..], response + answers[0].data)
  {
    hide RunPacket, Answers, Received, Script, PacketShape, DecodePacket;
    PacketDelivered(l, packets[0], answers[0], LossScript(packets[1..], answers[1..], loss));
  }

  /** With a status somewhere there is a loss that the execution does not notice. */
  lemma {:induction false} StreamLossPasses(packets: seq<seq<Byte>>, size: int)
    returns (answers: seq<Answer>, loss: Loss)
    requires WellFormed(packets) && Interpret(packets).Some? && StatusCount(Interpret(packets).value) > 0
    ensures |answers| < |packets| && Passes(packets, answers, loss, size)
    decreases |packets|
  {
    CountsConcat(DecodePacket(packets[0]).value, Interpret(packets[1..]).value);
    hide Passes;
    if StatusCount(DecodePacket(packets[0]).value) > 0 {
      loss := PassesHere(packets, size);
      answers := [];
    } else {
      var more;
      more, loss := StreamLossPasses(packets[1..], size);
      PassesLater(packets, more, loss, size);
      answers := [ZeroAnswer(DecodePacket(packets[0]).value)] + more;
    }
  }

  ghost predicate EveryLossReported(stream: seq<Byte>, speed: int, readLength: nat)
    requires WellFormed(Packets(stream))
  {
    forall l: Link, answers: seq<Answer>, loss: Loss | StreamTailLost(l, stream, answers, loss) ::
      Run(l, speed, stream, readLength).0.Err?
  }

  lemma StreamLosses(stream: seq<Byte>, speed: int, address: Byte, data: seq<Byte>, readLength: nat)
    requires Compiled(stream, address, data, readLength) && SpeedCommand(speed).Some?
    ensures EveryLossReported(stream, speed, readLength) <==> StreamStatuses(stream) == 0
  {
    hide Packets, Interpret, RunPackets, LosesAt, LossScript, Trace, Run;
    forall l: Link, answers: seq<Answer>, loss: Loss | StreamTailLost(l, stream, answers, loss)
      ensures StreamStatuses(stream) == 0 ==> Run(l, speed, stream, readLength).0.Err?
    {
      LosesSomewhere(Packets(stream), answers, loss, Capacity(l.maxPacketSize));
      LengthCheckNeverFails(l, speed, stream, address, data, readLength);
      if StreamStatuses(stream) == 0 {
        StreamLossReported(Send(l, [MARK, SpeedCommand(speed).value, END]).1, Packets(stream), answers, loss, []);
      }
    }
    if StreamStatuses(stream) > 0 {
      var answers, loss := StreamLossPasses(Packets(stream), MAX_PACKET);
      var l := Link(LossScript(Packets(stream), answers, loss), [], [], MAX_PACKET);
      LengthCheckNeverFails(l, speed, stream, address, data, readLength);
      assert RunPackets(Send(l, [MARK, SpeedCommand(speed).value, END]).1, Packets(stream), []).0.Ok?;
      assert StreamTailLost(l, stream, answers, loss);
    }
  }

  /** What a caller can tell before the call: every lost tail of every answer is reported if and only
      if the request is a pure read of more than 32 bytes. */
  lemma LossesReported(stream: seq<Byte>, speed: int, address: Byte, data: seq<Byte>, readLength: nat)
    requires Encodable(address, data, readLength) && SpeedCommand(speed).Some?
    requires Emitted(stream, address, data, readLength)
    ensures EveryLossReported(stream, speed, readLength) <==> data == [] && readLength > 32
  {
    hide EveryLossReported, StreamStatuses, StreamMarks, RequestMarks, Packets, AnyMixed;
    StreamLosses(stream, speed, address, data, readLength);
  }
}
