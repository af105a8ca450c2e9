/** When a lost tail can do harm: when an execution can succeed with data that are not what the bridge
    sent. */
module HarmfulLoss {
  import opened Outcome
  import opened Wire
  import opened Layout
  import opened Encoder
  import opened Executor
  import opened Delivery
  import opened LostTail

  /** The first packets are answered, the answer to the next one loses its tail, and after the silence
      the remaining ones are answered. */
  ghost predicate LosesOnce(packets: seq<seq<Byte>>, answers: seq<Answer>, loss: Loss, rest: seq<Answer>, size: nat)
    requires WellFormed(packets)
    decreases |packets|
  {
    && packets != []
    && if answers == [] then
         && Loses(DecodePacket(packets[0]).value, loss, size)
         && AllAnswer(packets[1..], rest, size) && Rest(loss.after) == Scripts(packets[1..], rest)
       else
         && Answers(DecodePacket(packets[0]).value, answers[0], size) && Received(answers[0])
         && LosesOnce(packets[1..], answers[1..], loss, rest, size)
  }

  lemma {:induction false} LosesSomewhereOnce(packets: seq<seq<Byte>>, answers: seq<Answer>, loss: Loss,
                                              rest: seq<Answer>, size: nat)
    requires WellFormed(packets) && LosesOnce(packets, answers, loss, rest, size)
    ensures |answers| < |packets|
    decreases |packets|
  {
    if answers != [] {
      LosesSomewhereOnce(packets[1..], answers[1..], loss, rest, size);
    }
  }

  /** The data the bridge sent. */
  function TrueData(answers: seq<Answer>, loss: Loss, rest: seq<Answer>): seq<Byte> {
    AllData(answers) + loss.data + AllData(rest)
  }

  lemma TrueDataStep(answers: seq<Answer>, loss: Loss, rest: seq<Answer>, response: seq<Byte>)
    requires answers != []
    ensures response + answers[0].data + TrueData(answers[1..], loss, rest) == response + TrueData(answers, loss, rest)
  {
    var first, later := answers[0].data, AllData(answers[1..]);
    Assoc(first, later, loss.data);
    Assoc(first, later + loss.data, AllData(rest));
    Assoc(response, first, TrueData(answers[1..], loss, rest));
  }

  lemma TrueDataHere(loss: Loss, rest: seq<Answer>)
    ensures TrueData([], loss, rest) == loss.data + AllData(rest)
  {
    assert [] + loss.data == loss.data;
  }

  /** Running the packets after one that lost its tail. */
  lemma AfterLoss(l: Link, packets: seq<seq<Byte>>, loss: Loss, rest: seq<Answer>, response: seq<Byte>)
    requires WellFormed(packets) && l.outbound == [] && LosesOnce(packets, [], loss, rest, Capacity(l.maxPacketSize))
    requires l.inbound == Chunks(loss.chunks) + loss.after
    ensures RunPackets(l, packets, response).0 ==
      if Verdict(loss).Err? then Err(Verdict(loss).kind)
      else if NoneNacked(rest) then Ok(response + Verdict(loss).value + AllData(rest))
      else Err(Nack)
  {
    hide RunPacket, Loses, Verdict, AllAnswer, Scripts, NoneNacked, PacketShape, DecodePacket;
    LostTailExactly(l, packets[0], loss);
    if Verdict(loss).Ok? {
      StreamDelivered(RunPacket(l, packets[0]).1, packets[1..], rest, response + Verdict(loss).value);
    }
  }

  // ---------------------------------------------------------------- without mixed packets

  lemma UnmixedLoss(cs: seq<Command>, loss: Loss, size: nat)
    requires Loses(cs, loss, size) && !Mixed(cs)
    ensures Verdict(loss).Ok? ==> Verdict(loss).value == loss.data
  {
    hide Reply, StatusCount, DataCount, Join, Cut;
  }

  /** If no packet mixes statuses and data, a loss leads to an error or does not matter. */
  lemma {:induction false} HarmlessLoss(l: Link, packets: seq<seq<Byte>>, answers: seq<Answer>, loss: Loss,
                                        rest: seq<Answer>, response: seq<Byte>)
    requires WellFormed(packets) && !AnyMixed(packets) && l.outbound == []
    requires LosesOnce(packets, answers, loss, rest, Capacity(l.maxPacketSize)) && |answers| < |packets|
    requires l.inbound == LossScript(packets, answers, loss)
    ensures var r := RunPackets(l, packets, response).0; r.Ok? ==> r.value == response + TrueData(answers, loss, rest)
    decreases |packets|
  {
    hide RunPackets, Loses, Verdict, Answers, Received, TrueData, PacketShape, Mixed;
    if answers == [] {
      AfterLoss(l, packets, loss, rest, response);
      UnmixedLoss(DecodePacket(packets[0]).value, loss, Capacity(l.maxPacketSize));
      TrueDataHere(loss, rest);
      Assoc(response, loss.data, AllData(rest));
    } else {
      LosesSomewhereOnce(packets[1..], answers[1..], loss, rest, Capacity(l.maxPacketSize));
      StepOver(l, packets, answers, loss, response);
      var next := l.(inbound := LossScript(packets[1..], answers[1..], loss), sent := l.sent + [packets[0]]);
      HarmlessLoss(next, packets[1..], answers[1..], loss, rest, response + answers[0].data);
      TrueDataStep(answers, loss, rest, response);
    }
  }

  // ---------------------------------------------------------------- with a mixed packet

  /** One byte lost from an answer of zeros whose last byte is a one: what is taken for data is all
      zeros. */
  function OneLost(cs: seq<Command>, after: seq<Transfer>): Loss
    requires Mixed(cs)
  {
    Loss(Zeros(StatusCount(cs)), Zeros(DataCount(cs) - 1) + [1], 1,
         Singles(Zeros(StatusCount(cs) + DataCount(cs) - 1)), after)
  }

  lemma OneLostShifts(cs: seq<Command>, after: seq<Transfer>, size: nat)
    requires StatusesFirst(cs) && Mixed(cs) && size >= 1 && Silent(after)
    ensures Loses(cs, OneLost(cs, after), size)
    ensures Verdict(OneLost(cs, after)) == Ok(Zeros(DataCount(cs)))
  {
    hide StatusCount, DataCount, StatusesFirst, Reply, Singles, Join, Cut;
    var loss := OneLost(cs, after);
    StatusesThenData(cs, loss.statuses, loss.data);
    SinglesFit(Zeros(StatusCount(cs) + DataCount(cs) - 1), size);
    assert (loss.statuses + loss.data)[..StatusCount(cs) + DataCount(cs) - 1] ==
      Zeros(StatusCount(cs) + DataCount(cs) - 1);
    assert Shifted(loss) == Zeros(DataCount(cs));
  }

  /** Whatever was returned before, the execution succeeds with data the bridge did not send. */
  ghost predicate Misleads(packets: seq<seq<Byte>>, answers: seq<Answer>, loss: Loss, rest: seq<Answer>, size: int)
    requires WellFormed(packets) && |answers| < |packets|
  {
    && LosesOnce(packets, answers, loss, rest, Capacity(size))
    && forall l: Link, response |
         l.outbound == [] && l.maxPacketSize == size && l.inbound == LossScript(packets, answers, loss) ::
         Misled(RunPackets(l, packets, response).0, response + TrueData(answers, loss, rest))
  }

  predicate Misled(r: Result<seq<Byte>>, truth: seq<Byte>) {
    r.Ok? && r.value != truth
  }

  lemma MisleadsHere(packets: seq<seq<Byte>>, size: int) returns (loss: Loss, rest: seq<Answer>)
    requires WellFormed(packets) && packets != [] && Mixed(DecodePacket(packets[0]).value)
    ensures Misleads(packets, [], loss, rest, size)
  {
    var cs := DecodePacket(packets[0]).value;
    rest := ZeroAnswers(packets[1..]);
    ZeroAnswersFit(packets[1..], Capacity(size));
    var after := [Fault(TimedOut)] + Scripts(packets[1..], rest);
    loss := OneLost(cs, after);
    LengthsOfPacket(packets[0]);
    OneLostShifts(cs, after, Capacity(size));
    assert Rest(after) == Scripts(packets[1..], rest);
    hide RunPackets, Loses, AllAnswer, NoneNacked, Scripts, Verdict, Misled, TrueData, AllData;
    forall l: Link, response | l.outbound == [] && l.maxPacketSize == size && l.inbound == LossScript(packets, [], loss)
      ensures Misled(RunPackets(l, packets, response).0, response + TrueData([], loss, rest))
    {
      AfterLoss(l, packets, loss, rest, response);
      TrueDataHere(loss, rest);
      ZerosAreNot(response, Zeros(DataCount(cs)), loss.data, AllData(rest));
    }
  }

  lemma ZerosAreNot(before: seq<Byte>, zeros: seq<Byte>, data: seq<Byte>, after: seq<Byte>)
    requires |zeros| == |data| > 0 && zeros[|zeros| - 1] != data[|data| - 1]
    ensures Misled(Ok(before + zeros + after), before + (data + after))
  {
    var k := |before| + |data| - 1;
    assert (before + zeros + after)[k] == zeros[|zeros| - 1] && (before + (data + after))[k] == data[|data| - 1];
  }

  lemma MisleadsLater(packets: seq<seq<Byte>>, more: seq<Answer>, loss: Loss, rest: seq<Answer>, size: int)
    requires WellFormed(packets) && packets != [] && |more| < |packets| - 1
    requires Misleads(packets[1..], more, loss, rest, size)
    ensures Misleads(packets, [ZeroAnswer(DecodePacket(packets[0]).value)] + more, loss, rest, size)
  {
    hide RunPackets, Answers, ZeroAnswer, Received, LossScript, Loses, PacketShape, TrueData, AllAnswer, Misled;
    var cs := DecodePacket(packets[0]).value;
    var answers := [ZeroAnswer(cs)] + more;
    LengthsOfPacket(packets[0]);
    ZeroAnswerFits(cs, Capacity(size));
    assert answers[0] == ZeroAnswer(cs) && answers[1..] == more;
    forall l: Link, response | l.outbound == [] && l.maxPacketSize == size && l.inbound == LossScript(packets, answers, loss)
      ensures Misled(RunPackets(l, packets, response).0, response + TrueData(answers, loss, rest))
    {
      StepOver(l, packets, answers, loss, response);
      var next := l.(inbound := LossScript(packets[1..], more, loss), sent := l.sent + [packets[0]]);
      var told := response + answers[0].data;
      assert Misled(RunPackets(next, packets[1..], told).0, told + TrueData(more, loss, rest));
      TrueDataStep(answers, loss, rest, response);
    }
  }

  lemma {:induction false} MixedMisleads(packets: seq<seq<Byte>>, size: int)
    returns (answers: seq<Answer>, loss: Loss, rest: seq<Answer>)
    requires WellFormed(packets) && AnyMixed(packets)
    ensures |answers| < |packets| && Misleads(packets, answers, loss, rest, size)
    decreases |packets|
  {
    hide Misleads, Mixed;
    if Mixed(DecodePacket(packets[0]).value) {
      loss, rest := MisleadsHere(packets, size);
      answers := [];
    } else {
      var more;
      more, loss, rest := MixedMisleads(packets[1..], size);
      MisleadsLater(packets, more, loss, rest, size);
      answers := [ZeroAnswer(DecodePacket(packets[0]).value)] + more;
    }
  }

  // ---------------------------------------------------------------- whole requests

  ghost predicate TailLostOnce(l: Link, stream: seq<Byte>, answers: seq<Answer>, loss: Loss, rest: seq<Answer>)
    requires WellFormed(Packets(stream))
  {
    && l.outbound == [] && LosesOnce(Packets(stream), answers, loss, rest, Capacity(l.maxPacketSize))
    && (LosesSomewhereOnce(Packets(stream), answers, loss, rest, Capacity(l.maxPacketSize));
        l.inbound == LossScript(Packets(stream), answers, loss))
  }

  /** Every lost tail leads to an error or to the data the bridge sent. */
  ghost predicate EveryLossHarmless(stream: seq<Byte>, speed: int, readLength: nat)
    requires WellFormed(Packets(stream))
  {
    forall l: Link, answers: seq<Answer>, loss: Loss, rest: seq<Answer> | TailLostOnce(l, stream, answers, loss, rest) ::
      !Misled(Run(l, speed, stream, readLength).0, TrueData(answers, loss, rest))
  }

  /** That is so if and only if no packet of the stream reports statuses and returns data. */
  lemma StreamHarm(stream: seq<Byte>, speed: int, address: Byte, data: seq<Byte>, readLength: nat)
    requires Compiled(stream, address, data, readLength) && SpeedCommand(speed).Some?
    ensures EveryLossHarmless(stream, speed, readLength) <==> !AnyMixed(Packets(stream))
  {
    hide Packets, Interpret, RunPackets, LosesOnce, LossScript, Trace, Run, AnyMixed, TrueData;
    forall l: Link, answers: seq<Answer>, loss: Loss, rest: seq<Answer> | TailLostOnce(l, stream, answers, loss, rest)
      ensures !AnyMixed(Packets(stream)) ==> !Misled(Run(l, speed, stream, readLength).0, TrueData(answers, loss, rest))
    {
      LosesSomewhereOnce(Packets(stream), answers, loss, rest, Capacity(l.maxPacketSize));
      LengthCheckNeverFails(l, speed, stream, address, data, readLength);
      if !AnyMixed(Packets(stream)) {
        HarmlessLoss(Send(l, [MARK, SpeedCommand(speed).value, END]).1, Packets(stream), answers, loss, rest, []);
        assert [] + TrueData(answers, loss, rest) == TrueData(answers, loss, rest);
      }
    }
    if AnyMixed(Packets(stream)) {
      var answers, loss, rest := MixedMisleads(Packets(stream), MAX_PACKET);
      var l := Link(LossScript(Packets(stream), answers, loss), [], [], MAX_PACKET);
      LengthCheckNeverFails(l, speed, stream, address, data, readLength);
      var l1 := Send(l, [MARK, SpeedCommand(speed).value, END]).1;
      assert Misled(RunPackets(l1, Packets(stream), []).0, [] + TrueData(answers, loss, rest));
      assert [] + TrueData(answers, loss, rest) == TrueData(answers, loss, rest);
      assert TailLostOnce(l, stream, answers, loss, rest);
    }
  }

  /** What a caller can tell before the call: a lost tail can make a request return wrong data if and only
      if it reads, and either fits into the one-packet form or writes first and leaves room for the
      beginning of the read in the last packet of the write. */
  lemma LossesHarmless(stream: seq<Byte>, speed: int, address: Byte, data: seq<Byte>, readLength: nat)
    requires Encodable(address, data, readLength) && SpeedCommand(speed).Some?
    requires Emitted(stream, address, data, readLength)
    ensures EveryLossHarmless(stream, speed, readLength) <==> !MixesPacket(data, readLength)
  {
    hide EveryLossHarmless, AnyMixed, Packets, StreamMarks, RequestMarks, MixesPacket;
    StreamHarm(stream, speed, address, data, readLength);
  }

  /** The condition in numbers: reads of at most 32 bytes alone; and reads after at most 11 bytes, or
      after 14 bytes and more whose number leaves a remainder of less than 13 when divided by 15 after
      taking off 14. */
  lemma HarmInNumbers(data: seq<Byte>, readLength: nat)
    ensures MixesPacket(data, readLength) <==>
      readLength > 0 &&
      (if data == [] then readLength <= 32
       else |data| <= 11 || (|data| >= 14 && (|data| - 14) % 15 <= 12))
  {
  }
}
