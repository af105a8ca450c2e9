/** The transaction encoder: a one-packet form for short requests and a segmenting builder for
    the rest.  Both are proved to perform the requested bus transaction under `Wire.Decode`,
    which knows nothing about them. */
module Encoder {
  import opened Outcome
  import opened Wire
  import opened Layout

  predicate Fits(cs: seq<Command>) {
    ValidCommands(cs) && |EncodeAll(cs)| <= MAX_PACKET - 2
  }

  /** A packet whose commands do not fill it: END and zero padding up to 32 bytes. */
  function Padded(cs: seq<Command>): (p: seq<Byte>)
    requires Fits(cs)
    ensures |p| == MAX_PACKET
  {
    [MARK] + EncodeAll(cs) + [END] + Zeros(MAX_PACKET - 2 - |EncodeAll(cs)|)
  }

  predicate StartsAddressedSoFar(cs: seq<Command>) {
    |cs| <= 1 || ((cs[0].Start? ==> IsWrite(cs[1])) && StartsAddressedSoFar(cs[1..]))
  }

  /** The shape of a packet still being filled: as `PacketShape`, except that a START may be
      its last command. */
  predicate OpenShape(cs: seq<Command>) {
    && StatusesFirst(cs)
    && StartsAddressedSoFar(cs)
    && DataCount(cs) <= 32
  }

  predicate EndsInStart(cs: seq<Command>) {
    cs != [] && cs[|cs| - 1].Start?
  }

  // ---------------------------------------------------------------- lemmas about packets

  lemma DecodePadded(cs: seq<Command>)
    requires Fits(cs)
    ensures DecodePacket(Padded(cs)) == Some(cs)
  {
    hide EncodeAll, ValidCommands, Zeros;
    var rest := [END] + Zeros(MAX_PACKET - 2 - |EncodeAll(cs)|);
    DecodeEncode(cs, rest);
    assert Padded(cs)[1..] == EncodeAll(cs) + rest;
    assert cs + [] == cs;
  }

  lemma DecodeLast(cs: seq<Command>)
    requires ValidCommands(cs)
    ensures DecodePacket([MARK] + EncodeAll(cs) + [END]) == Some(cs)
  {
    DecodeEncode(cs, [END]);
    assert ([MARK] + EncodeAll(cs) + [END])[1..] == EncodeAll(cs) + [END];
    assert cs + [] == cs;
  }

  /** Packets of a stream of whole packets followed by anything. */
  lemma {:induction false} PacketsConcat(a: seq<Byte>, b: seq<Byte>)
    requires |a| % MAX_PACKET == 0 && b != []
    ensures Packets(a + b) == Packets(a) + Packets(b)
    decreases |a|
  {
    if a == [] {
      assert a + b == b;
      assert [] + Packets(b) == Packets(b);
    } else {
      assert (a + b)[..MAX_PACKET] == a[..MAX_PACKET] && (a + b)[MAX_PACKET..] == a[MAX_PACKET..] + b;
      PacketsConcat(a[MAX_PACKET..], b);
      if |a| == MAX_PACKET {
        assert a[..MAX_PACKET] == a && a[MAX_PACKET..] == [];
      }
      Assoc([a[..MAX_PACKET]], Packets(a[MAX_PACKET..]), Packets(b));
    }
  }

  lemma {:induction false} InterpretSnoc(packets: seq<seq<Byte>>, p: seq<Byte>)
    requires WellFormed(packets) && Interpret(packets).Some? && WellFormedPacket(p)
    ensures WellFormed(packets + [p])
    ensures Interpret(packets + [p]) == Some(Interpret(packets).value + DecodePacket(p).value)
    ensures AnyMixed(packets + [p]) <==> AnyMixed(packets) || Mixed(DecodePacket(p).value)
  {
    var cs := DecodePacket(p).value;
    if packets == [] {
      assert packets + [p] == [p];
      assert !AnyMixed([p][1..]);
      assert Interpret([p][1..]) == Some([]);
      assert cs + [] == cs == [] + cs;
    } else {
      Cons(packets, [p]);
      InterpretSnoc(packets[1..], p);
      Assoc(DecodePacket(packets[0]).value, Interpret(packets[1..]).value, cs);
    }
  }

  /** Sending one more packet after a stream of whole packets. */
  lemma PacketAppended(stream: seq<Byte>, p: seq<Byte>, cs: seq<Command>)
    requires |stream| % MAX_PACKET == 0 && WellFormed(Packets(stream)) && Interpret(Packets(stream)).Some?
    requires p != [] && |p| <= MAX_PACKET && DecodePacket(p) == Some(cs) && PacketShape(cs)
    ensures WellFormed(Packets(stream + p))
    ensures Interpret(Packets(stream + p)) == Some(Interpret(Packets(stream)).value + cs)
    ensures AnyMixed(Packets(stream + p)) <==> AnyMixed(Packets(stream)) || Mixed(cs)
  {
    PacketsConcat(stream, p);
    assert Packets(p) == [p];
    InterpretSnoc(Packets(stream), p);
  }

  lemma Snoc(cs: seq<Command>, c: Command)
    ensures Trace(cs + [c]) == Trace(cs) + Events(c)
    ensures StatusCount(cs + [c]) == StatusCount(cs) + Statuses(c)
    ensures DataCount(cs + [c]) == DataCount(cs) + DataBytes(c)
    ensures MarksOf(cs + [c]) == MarksOf(cs) + Marks(c)
    ensures ValidCommands(cs) && ValidCommand(c) ==>
      ValidCommands(cs + [c]) && EncodeAll(cs + [c]) == EncodeAll(cs) + Encode(c)
  {
    TraceConcat(cs, [c]);
    CountsConcat(cs, [c]);
    MarksConcat(cs, [c]);
    assert MarksOf([c]) == Marks(c) + [] == Marks(c);
    assert Trace([c]) == Events(c) + [] == Events(c);
    assert StatusCount([c]) == Statuses(c);
    assert DataCount([c]) == DataBytes(c);
    if ValidCommands(cs) && ValidCommand(c) {
      EncodeAllConcat(cs, [c]);
      assert EncodeAll([c]) == Encode(c) + [] == Encode(c);
    }
  }

  lemma {:induction false} SendsSnoc(data: seq<Byte>, b: Byte)
    ensures Sends(data + [b]) == Sends(data) + [Sent(b)]
  {
    if data == [] {
      assert data + [b] == [b];
    } else {
      Cons(data, [b]);
      SendsSnoc(data[1..], b);
      Assoc([Sent(data[0])], Sends(data[1..]), [Sent(b)]);
    }
  }

  lemma {:induction false} AcksAdd(a: nat, b: nat)
    ensures Acks(a) + Acks(b) == Acks(a + b)
  {
    if a > 0 {
      AcksAdd(a - 1, b);
      Assoc([ReceivedAck], Acks(a - 1), Acks(b));
    }
  }

  /** After k acknowledged bytes of a read the tail of the remaining ones is still to come. */
  lemma TailAfter(before: seq<Event>, n: nat, k: nat)
    requires k < n
    ensures before + ReadTail(n) == before + Acks(k) + ReadTail(n - k)
    ensures k == 0 ==> Acks(k) == []
  {
    AcksAdd(k, n - k - 1);
    Assoc(Acks(k), Acks(n - k - 1), [ReceivedNack]);
    Assoc(before, Acks(k), ReadTail(n - k));
  }

  lemma LastOfTail()
    ensures ReadTail(1) == [ReceivedNack]
  {
    assert Acks(0) == [];
  }

  lemma {:induction false} StatusesFirstSnoc(cs: seq<Command>, c: Command)
    requires StatusesFirst(cs) && (c.WriteOne? ==> DataCount(cs) == 0)
    ensures StatusesFirst(cs + [c])
  {
    if cs == [] {
      assert cs + [c] == [c];
    } else {
      StatusesFirstSnoc(cs[1..], c);
      Snoc(cs[1..], c);
      Cons(cs, [c]);
    }
  }

  lemma {:induction false} StartsSnoc(cs: seq<Command>, c: Command)
    requires StartsAddressedSoFar(cs) && (EndsInStart(cs) ==> IsWrite(c))
    ensures StartsAddressedSoFar(cs + [c])
    ensures !c.Start? ==> StartsAddressed(cs + [c])
  {
    if cs == [] {
      assert cs + [c] == [c];
      assert StartsAddressed([]);
    } else {
      assert EndsInStart(cs[1..]) ==> EndsInStart(cs);
      StartsSnoc(cs[1..], c);
      Cons(cs, [c]);
      assert |cs| > 1 ==> (cs + [c])[1] == cs[1];
    }
  }

  /** A packet that does not end in START is finished as far as its shape goes. */
  lemma {:induction false} ClosedShape(cs: seq<Command>)
    requires StartsAddressedSoFar(cs) && !EndsInStart(cs)
    ensures StartsAddressed(cs)
  {
    if |cs| > 1 {
      ClosedShape(cs[1..]);
    } else if |cs| == 1 {
      assert StartsAddressed(cs[1..]);
    }
  }

  /** When a command other than START may follow what is in the packet being filled. */
  predicate Follows(c: Command, pendingData: nat, dangling: bool) {
    && !c.Start?
    && (if IsWrite(c) then pendingData == 0 else !dangling)
    && pendingData + DataBytes(c) <= 32
  }

  lemma FollowKeepsShape(cs: seq<Command>, c: Command)
    requires OpenShape(cs) && ValidCommands(cs)
    requires if c.Start? then !EndsInStart(cs) else Follows(c, DataCount(cs), EndsInStart(cs))
    ensures OpenShape(cs + [c]) && EndsInStart(cs + [c]) == c.Start?
    ensures DataCount(cs + [c]) == DataCount(cs) + DataBytes(c)
  {
    Snoc(cs, c);
    StatusesFirstSnoc(cs, c);
    StartsSnoc(cs, c);
  }

  // ---------------------------------------------------------------- the segmenting builder

  /** The stream is a sequence of full packets that hold these commands; `mixed` says whether one of
      them holds statuses and data. */
  ghost predicate Sealed(stream: seq<Byte>, done: seq<Command>, mixed: bool) {
    && |stream| % MAX_PACKET == 0
    && WellFormed(Packets(stream))
    && Interpret(Packets(stream)) == Some(done)
    && AnyMixed(Packets(stream)) == mixed
  }

  ghost predicate Filling(segment: seq<Byte>, open: seq<Command>) {
    Fits(open) && OpenShape(open) && segment == [MARK] + EncodeAll(open)
  }

  /** Everything the builder maintains, as a statement about values. */
  ghost predicate Represents(result: seq<Byte>, segment: seq<Byte>,
                             done: seq<Command>, open: seq<Command>,
                             performed: seq<Event>, reported: seq<bool>, mixed: bool)
  {
    && Sealed(result, done, mixed) && Filling(segment, open)
    && performed == Trace(done + open) && reported == MarksOf(done + open)
  }

  /** About the packet being filled: its statuses and data bytes, and whether it ends in a START that
      still lacks its address byte. */
  datatype Pending = Pending(statuses: nat, data: nat, dangling: bool) {
    predicate Mixed() {
      statuses > 0 && data > 0
    }

    /** A read that begins now shares the packet with statuses, if its first command fits. */
    predicate SharedBy(size: nat) {
      statuses > 0 && size + 2 <= MAX_PACKET
    }
  }

  const NOTHING := Pending(0, 0, false)

  function PendingOf(open: seq<Command>): Pending {
    Pending(StatusCount(open), DataCount(open), EndsInStart(open))
  }

  function Extended(pending: Pending, c: Command): Pending {
    Pending(pending.statuses + Statuses(c), pending.data + DataBytes(c), c.Start?)
  }

  ghost predicate Builds(result: seq<Byte>, segment: seq<Byte>,
                         done: seq<Command>, open: seq<Command>,
                         performed: seq<Event>, reported: seq<bool>, mixed: bool, pending: Pending)
  {
    Represents(result, segment, done, open, performed, reported, mixed) && pending == PendingOf(open)
  }

  lemma SealKeeps(result: seq<Byte>, segment: seq<Byte>, done: seq<Command>, open: seq<Command>,
                  performed: seq<Event>, reported: seq<bool>, mixed: bool)
    requires Represents(result, segment, done, open, performed, reported, mixed)
    requires !EndsInStart(open)
    ensures Fits(open)
    ensures Represents(result + Padded(open), [MARK], done + open, [], performed, reported, mixed || Mixed(open))
  {
    NothingFilled();
    hide Filling, Trace, MarksOf, Mixed;
    SealedAfter(result, segment, done, open, mixed);
    assert done + open + [] == done + open;
  }

  lemma NothingFilled()
    ensures Filling([MARK], []) && PendingOf([]) == NOTHING && Trace([]) == [] && MarksOf([]) == []
  {
    assert [MARK] + EncodeAll([]) == [MARK];
  }

  lemma SealedAfter(result: seq<Byte>, segment: seq<Byte>, done: seq<Command>, open: seq<Command>, mixed: bool)
    requires Sealed(result, done, mixed) && Filling(segment, open) && !EndsInStart(open)
    ensures Fits(open) && Sealed(result + Padded(open), done + open, mixed || Mixed(open))
  {
    hide Decode, DecodePacket, Padded, EncodeAll, Packets, Interpret, WellFormed, Mixed, AnyMixed;
    ClosedShape(open);
    DecodePadded(open);
    PacketAppended(result, Padded(open), open);
  }

  lemma WhatIsFilled(result: seq<Byte>, segment: seq<Byte>, done: seq<Command>, open: seq<Command>,
                     performed: seq<Event>, reported: seq<bool>, mixed: bool)
    requires Represents(result, segment, done, open, performed, reported, mixed)
    ensures Fits(open) && segment == [MARK] + EncodeAll(open)
    ensures Padded(open) == segment + [END] + Zeros(MAX_PACKET - |segment| - 1)
  {
  }

  lemma AppendKeeps(result: seq<Byte>, segment: seq<Byte>, done: seq<Command>, open: seq<Command>,
                    performed: seq<Event>, reported: seq<bool>, mixed: bool, c: Command)
    requires Represents(result, segment, done, open, performed, reported, mixed)
    requires ValidCommand(c) && |segment| + |Encode(c)| + 1 <= MAX_PACKET
    requires if c.Start? then !EndsInStart(open) else Follows(c, DataCount(open), EndsInStart(open))
    ensures Represents(result, segment + Encode(c), done, open + [c],
                       performed + Events(c), reported + Marks(c), mixed)
    ensures PendingOf(open + [c]) == Extended(PendingOf(open), c)
  {
    hide Packets, Interpret, WellFormed, AnyMixed, StatusesFirst, StartsAddressedSoFar, Events, Marks, Encode, EncodeAll;
    hide Trace, MarksOf, StatusCount, DataCount, ValidCommands;
    Snoc(open, c);
    Snoc(done + open, c);
    FollowKeepsShape(open, c);
    Assoc(done, open, [c]);
    Assoc([MARK], EncodeAll(open), Encode(c));
  }

  lemma BuildsMore(result: seq<Byte>, segment: seq<Byte>, done: seq<Command>, open: seq<Command>,
                   performed: seq<Event>, reported: seq<bool>, mixed: bool, pending: Pending, c: Command)
    requires Builds(result, segment, done, open, performed, reported, mixed, pending)
    requires ValidCommand(c) && |segment| + |Encode(c)| + 1 <= MAX_PACKET
    requires if c.Start? then !pending.dangling else Follows(c, pending.data, pending.dangling)
    ensures Builds(result, segment + Encode(c), done, open + [c],
                   performed + Events(c), reported + Marks(c), mixed, Extended(pending, c))
  {
    hide Represents, Extended, Events, Marks, Encode, ValidCommand, Follows, StatusCount, DataCount;
    AppendKeeps(result, segment, done, open, performed, reported, mixed, c);
  }

  lemma LastPacket(result: seq<Byte>, segment: seq<Byte>, done: seq<Command>, open: seq<Command>,
                   performed: seq<Event>, reported: seq<bool>, mixed: bool)
    requires Represents(result, segment, done, open, performed, reported, mixed)
    requires !EndsInStart(open) && |segment| + 2 <= MAX_PACKET
    ensures var stream := result + (segment + [I2C_STOP, END]);
      && WellFormed(Packets(stream))
      && Interpret(Packets(stream)).Some?
      && Trace(Interpret(Packets(stream)).value) == performed + [StopCondition]
      && MarksOf(Interpret(Packets(stream)).value) == reported
      && (AnyMixed(Packets(stream)) <==> mixed || Mixed(open))
  {
    hide Packets, WellFormed, AnyMixed, Decode, DecodePacket, Encode, Events, Marks, EncodeAll, Interpret, Trace, MarksOf;
    hide StatusesFirst, StartsAddressedSoFar, StartsAddressed, StatusCount, DataCount, Statuses, DataBytes;
    var last := open + [Stop];
    StopCommand(reported);
    Snoc(open, Stop);
    Snoc(done + open, Stop);
    FollowKeepsShape(open, Stop);
    ClosedShape(last);
    DecodeLast(last);
    assert segment + [I2C_STOP, END] == [MARK] + EncodeAll(last) + [END];
    PacketAppended(result, [MARK] + EncodeAll(last) + [END], last);
    Assoc(done, open, [Stop]);
  }

  class SegmentedStream {
    var result: seq<Byte>
    var segment: seq<Byte>

    /** The commands of the packets in `result`, and those in `segment`. */
    ghost var done: seq<Command>
    ghost var open: seq<Command>

    /** The bus events all of them perform, in order, and which of the bytes they send statuses report
        on. */
    ghost var performed: seq<Event>
    ghost var reported: seq<bool>

    /** Whether a packet in `result` holds statuses and data, and what the packet being filled holds. */
    ghost var mixed: bool
    ghost var pending: Pending

    ghost predicate Valid()
      reads this
    {
      Builds(result, segment, done, open, performed, reported, mixed, pending)
    }

    /** The bytes so far, to be compared with the layout. */
    ghost function At(): Packed
      reads this
    {
      Packed(result, segment)
    }

    constructor ()
      ensures Valid() && performed == [] && reported == [] && !mixed
      ensures pending == NOTHING && result == [] && segment == [MARK]
    {
      NothingFilled();
      result, segment := [], [MARK];
      done, open, performed, reported, mixed, pending := [], [], [], [], false, NOTHING;
    }

    method FinishIntermediate()
      requires Valid() && !pending.dangling
      modifies this
      ensures Valid() && performed == old(performed) && reported == old(reported)
      ensures mixed == (old(mixed) || old(pending).Mixed())
      ensures pending == NOTHING && segment == [MARK]
      ensures |result| == |old(result)| + MAX_PACKET && At() == Seal(old(At()))
    {
      hide Represents, Trace, MarksOf, Padded, EncodeAll, Seal;
      WhatIsFilled(result, segment, done, open, performed, reported, mixed);
      segment := segment + [END];
      ghost var filled := segment;
      while |segment| < MAX_PACKET
        invariant |filled| <= |segment| <= MAX_PACKET
        invariant segment == filled + Zeros(|segment| - |filled|)
        modifies this`segment
      {
        segment := segment + [0];
      }
      assert segment == Padded(open);
      SealedBytes(old(At()), segment);
      SealKeeps(result, old(segment), done, open, performed, reported, mixed);
      result := result + segment;
      segment := [MARK];
      mixed := mixed || Mixed(open);
      done, open, pending := done + open, [], NOTHING;
    }

    /** Appends a command, to a new packet exactly if it and the END would not fit into this one. */
    method Command(bytes: seq<Byte>, ghost c: Command)
      requires Valid() && ValidCommand(c) && bytes == Encode(c) && |bytes| <= 2
      requires Follows(c, pending.data, pending.dangling) && DataBytes(c) <= 32
      requires pending.dangling ==> |segment| + |bytes| + 1 <= MAX_PACKET
      modifies this
      ensures Valid()
      ensures performed == old(performed) + Events(c) && reported == old(reported) + Marks(c)
      ensures |old(segment)| + |bytes| + 1 <= MAX_PACKET ==>
        && result == old(result) && segment == old(segment) + bytes
        && mixed == old(mixed) && pending == Extended(old(pending), c)
      ensures |old(segment)| + |bytes| + 1 > MAX_PACKET ==>
        && |result| == |old(result)| + MAX_PACKET && segment == [MARK] + bytes
        && mixed == (old(mixed) || old(pending).Mixed()) && pending == Extended(NOTHING, c)
      ensures At() == Place(old(At()), Together(bytes))
    {
      hide Builds, Seal;
      if |segment| + |bytes| + 1 > MAX_PACKET {
        FinishIntermediate();
      }
      Append(bytes, c);
    }

    /** Both ways a command enters the packet being filled. */
    method Append(bytes: seq<Byte>, ghost c: Command)
      requires Valid() && ValidCommand(c) && bytes == Encode(c)
      requires |segment| + |bytes| + 1 <= MAX_PACKET
      requires if c.Start? then !pending.dangling else Follows(c, pending.data, pending.dangling)
      modifies this
      ensures Valid() && result == old(result) && segment == old(segment) + bytes
      ensures mixed == old(mixed) && pending == Extended(old(pending), c)
      ensures performed == old(performed) + Events(c) && reported == old(reported) + Marks(c)
    {
      hide Builds, Extended, Events, Marks, Encode, ValidCommand, Follows;
      BuildsMore(result, segment, done, open, performed, reported, mixed, pending, c);
      segment := segment + bytes;
      open, pending := open + [c], Extended(pending, c);
      performed, reported := performed + Events(c), reported + Marks(c);
    }

    /** Addresses a target and sends it the data.  The address byte reports a status only when
        data follows it. */
    method StartAndWrite(address: Byte, data: seq<Byte>)
      requires Valid() && !pending.dangling && pending.data == 0
      modifies this
      ensures Valid() && !pending.dangling && pending.data == 0 && mixed == old(mixed)
      ensures performed == old(performed) + ([StartCondition, Sent(address)] + Sends(data))
      ensures reported == old(reported) + MarksOfWrite(data)
      ensures old(segment) == [MARK] && data != [] ==> |segment| == WriteEnd(|data|) && pending.statuses > 0
      ensures data == [] ==>
        if |old(segment)| + 3 + 1 > MAX_PACKET then |segment| == 4 && pending == NOTHING
        else |segment| == |old(segment)| + 3 && pending == old(pending)
      ensures At() == PlaceAll(old(At()), StartUnits(address, data))
    {
      hide Builds, WriteEnd, Sends, Events, Marks, Encode, MarksOfWrite, Extended, Seal, PlaceAll, StartUnits, DataUnits;
      if |segment| + 3 + 1 > MAX_PACKET {
        FinishIntermediate();
      }
      StartCommand(reported, pending);
      Append([I2C_START], Start);
      StartThenSend(old(performed), address, data);
      StartPlaced(old(At()), address, data);
      Write(address, data);
    }

    method Write(address: Byte, data: seq<Byte>)
      requires Valid() && pending.data == 0 && |segment| + 2 + 1 <= MAX_PACKET
      modifies this
      ensures Valid() && !pending.dangling && pending.data == 0 && mixed == old(mixed)
      ensures performed == old(performed) + ([Sent(address)] + Sends(data))
      ensures reported == old(reported) + MarksOfWrite(data)
      ensures |old(segment)| == 2 && data != [] ==> |segment| == WriteEnd(|data|) && pending.statuses > 0
      ensures data == [] ==> |segment| == |old(segment)| + 2 && pending == old(pending).(dangling := false)
      ensures At() == AfterAddress(old(At()), address, data)
    {
      hide Builds, WriteEnd, Seal, PlaceAll, DataUnits, Place;
      if data == [] {
        Command([WRITE + 1, address], WriteBlock([address]));
        assert Sends([address]) == [Sent(address)] + Sends(data);
        NoDataUnits(At());
        return;
      }
      WriteEndAt(0);
      Command([WRITE, address], WriteOne(address));
      ghost var before, start := performed, At();
      Assoc(old(performed), [Sent(address)], Sends(data));
      assert data[0..] == data;
      for i := 0 to |data|
        invariant Valid() && !pending.dangling && pending.data == 0 && pending.statuses > 0 && mixed == old(mixed)
        invariant performed == before + Sends(data[..i])
        invariant reported == old(reported) + Repeat(true, i + 1)
        invariant |old(segment)| == 2 ==> |segment| == WriteEnd(i)
        invariant PlaceAll(At(), DataUnits(data[i..])) == PlaceAll(start, DataUnits(data))
      {
        NextDataUnit(At(), data, i);
        Command([WRITE, data[i]], WriteOne(data[i]));
        WriteEndAt(i + 1);
        WriteEndAt(i);
        Assoc(before, Sends(data[..i]), [Sent(data[i])]);
        SendsSnoc(data[..i], data[i]);
        assert data[..i + 1] == data[..i] + [data[i]];
        RepeatSnoc(old(reported), i + 1);
      }
      assert data[..|data|] == data && data[|data|..] == [];
      NoDataUnits(At());
    }

    /** Reads with an ACK after every byte but the last. */
    method Read(length: nat)
      requires Valid() && !pending.dangling && pending.data == 0 && length > 0
      modifies this
      ensures Valid() && !pending.dangling
      ensures performed == old(performed) + ReadTail(length) && reported == old(reported)
      ensures mixed || pending.Mixed() <==> old(mixed) || old(pending).SharedBy(|old(segment)|)
      ensures At() == PlaceAll(old(At()), ReadUnits(length))
    {
      hide Builds, Acks, ReadTail, Seal, Place, PlaceAll, ReadUnits;
      ghost var target := performed + ReadTail(length);
      var remaining := length;
      while remaining > 32
        invariant 1 <= remaining <= length
        invariant Valid() && !pending.dangling && pending.data == 0
        invariant performed + ReadTail(remaining) == target && reported == old(reported)
        invariant mixed || pending.SharedBy(|segment|) <==> old(mixed) || old(pending).SharedBy(|old(segment)|)
        invariant PlaceAll(At(), ReadUnits(remaining)) == PlaceAll(old(At()), ReadUnits(length))
      {
        NextReadUnits(At(), remaining);
        TailAfter(performed, remaining, 32);
        ReadAckedBytes(32);
        FinishIntermediate();
        remaining := remaining - 32;
      }
      TailAfter(performed, remaining, remaining - 1);
      NextReadUnits(At(), remaining);
      if remaining > 1 {
        ReadAckedBytes(remaining - 1);
      } else {
        assert performed + ReadTail(1) == target;
      }
      ReadLastByte();
    }

    method ReadAckedBytes(count: nat)
      requires Valid() && !pending.dangling && pending.data == 0 && 1 <= count <= 32
      modifies this
      ensures Valid() && !pending.dangling && pending.data == count
      ensures performed == old(performed) + Acks(count) && reported == old(reported)
      ensures At() == Place(old(At()), Together([0xc0 + count]))
      ensures mixed || pending.Mixed() <==> old(mixed) || old(pending).SharedBy(|old(segment)|)
    {
      hide Builds, Acks, Events, Marks, Encode, ValidCommand, Extended, Place;
      ReadCommand(count, reported);
      ReadExtends(pending, ReadAcked(count));
      ReadExtends(NOTHING, ReadAcked(count));
      Command([READ + count], ReadAcked(count));
    }

    method ReadLastByte()
      requires Valid() && !pending.dangling && pending.data <= 31
      modifies this
      ensures Valid() && !pending.dangling
      ensures performed == old(performed) + ReadTail(1) && reported == old(reported)
      ensures At() == Place(old(At()), Together([0xc0]))
      ensures mixed || pending.Mixed() <==>
        old(mixed) || if old(pending).data > 0 then old(pending).Mixed() else old(pending).SharedBy(|old(segment)|)
    {
      hide Builds, Sends, ReadTail, Events, Marks, Encode, Acks, Extended, Place;
      LastReadCommand(reported);
      ReadExtends(pending, ReadLast);
      ReadExtends(NOTHING, ReadLast);
      Command([READ], ReadLast);
    }

    /** Closes the stream with its only STOP. */
    method Finish() returns (stream: seq<Byte>)
      requires Valid() && !pending.dangling
      modifies this
      ensures WellFormed(Packets(stream))
      ensures Interpret(Packets(stream)).Some?
      ensures Trace(Interpret(Packets(stream)).value) == old(performed) + [StopCondition]
      ensures MarksOf(Interpret(Packets(stream)).value) == old(reported)
      ensures AnyMixed(Packets(stream)) <==> old(mixed) || old(pending).Mixed()
      ensures var p := Place(old(At()), Together([0x75])); stream == p.full + (p.current + [0x00])
    {
      hide Represents, Trace, MarksOf, Packets, Interpret, WellFormed, AnyMixed, Seal;
      if |segment| + 2 > MAX_PACKET {
        FinishIntermediate();
      }
      LastPacket(result, segment, done, open, performed, reported, mixed);
      assert segment + [I2C_STOP, END] == segment + [0x75] + [0x00];
      segment := segment + [I2C_STOP, END];
      result := result + segment;
      stream := result;
    }
  }

  lemma SealedBytes(p: Packed, filled: seq<Byte>)
    requires |p.current| < MAX_PACKET && filled == p.current + [END] + Zeros(MAX_PACKET - |p.current| - 1)
    ensures Seal(p) == Packed(p.full + filled, [MARK])
  {
    assert filled == p.current + Zeros(32 - |p.current|);
  }

  /** START, the address and data, once the packet has room for START and address. */
  lemma StartPlaced(p: Packed, address: Byte, data: seq<Byte>)
    ensures var q := if |p.current| + 3 + 1 > MAX_PACKET then Seal(p) else p;
      AfterAddress(q.(current := q.current + [I2C_START]), address, data) == PlaceAll(p, StartUnits(address, data))
  {
    var q := if |p.current| + 3 + 1 > MAX_PACKET then Seal(p) else p;
    hide Seal;
    var code: Byte := if data == [] then 0x81 else 0x80;
    assert q.current + [I2C_START] + [code, address] == q.current + [0x74, code, address];
    SealLeavesRoom(p);
    PlaceOne(p, Together([0x74, code, address]));
    PlaceAllConcat(p, [Together([0x74, code, address])], DataUnits(data));
    NoDataUnits(Place(p, Together([0x74, code, address])));
  }

  lemma SealLeavesRoom(p: Packed)
    ensures |Seal(p).current| == 1
  {
  }

  /** The address and the data after START. */
  function AfterAddress(p: Packed, address: Byte, data: seq<Byte>): Packed {
    PlaceAll(Place(p, Together([if data == [] then 0x81 else 0x80, address])), DataUnits(data))
  }

  lemma NoDataUnits(p: Packed)
    ensures PlaceAll(p, DataUnits([])) == p
  {
  }

  lemma NextDataUnit(p: Packed, data: seq<Byte>, i: nat)
    requires i < |data|
    ensures PlaceAll(p, DataUnits(data[i..])) ==
      PlaceAll(Place(p, Together([0x80, data[i]])), DataUnits(data[i + 1..]))
  {
    hide Place;
    assert data[i..][0] == data[i] && data[i..][1..] == data[i + 1..];
    Cons([Together([0x80, data[i]])], DataUnits(data[i + 1..]));
  }

  lemma NextReadUnits(p: Packed, n: nat)
    requires n > 0
    ensures n > 32 ==>
      PlaceAll(p, ReadUnits(n)) == PlaceAll(Seal(Place(p, Together([0xe0]))), ReadUnits(n - 32))
    ensures 1 < n <= 32 ==>
      PlaceAll(p, ReadUnits(n)) == Place(Place(p, Together([0xc0 + n - 1])), Together([0xc0]))
    ensures n == 1 ==> PlaceAll(p, ReadUnits(n)) == Place(p, Together([0xc0]))
  {
    if n > 32 {
      PlaceAllConcat(p, [Together([0xe0]), Break], ReadUnits(n - 32));
      PlaceTwo(p, Together([0xe0]), Break);
    } else if n > 1 {
      PlaceTwo(p, Together([0xc0 + n - 1]), Together([0xc0]));
    } else {
      PlaceOne(p, Together([0xc0]));
    }
  }

  lemma PlaceTwo(p: Packed, u: Unit, v: Unit)
    ensures PlaceAll(p, [u, v]) == Place(Place(p, u), v)
  {
    assert [u, v] == [u] + [v];
    PlaceAllConcat(p, [u], [v]);
    PlaceOne(p, u);
    PlaceOne(Place(p, u), v);
  }

  lemma StartCommand(reported: seq<bool>, pending: Pending)
    ensures Extended(pending, Start) == pending.(dangling := true)
    ensures ValidCommand(Start) && Encode(Start) == [I2C_START] && Events(Start) == [StartCondition]
    ensures Marks(Start) == [] && reported + [] == reported
  {
  }

  lemma StartThenSend(performed: seq<Event>, address: Byte, data: seq<Byte>)
    ensures performed + [StartCondition] + ([Sent(address)] + Sends(data)) ==
      performed + ([StartCondition, Sent(address)] + Sends(data))
  {
    hide Sends;
    Assoc(performed, [StartCondition], [Sent(address)] + Sends(data));
    Assoc([StartCondition], [Sent(address)], Sends(data));
    assert [StartCondition] + [Sent(address)] == [StartCondition, Sent(address)];
  }

  lemma ReadCommand(count: nat, reported: seq<bool>)
    requires 1 <= count <= 32
    ensures var c := ReadAcked(count);
      && ValidCommand(c) && Encode(c) == [READ + count] && Events(c) == Acks(count) && Marks(c) == [] && reported + [] == reported
  {
  }

  lemma ReadExtends(pending: Pending, c: Command)
    requires c.ReadAcked? || c.ReadLast?
    ensures var p := Extended(pending, c);
      p.statuses == pending.statuses && p.data == pending.data + DataBytes(c) && !p.dangling
  {
  }

  lemma LastReadCommand(reported: seq<bool>)
    ensures Encode(ReadLast) == [READ] && Events(ReadLast) == ReadTail(1) && Marks(ReadLast) == [] && reported + [] == reported
  {
    LastOfTail();
  }

  lemma StopCommand(reported: seq<bool>)
    ensures Encode(Stop) == [I2C_STOP] && Events(Stop) == [StopCondition] && Marks(Stop) == [] && reported + [] == reported
    ensures Statuses(Stop) == 0 && DataBytes(Stop) == 0
  {
  }

  /** Which of the bytes sent by `startAndWrite` statuses report on: all of them, or not the address
      alone. */
  function MarksOfWrite(data: seq<Byte>): seq<bool> {
    if data == [] then [false] else Repeat(true, |data| + 1)
  }

  lemma RepeatSnoc(before: seq<bool>, n: nat)
    ensures before + Repeat(true, n) + [true] == before + Repeat(true, n + 1)
  {
    RepeatOneMore(n);
    Assoc(before, Repeat(true, n), [true]);
  }

  lemma {:induction false} RepeatOneMore(n: nat)
    ensures Repeat(true, n) + [true] == Repeat(true, n + 1)
  {
    if n > 0 {
      RepeatOneMore(n - 1);
      Assoc([true], Repeat(true, n - 1), [true]);
    }
  }

  /** How full the packet being filled is after a write that began the stream: 13 data bytes fit into
      the first packet, 15 into each further one. */
  function WriteEnd(n: nat): nat {
    if n <= 13 then 4 + 2 * n else 3 + 2 * ((n - 14) % 15)
  }

  lemma WriteEndAt(n: nat)
    ensures 3 <= WriteEnd(n) <= 31 && WriteEnd(0) == 4
    ensures WriteEnd(n + 1) == if WriteEnd(n) + 3 > MAX_PACKET then 3 else WriteEnd(n) + 2
  {
    if n >= 14 {
      assert (n + 1 - 14) % 15 == if (n - 14) % 15 == 14 then 0 else (n - 14) % 15 + 1;
    }
  }

  // ---------------------------------------------------------------- whole transactions

  function AddressByte(address: Byte, read: bool): (b: Byte)
    ensures address <= 0x7f ==> b == address * 2 + if read then 1 else 0
  {
    (address * 2) % 256 + if read then 1 else 0
  }

  /** Requests the encoder accepts. */
  predicate Encodable(address: Byte, data: seq<Byte>, readLength: int) {
    && address <= 0x7f
    && 0 <= readLength <= 65535 && |data| <= 65535
    && (data != [] || readLength > 0)
  }

  /** Size of the one-packet form, which is used exactly when it fits. */
  function ShortLength(data: seq<Byte>, readLength: nat): nat {
    3 + (if data == [] then 0 else 3 + 2 * |data|) +
    (if readLength == 0 then 0 else if readLength == 1 then 4 else 5)
  }

  predicate ShortForm(data: seq<Byte>, readLength: nat) {
    readLength <= 32 && ShortLength(data, readLength) <= MAX_PACKET
  }

  /** In numbers: at most 32 bytes to read, and at most 13 to write alone, 11 with a read of one byte, and
      10 with a longer one. */
  lemma ShortFormInNumbers(data: seq<Byte>, readLength: nat)
    ensures ShortForm(data, readLength) <==>
      readLength <= 32 && |data| <= if readLength == 0 then 13 else if readLength == 1 then 11 else 10
  {
  }

  /** Status bytes a stream makes the bridge report: one for every written byte and its address,
      and in the short form also one for the read address. */
  function WriteStatuses(data: seq<Byte>): nat {
    if data == [] then 0 else |data| + 1
  }

  function ShortFormExtra(data: seq<Byte>, readLength: nat): nat {
    if readLength > 0 && ShortForm(data, readLength) then 1 else 0
  }

  function StreamStatuses(stream: seq<Byte>): nat
    requires Interpret(Packets(stream)).Some?
  {
    StatusCount(Interpret(Packets(stream)).value)
  }

  /** Which bytes of a request statuses report on: every byte sent, in order, but for the read address
      in the general form. */
  function RequestMarks(data: seq<Byte>, readLength: nat): seq<bool> {
    Repeat(true, WriteStatuses(data)) + ReadMarks(readLength, ShortForm(data, readLength))
  }

  function ReadMarks(readLength: nat, reports: bool): seq<bool> {
    if readLength == 0 then [] else [reports]
  }

  /** Requests for which some packet reports statuses and returns data: reads in the one-packet form,
      and reads after a write that leaves room for the beginning of the read in its last packet. */
  predicate MixesPacket(data: seq<Byte>, readLength: nat) {
    readLength > 0 && (ShortForm(data, readLength) || (data != [] && WriteEnd(|data|) <= 27))
  }

  function StreamMarks(stream: seq<Byte>): seq<bool>
    requires Interpret(Packets(stream)).Some?
  {
    MarksOf(Interpret(Packets(stream)).value)
  }

  /** The number of statuses follows from which bytes they report on. */
  lemma StatusesOfMarks(stream: seq<Byte>, writes: nat, readLength: nat, reports: bool)
    requires Interpret(Packets(stream)).Some?
    requires StreamMarks(stream) == Repeat(true, writes) + ReadMarks(readLength, reports)
    ensures StreamStatuses(stream) == writes + if readLength > 0 && reports then 1 else 0
  {
    StatusesAreMarks(Interpret(Packets(stream)).value);
    CountRepeat(true, writes);
    CountConcat(Repeat(true, writes), ReadMarks(readLength, reports));
    assert [reports][1..] == [];
  }

  /** A buffer being filled without regard to its size. */
  ghost predicate Written(bytes: seq<Byte>, cs: seq<Command>, performed: seq<Event>, reported: seq<bool>,
                          data: nat)
  {
    && ValidCommands(cs) && OpenShape(cs) && !EndsInStart(cs)
    && bytes == [MARK] + EncodeAll(cs)
    && performed == Trace(cs) && reported == MarksOf(cs) && data == DataCount(cs)
  }

  lemma WrittenAfter(bytes: seq<Byte>, cs: seq<Command>, performed: seq<Event>, reported: seq<bool>,
                     data: nat, c: Command)
    requires Written(bytes, cs, performed, reported, data)
    requires ValidCommand(c) && Follows(c, data, false)
    ensures Written(bytes + Encode(c), cs + [c], performed + Events(c), reported + Marks(c),
                    data + DataBytes(c))
  {
    Snoc(cs, c);
    FollowKeepsShape(cs, c);
    Assoc([MARK], EncodeAll(cs), Encode(c));
  }

  lemma WrittenAfterStart(bytes: seq<Byte>, cs: seq<Command>, performed: seq<Event>, reported: seq<bool>,
                          address: Byte)
    requires Written(bytes, cs, performed, reported, 0)
    ensures Written(bytes + ([I2C_START] + [WRITE, address]), cs + [Start] + [WriteOne(address)],
                    performed + ([StartCondition] + [Sent(address)]), reported + [true], 0)
  {
    var mid := cs + [Start];
    Snoc(cs, Start);
    FollowKeepsShape(cs, Start);
    Snoc(mid, WriteOne(address));
    FollowKeepsShape(mid, WriteOne(address));
    Assoc([MARK], EncodeAll(cs), [I2C_START]);
    Assoc([MARK], EncodeAll(cs) + [I2C_START], [WRITE, address]);
    Assoc(bytes, [I2C_START], [WRITE, address]);
    Assoc(performed, [StartCondition], [Sent(address)]);
  }

  lemma ShortPacketCompiled(bytes: seq<Byte>, cs: seq<Command>, performed: seq<Event>, reported: seq<bool>,
                            data: nat)
    requires Written(bytes, cs, performed, reported, data)
    requires |bytes + [I2C_STOP, END]| <= MAX_PACKET
    ensures var p := bytes + [I2C_STOP, END];
      && WellFormed(Packets(p)) && Interpret(Packets(p)).Some?
      && Trace(Interpret(Packets(p)).value) == performed + [StopCondition]
      && MarksOf(Interpret(Packets(p)).value) == reported
      && (AnyMixed(Packets(p)) <==> Count(reported) > 0 && data > 0)
  {
    hide Packets, WellFormed, AnyMixed, Decode, DecodePacket, Encode, Events, Marks, EncodeAll, Interpret, Trace, MarksOf;
    hide StatusesFirst, StartsAddressedSoFar, StartsAddressed, Statuses, DataBytes, Count, StatusCount, DataCount;
    var last := cs + [Stop];
    StopCommand(reported);
    StatusesAreMarks(cs);
    Snoc(cs, Stop);
    FollowKeepsShape(cs, Stop);
    ClosedShape(last);
    DecodeLast(last);
    assert bytes + [I2C_STOP, END] == [MARK] + EncodeAll(last) + [END];
    OnePacket(bytes + [I2C_STOP, END], last);
  }

  lemma OnePacket(p: seq<Byte>, cs: seq<Command>)
    requires p != [] && |p| <= MAX_PACKET && DecodePacket(p) == Some(cs) && PacketShape(cs)
    ensures WellFormed(Packets(p)) && Interpret(Packets(p)) == Some(cs) && (AnyMixed(Packets(p)) <==> Mixed(cs))
  {
    PacketAppended([], p, cs);
    assert [] + p == p && [] + cs == cs;
  }

  /** The part of the one-packet form that addresses a target and sends it bytes, each in a
      command of its own. */
  method WriteEach(buffer: seq<Byte>, address: Byte, data: seq<Byte>,
                   ghost cs: seq<Command>, ghost performed: seq<Event>, ghost reported: seq<bool>)
    returns (bytes: seq<Byte>, ghost cs': seq<Command>)
    requires Written(buffer, cs, performed, reported, 0)
    ensures |bytes| == |buffer| + 3 + 2 * |data|
    ensures bytes == buffer + ([0x74, 0x80, address] + EachWritten(data))
    ensures Written(bytes, cs', performed + ([StartCondition, Sent(address)] + Sends(data)),
                    reported + Repeat(true, |data| + 1), 0)
  {
    hide Written;
    WrittenAfterStart(buffer, cs, performed, reported, address);
    bytes := buffer + ([I2C_START] + [WRITE, address]);
    cs' := cs + [Start] + [WriteOne(address)];
    ghost var head := performed + ([StartCondition] + [Sent(address)]);
    assert head + Sends(data[..0]) == head;
    assert [true] == Repeat(true, 1);
    assert data[0..] == data;
    Assoc(buffer, [0x74, 0x80, address], EachWritten(data));
    for i := 0 to |data|
      invariant |bytes| == |buffer| + 3 + 2 * i
      invariant bytes + EachWritten(data[i..]) == buffer + ([0x74, 0x80, address] + EachWritten(data))
      invariant Written(bytes, cs', head + Sends(data[..i]), reported + Repeat(true, i + 1), 0)
    {
      WrittenAfter(bytes, cs', head + Sends(data[..i]), reported + Repeat(true, i + 1), 0, WriteOne(data[i]));
      RepeatSnoc(reported, i + 1);
      Assoc(head, Sends(data[..i]), [Sent(data[i])]);
      SendsSnoc(data[..i], data[i]);
      assert data[..i + 1] == data[..i] + [data[i]];
      NextWritten(bytes, data, i);
      bytes := bytes + [WRITE, data[i]];
      cs' := cs' + [WriteOne(data[i])];
    }
    assert data[..|data|] == data && data[|data|..] == [] && bytes + [] == bytes;
    Assoc(performed, [StartCondition] + [Sent(address)], Sends(data));
    assert [StartCondition] + [Sent(address)] == [StartCondition, Sent(address)];
  }

  /** The part of the one-packet form that addresses a target and reads from it. */
  method ReadEach(buffer: seq<Byte>, address: Byte, readLength: nat,
                  ghost cs: seq<Command>, ghost performed: seq<Event>, ghost reported: seq<bool>)
    returns (bytes: seq<Byte>, ghost cs': seq<Command>)
    requires address <= 0x7f && 0 < readLength <= 32
    requires Written(buffer, cs, performed, reported, 0)
    ensures |bytes| == |buffer| + if readLength == 1 then 4 else 5
    ensures bytes == buffer + ShortRead(address, readLength)
    ensures Written(bytes, cs', performed + ReadTrace(address, readLength), reported + [true], readLength)
  {
    hide Written;
    bytes, cs' := WriteEach(buffer, AddressByte(address, true), [], cs, performed, reported);
    ghost var head := [StartCondition, Sent(address * 2 + 1)];
    assert head + Sends([]) == head;
    ghost var asked := performed + head;
    ghost var marks := reported + [true];
    assert Repeat(true, 1) == [true];
    assert marks + [] == marks;
    if readLength > 1 {
      WrittenAfter(bytes, cs', asked, marks, 0, ReadAcked(readLength - 1));
      bytes := bytes + [READ + readLength - 1];
      cs' := cs' + [ReadAcked(readLength - 1)];
    }
    assert asked + Acks(0) == asked;
    WrittenAfter(bytes, cs', asked + Acks(readLength - 1), marks, readLength - 1, ReadLast);
    bytes := bytes + [READ];
    cs' := cs' + [ReadLast];
    Assoc(asked, Acks(readLength - 1), [ReceivedNack]);
    Assoc(performed, head, Acks(readLength - 1) + [ReceivedNack]);
  }

  /** What the encoder emits for a request: these bytes, which are a compiled stream, in which statuses
      report on exactly these bytes and which mixes statuses and data in a packet exactly then. */
  predicate Emitted(stream: seq<Byte>, address: Byte, data: seq<Byte>, readLength: nat) {
    && Compiled(stream, address, data, readLength)
    && stream == (if ShortForm(data, readLength) then ShortBytes(address, data, readLength)
                  else GeneralBytes(address, data, readLength))
    && StreamMarks(stream) == RequestMarks(data, readLength)
    && StreamStatuses(stream) == WriteStatuses(data) + ShortFormExtra(data, readLength)
    && (AnyMixed(Packets(stream)) <==> MixesPacket(data, readLength))
  }

  /** The one-packet form.  Every written byte is its own command, so each reports a status. */
  method EncodeShort(address: Byte, data: seq<Byte>, readLength: nat) returns (r: Option<seq<Byte>>)
    requires address <= 0x7f
    ensures r.Some? <==> ShortForm(data, readLength)
    ensures r.Some? ==> r.value == ShortBytes(address, data, readLength)
    ensures r.Some? ==> |Packets(r.value)| == 1 && Compiled(r.value, address, data, readLength)
    ensures r.Some? ==> StreamMarks(r.value) == Repeat(true, WriteStatuses(data)) + ReadMarks(readLength, true)
    ensures r.Some? ==>
      StreamStatuses(r.value) == WriteStatuses(data) + if readLength > 0 then 1 else 0
    ensures r.Some? ==> (AnyMixed(Packets(r.value)) <==> readLength > 0)
  {
    if readLength > 32 || |data| + 1 > 0x3f {
      return None;
    }
    ghost var cs: seq<Command>, performed: seq<Event>, reported: seq<bool> := [], [], [];
    var bytes: seq<Byte> := [MARK];
    assert Written(bytes, cs, performed, reported, 0) by { NothingFilled(); }
    hide Written, Compiled, Packets, Interpret, Trace, StatusCount, MarksOf, Count, AnyMixed;
    NoMarks(data);
    if data != [] {
      bytes, cs := WriteEach(bytes, AddressByte(address, false), data, cs, performed, reported);
      performed := WriteTrace(address, data);
      reported := Repeat(true, WriteStatuses(data));
    }
    ghost var asked := 0;
    if readLength > 0 {
      bytes, cs := ReadEach(bytes, address, readLength, cs, performed, reported);
      asked := readLength;
    }
    SomeReported(reported, readLength);
    performed, reported := performed + ReadTrace(address, readLength), reported + ReadMarks(readLength, true);
    ghost var body := bytes;
    bytes := bytes + [I2C_STOP, END];
    if |bytes| > MAX_PACKET {
      return None;
    }
    ShortPacketCompiled(body, cs, performed, reported, asked);
    PacketsOfShort(bytes);
    CompiledAs(bytes, address, data, readLength);
    StatusesOfMarks(bytes, WriteStatuses(data), readLength, true);
    return Some(bytes);
  }

  lemma NoMarks(data: seq<Byte>)
    ensures [] + Repeat(true, WriteStatuses(data)) == Repeat(true, WriteStatuses(data))
    ensures data == [] ==> Repeat(true, WriteStatuses(data)) == []
  {
  }

  lemma SomeReported(reported: seq<bool>, readLength: nat)
    ensures reported + ReadMarks(0, true) == reported
    ensures readLength > 0 ==>
      ReadMarks(readLength, true) == [true] && Count(reported + ReadMarks(readLength, true)) > 0
  {
    CountConcat(reported, [true]);
  }

  lemma PacketsOfShort(p: seq<Byte>)
    requires p != [] && |p| <= MAX_PACKET
    ensures |Packets(p)| == 1
  {
  }

  lemma ReadAfter(wrote: seq<Event>, address: Byte, readLength: nat)
    requires address <= 0x7f && readLength > 0
    ensures wrote + ([StartCondition, Sent(address * 2 + 1)] + Sends([])) + ReadTail(readLength) ==
      wrote + ReadTrace(address, readLength)
  {
    var head := [StartCondition, Sent(address * 2 + 1)];
    assert head + Sends([]) == head;
    hide ReadTail, Sends;
    Assoc(wrote, head, ReadTail(readLength));
  }

  /** The general form: any number of packets. */
  method EncodeSegmented(address: Byte, data: seq<Byte>, readLength: nat) returns (stream: seq<Byte>)
    requires address <= 0x7f
    ensures Compiled(stream, address, data, readLength) && stream == GeneralBytes(address, data, readLength)
    ensures StreamMarks(stream) == Repeat(true, WriteStatuses(data)) + ReadMarks(readLength, false)
    ensures StreamStatuses(stream) == WriteStatuses(data)
    ensures AnyMixed(Packets(stream)) <==> data != [] && readLength > 0 && WriteEnd(|data|) <= 27
  {
    var builder := new SegmentedStream();
    hide Builds, Packets, Interpret, Trace, StatusCount, WellFormed, ReadTail, Sends, ReadTrace, Compiled, WriteEnd;
    hide MarksOf, AnyMixed, PlaceAll, Place, StartUnits, ReadUnits;
    PlacedInOrder(address, data, readLength);
    FirstWrite(address, data);
    NoMarks(data);
    if data != [] {
      builder.StartAndWrite(AddressByte(address, false), data);
    }
    ghost var wrote, marks := builder.performed, builder.reported;
    assert wrote == WriteTrace(address, data) && marks == Repeat(true, WriteStatuses(data));
    if readLength > 0 {
      builder.StartAndWrite(AddressByte(address, true), []);
      ReadAfter(wrote, address, readLength);
      builder.Read(readLength);
    } else {
      NoRead(wrote, address);
      assert marks + [] == marks;
    }
    stream := builder.Finish();
    assert Compiled(stream, address, data, readLength) by { CompiledAs(stream, address, data, readLength); }
    StatusesOfMarks(stream, WriteStatuses(data), readLength, false);
  }

  /** The units of the write, the read and the STOP are placed one after the other. */
  lemma PlacedInOrder(address: Byte, data: seq<Byte>, readLength: nat)
    requires address <= 0x7f
    ensures var w := if data == [] then NOTHING_PACKED else PlaceAll(NOTHING_PACKED, StartUnits(address * 2, data));
      var r := if readLength == 0 then w
               else PlaceAll(PlaceAll(w, StartUnits(address * 2 + 1, [])), ReadUnits(readLength));
      var p := Place(r, Together([0x75]));
      GeneralBytes(address, data, readLength) == p.full + (p.current + [0x00])
  {
    hide Place, StartUnits, ReadUnits;
    var write := if data == [] then [] else StartUnits(address * 2, data);
    var read := if readLength == 0 then [] else StartUnits(address * 2 + 1, []) + ReadUnits(readLength);
    PlaceAllConcat(NOTHING_PACKED, write + read, [Together([0x75])]);
    PlaceAllConcat(NOTHING_PACKED, write, read);
    var w := PlaceAll(NOTHING_PACKED, write);
    if readLength > 0 {
      PlaceAllConcat(w, StartUnits(address * 2 + 1, []), ReadUnits(readLength));
    }
    PlaceOne(PlaceAll(w, read), Together([0x75]));
  }

  lemma NextWritten(bytes: seq<Byte>, data: seq<Byte>, i: nat)
    requires i < |data|
    ensures bytes + EachWritten(data[i..]) == bytes + [0x80, data[i]] + EachWritten(data[i + 1..])
  {
    assert data[i..][0] == data[i] && data[i..][1..] == data[i + 1..];
    Assoc(bytes, [0x80, data[i]], EachWritten(data[i + 1..]));
  }

  lemma FirstWrite(address: Byte, data: seq<Byte>)
    requires address <= 0x7f
    ensures WriteTrace(address, data) ==
      if data == [] then [] else [] + ([StartCondition, Sent(AddressByte(address, false))] + Sends(data))
  {
  }

  lemma NoRead(wrote: seq<Event>, address: Byte)
    requires address <= 0x7f
    ensures wrote + ReadTrace(address, 0) == wrote
  {
  }

  lemma CompiledAs(stream: seq<Byte>, address: Byte, data: seq<Byte>, readLength: nat)
    requires address <= 0x7f
    requires WellFormed(Packets(stream)) && Interpret(Packets(stream)).Some?
    requires Trace(Interpret(Packets(stream)).value) ==
      WriteTrace(address, data) + ReadTrace(address, readLength) + [StopCondition]
    ensures Compiled(stream, address, data, readLength)
  {
  }

  method EncodeTransaction(address: Byte, data: seq<Byte>, readLength: int) returns (r: Result<seq<Byte>>)
    ensures r.Ok? <==> Encodable(address, data, readLength)
    ensures r.Err? ==> r.kind == InvalidRequest
    ensures r.Ok? ==> Emitted(r.value, address, data, readLength)
  {
    hide Compiled, AnyMixed, Packets, Interpret, GeneralBytes, ShortBytes;
    if address > 0x7f {
      return Err(InvalidRequest);
    }
    if readLength < 0 {
      return Err(InvalidRequest);
    }
    if data == [] && readLength == 0 {
      return Err(InvalidRequest);
    }
    if |data| > MAX_TRANSACTION || readLength > MAX_TRANSACTION {
      return Err(InvalidRequest);
    }
    var short := EncodeShort(address, data, readLength);
    if short.Some? {
      return Ok(short.value);
    }
    var stream := EncodeSegmented(address, data, readLength);
    return Ok(stream);
  }

  /** Wherever the short form applies it performs the same bus transaction as the general form,
      although it reports one more status byte when it reads. */
  method ShortRefinesGeneral(address: Byte, data: seq<Byte>, readLength: nat)
    returns (short: Option<seq<Byte>>, general: seq<Byte>)
    requires address <= 0x7f
    ensures short.Some? ==>
      && Interpret(Packets(short.value)).Some? && Interpret(Packets(general)).Some?
      && Trace(Interpret(Packets(short.value)).value) == Trace(Interpret(Packets(general)).value)
      && StreamStatuses(short.value) == StreamStatuses(general) + if readLength > 0 then 1 else 0
  {
    short := EncodeShort(address, data, readLength);
    general := EncodeSegmented(address, data, readLength);
  }
}
