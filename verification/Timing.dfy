/** The transfer timeout and the time the bus transaction takes. */
module Timing {
  import opened Outcome
  import opened Wire
  import opened Executor
  import opened Encoder

  const SECOND := 1_000_000_000
  const MAX_INT64 := 0x7fff_ffff_ffff_ffff

  /** The dividend of the wire-time computation, in nanosecond-bits. */
  function WireDividend(writeLength: nat, readLength: nat, speed: nat): nat {
    (writeLength + readLength + 8) * 9 * SECOND + speed * 1000
  }

  function MinimumTransferTimeout(writeLength: nat, readLength: nat, speed: nat): int
    requires speed > 0
  {
    var wire := (WireDividend(writeLength, readLength, speed) - 1) / (speed * 1000);
    if SECOND >= wire + SECOND then SECOND else wire + SECOND
  }

  /** Clock periods of a bus event: nine for every byte, one for START and STOP. */
  function Clocks(e: Event): nat {
    match e
    case SpeedSet(_) => 0
    case StartCondition => 1
    case StopCondition => 1
    case _ => 9
  }

  function BusClocks(t: seq<Event>): nat {
    if t == [] then 0 else Clocks(t[0]) + BusClocks(t[1..])
  }

  /** What the bridge's speed commands select, in kHz. */
  function KiloHertz(code: Byte): nat {
    if code == 0x60 then 20 else if code == 0x61 then 100 else if code == 0x62 then 400 else 750
  }

  /** The seconds a bus trace takes, from this speed on, with its own changes of the speed. */
  function WireTime(t: seq<Event>, speed: nat): real
    requires speed > 0
  {
    if t == [] then 0.0
    else if t[0].SpeedSet? then WireTime(t[1..], KiloHertz(t[0].code))
    else Clocks(t[0]) as real / (speed * 1000) as real + WireTime(t[1..], speed)
  }

  /** The codes that select the speeds lie in 0x60 to 0x63 and grow with the speed. */
  lemma SpeedCodes(speed: int, faster: int)
    requires SpeedCommand(speed).Some? && SpeedCommand(faster).Some?
    ensures 0x60 <= SpeedCommand(speed).value <= 0x63 && KiloHertz(SpeedCommand(speed).value) == speed
    ensures speed < faster <==> SpeedCommand(speed).value < SpeedCommand(faster).value
    ensures forall s :: SpeedCommand(s).Some? <==> s in {20, 100, 400, 750}
  {
  }

  predicate KeepsSpeed(t: seq<Event>) {
    t == [] || (!t[0].SpeedSet? && KeepsSpeed(t[1..]))
  }

  lemma {:induction false} KeepsSpeedConcat(a: seq<Event>, b: seq<Event>)
    requires KeepsSpeed(a) && KeepsSpeed(b)
    ensures KeepsSpeed(a + b)
  {
    if a == [] {
      assert a + b == b;
    } else {
      Cons(a, b);
      KeepsSpeedConcat(a[1..], b);
    }
  }

  lemma {:induction false} SendsKeepSpeed(values: seq<Byte>)
    ensures KeepsSpeed(Sends(values))
  {
    if values != [] { SendsKeepSpeed(values[1..]); }
  }

  lemma {:induction false} AcksKeepSpeed(n: nat)
    ensures KeepsSpeed(Acks(n))
  {
    if n > 0 { AcksKeepSpeed(n - 1); }
  }

  lemma HeadKeepsSpeed(value: Byte, tail: seq<Event>)
    requires KeepsSpeed(tail)
    ensures KeepsSpeed([StartCondition, Sent(value)] + tail)
  {
    var head := [StartCondition, Sent(value)];
    assert head[1..] == [Sent(value)] && head[1..][1..] == [];
    KeepsSpeedConcat(head, tail);
  }

  lemma RequestKeepsSpeed(address: Byte, data: seq<Byte>, readLength: nat)
    requires address <= 0x7f
    ensures KeepsSpeed(RequestedTrace(address, data, readLength))
  {
    if data != [] {
      SendsKeepSpeed(data);
      HeadKeepsSpeed(address * 2, Sends(data));
    }
    if readLength > 0 {
      AcksKeepSpeed(readLength - 1);
      assert [ReceivedNack][1..] == [];
      KeepsSpeedConcat(Acks(readLength - 1), [ReceivedNack]);
      HeadKeepsSpeed(address * 2 + 1, ReadTail(readLength));
    }
    KeepsSpeedConcat(WriteTrace(address, data), ReadTrace(address, readLength));
    assert [StopCondition][1..] == [];
    KeepsSpeedConcat(WriteTrace(address, data) + ReadTrace(address, readLength), [StopCondition]);
  }

  lemma {:induction false} SpeedUnchanged(cs: seq<Command>)
    requires KeepsSpeed(Trace(cs))
    ensures forall i | 0 <= i < |cs| :: !cs[i].Speed?
  {
    if cs != [] {
      LaterKeepsSpeed(Events(cs[0]), Trace(cs[1..]));
      SpeedUnchanged(cs[1..]);
    }
  }

  lemma {:induction false} LaterKeepsSpeed(a: seq<Event>, b: seq<Event>)
    requires KeepsSpeed(a + b)
    ensures KeepsSpeed(b)
  {
    if a == [] {
      assert a + b == b;
    } else {
      Cons(a, b);
      LaterKeepsSpeed(a[1..], b);
    }
  }

  /** No command of a compiled stream sets the speed. */
  lemma CompiledKeepsSpeed(stream: seq<Byte>, address: Byte, data: seq<Byte>, readLength: nat)
    requires Compiled(stream, address, data, readLength)
    ensures forall i | 0 <= i < |Interpret(Packets(stream)).value| :: !Interpret(Packets(stream)).value[i].Speed?
  {
    RequestKeepsSpeed(address, data, readLength);
    SpeedUnchanged(Interpret(Packets(stream)).value);
  }

  /** At one speed the time is the clock periods over the frequency. */
  lemma {:induction false} WireTimeAt(t: seq<Event>, speed: nat)
    requires speed > 0 && KeepsSpeed(t)
    ensures WireTime(t, speed) * (speed * 1000) as real == BusClocks(t) as real
  {
    if t != [] {
      WireTimeAt(t[1..], speed);
      var hertz := (speed * 1000) as real;
      Distribute(Clocks(t[0]) as real, WireTime(t[1..], speed), hertz);
    }
  }

  lemma Distribute(a: real, b: real, c: real)
    requires c > 0.0
    ensures (a / c + b) * c == a + b * c
  {
  }

  lemma {:induction false} BusClocksConcat(a: seq<Event>, b: seq<Event>)
    ensures BusClocks(a + b) == BusClocks(a) + BusClocks(b)
  {
    if a == [] {
      assert a + b == b;
    } else {
      Cons(a, b);
      BusClocksConcat(a[1..], b);
    }
  }

  lemma {:induction false} BusClocksOfSends(values: seq<Byte>)
    ensures BusClocks(Sends(values)) == 9 * |values|
  {
    if values != [] { BusClocksOfSends(values[1..]); }
  }

  lemma {:induction false} BusClocksOfAcks(n: nat)
    ensures BusClocks(Acks(n)) == 9 * n
  {
    if n > 0 { BusClocksOfAcks(n - 1); }
  }

  lemma BusClocksOfParts(address: Byte, data: seq<Byte>, readLength: nat)
    requires address <= 0x7f
    ensures BusClocks(WriteTrace(address, data)) <= 10 + 9 * |data|
    ensures BusClocks(ReadTrace(address, readLength)) <= 10 + 9 * readLength
  {
    if data != [] {
      var head := [StartCondition, Sent(address * 2)];
      assert BusClocks(head) == 1 + BusClocks(head[1..]) && BusClocks(head[1..]) == 9 + BusClocks(head[1..][1..]);
      BusClocksConcat(head, Sends(data));
      BusClocksOfSends(data);
    }
    if readLength > 0 {
      var head := [StartCondition, Sent(address * 2 + 1)];
      assert BusClocks(head) == 1 + BusClocks(head[1..]) && BusClocks(head[1..]) == 9 + BusClocks(head[1..][1..]);
      assert BusClocks([ReceivedNack]) == 9;
      BusClocksConcat(Acks(readLength - 1), [ReceivedNack]);
      BusClocksConcat(head, ReadTail(readLength));
      BusClocksOfAcks(readLength - 1);
    }
  }

  lemma BusClocksOfRequest(address: Byte, data: seq<Byte>, readLength: nat)
    requires address <= 0x7f
    ensures BusClocks(RequestedTrace(address, data, readLength)) <= 21 + 9 * (|data| + readLength)
  {
    var w, r := WriteTrace(address, data), ReadTrace(address, readLength);
    BusClocksOfParts(address, data, readLength);
    BusClocksConcat(w, r);
    BusClocksConcat(w + r, [StopCondition]);
    assert BusClocks([StopCondition]) == 1;
  }

  lemma CeilingDivision(a: nat, speed: nat)
    requires SpeedCommand(speed).Some?
    ensures 0 <= (a + speed * 1000 - 1) / (speed * 1000) <= a + speed * 1000
    ensures (a + speed * 1000 - 1) / (speed * 1000) * (speed * 1000) >= a
    ensures ((a + speed * 1000 - 1) / (speed * 1000) - 1) * (speed * 1000) < a
  {
    if speed == 20 {
    } else if speed == 100 {
    } else if speed == 400 {
    } else {
      assert speed == 750;
    }
  }

  /** The packet that precedes every stream sets the configured speed and does nothing else. */
  lemma ConfigurationSetsSpeed(speed: int)
    requires SpeedCommand(speed).Some?
    ensures var decoded := DecodePacket([0xaa, SpeedCommand(speed).value, 0x00]);
      decoded.Some? && Trace(decoded.value) == [SpeedSet(SpeedCommand(speed).value)]
  {
    var code: Byte := SpeedCommand(speed).value;
    var p: seq<Byte> := [0xaa, code, 0x00];
    var rest: seq<Byte> := [code, 0x00];
    assert p[1..] == rest && rest[1..] == [END];
    assert Decode(rest[1..]) == Some([]);
    assert Decode(rest) == Some([Speed(code)] + []);
    assert [Speed(code)] + [] == [Speed(code)] && [Speed(code)][1..] == [];
    assert Trace([Speed(code)]) == [SpeedSet(code)] + [];
  }

  lemma TimeoutInClocks(writeLength: nat, readLength: nat, speed: nat, clocks: nat)
    requires writeLength <= 65535 && readLength <= 65535 && SpeedCommand(speed).Some?
    requires clocks <= (writeLength + readLength + 8) * 9
    ensures WireDividend(writeLength, readLength, speed) <= MAX_INT64
    ensures var timeout := MinimumTransferTimeout(writeLength, readLength, speed);
      && 1_000_000_000 <= timeout <= MAX_INT64
      && (timeout - 1_000_000_000) * (speed * 1000) >= clocks * 1_000_000_000
      && (timeout - 1_000_000_000 - 1) * (speed * 1000) < (writeLength + readLength + 8) * 9 * 1_000_000_000
  {
    var bits := (writeLength + readLength + 8) * 9;
    CeilingDivision(bits * SECOND, speed);
    assert clocks * SECOND <= bits * SECOND;
  }

  /** For every request the encoder accepts and every bus speed, the 64-bit computation does not
      overflow; whatever speed was set before, the timeout leaves the encoder's actual bus trace, after
      the setting of the speed, its time and a second more; and it is no longer than that of eight
      further bytes, up to a nanosecond. */
  lemma TimeoutCoversTheWire(stream: seq<Byte>, address: Byte, data: seq<Byte>, readLength: nat, speed: nat, before: nat)
    requires Encodable(address, data, readLength) && Compiled(stream, address, data, readLength)
    requires SpeedCommand(speed).Some? && before > 0
    ensures WireDividend(|data|, readLength, speed) <= MAX_INT64
    ensures 1_000_000_000 <= MinimumTransferTimeout(|data|, readLength, speed) <= MAX_INT64
    ensures (MinimumTransferTimeout(|data|, readLength, speed) - 1_000_000_000) as real >=
      WireTime([SpeedSet(SpeedCommand(speed).value)] + Trace(Interpret(Packets(stream)).value), before) * 1_000_000_000.0
    ensures (MinimumTransferTimeout(|data|, readLength, speed) - 1_000_000_000 - 1) * (speed * 1000) <
      (|data| + readLength + 8) * 9 * 1_000_000_000
  {
    hide BusClocks, Trace, Interpret, Packets, KiloHertz, WireTime, MinimumTransferTimeout, WireDividend, RequestedTrace;
    hide WellFormed, KeepsSpeed;
    var t := Trace(Interpret(Packets(stream)).value);
    BusClocksOfRequest(address, data, readLength);
    RequestKeepsSpeed(address, data, readLength);
    WireTimeAt(t, speed);
    AfterSetting(SpeedCommand(speed).value, t, before);
    SpeedCodes(speed, speed);
    TimeoutInClocks(|data|, readLength, speed, BusClocks(t));
    TimeFromClocks(WireTime(t, speed), BusClocks(t), MinimumTransferTimeout(|data|, readLength, speed) - 1_000_000_000, speed);
  }

  lemma AfterSetting(code: Byte, t: seq<Event>, before: nat)
    requires before > 0
    ensures WireTime([SpeedSet(code)] + t, before) == WireTime(t, KiloHertz(code))
  {
    Cons([SpeedSet(code)], t);
    assert [SpeedSet(code)][1..] + t == t;
  }

  lemma TimeFromClocks(time: real, clocks: nat, timeout: int, speed: nat)
    requires SpeedCommand(speed).Some?
    requires time * (speed * 1000) as real == clocks as real && timeout * (speed * 1000) >= clocks * 1_000_000_000
    ensures timeout as real >= time * 1_000_000_000.0
  {
    if speed == 20 {
    } else if speed == 100 {
    } else if speed == 400 {
    } else {
      assert speed == 750;
    }
  }
}
