/** The transport's Transaction: encoding, session, execution and invalidation together. */
module Transfer {
  import opened Outcome
  import opened Wire
  import opened Encoder
  import opened Executor
  import Delivery
  import Target
  import S = Session

  class Ch341 {
    const transport: S.Transport
    const usb: UsbLink
    const speed: int

    constructor (transport: S.Transport, usb: UsbLink, speed: int)
      ensures this.transport == transport && this.usb == usb && this.speed == speed
    {
      this.transport, this.usb, this.speed := transport, usb, speed;
    }

    /** A request the encoder refuses touches nothing, and one without a session does not reach USB.
        Otherwise the result is that of executing a compiled stream, and the session is given up
        exactly after the errors that leave the device's state unknown. */
    method Transaction(address: Byte, data: seq<Byte>, readLength: int, attempts: seq<S.Attempt>)
      returns (r: Result<seq<Byte>>, ghost stream: seq<Byte>)
      requires transport.Fresh()
      modifies transport, usb
      ensures transport.Fresh()
      ensures !Encodable(address, data, readLength) ==>
        r == Err(InvalidRequest) && transport.State() == old(transport.State()) && usb.State() == old(usb.State())
      ensures Encodable(address, data, readLength) ==>
        && Emitted(stream, address, data, readLength)
        && var (session, core) := S.Current(old(transport.State()), attempts);
           if session.Err? then
             r == Err(session.kind) && transport.State() == core && usb.State() == old(usb.State())
           else
             && (r, usb.State()) == Run(old(usb.State()), speed, stream, readLength)
             && core.session == Some(session.value)
             && transport.State() ==
                if r.Err? && (r.kind == DeviceMissing || r.kind == InputOutput || r.kind == Protocol) then
                  core.(session := None, closes := core.closes + [session.value],
                        open := core.open - {S.Device(session.value), S.Configuration(session.value), S.Interface(session.value)})
                else core
    {
      hide Emitted, Run, S.Current;
      CurrentIsSession(transport.State(), attempts);
      var encoded := EncodeTransaction(address, data, readLength);
      if encoded.Err? {
        return Err(encoded.kind), [];
      }
      stream := encoded.value;
      var session := transport.CurrentSession(attempts);
      if session.Err? {
        return Err(session.kind), stream;
      }
      r := Execute(usb, speed, encoded.value, readLength);
      if r.Err? && S.ShouldInvalidate(Some(r.kind)) {
        transport.InvalidateSession(session.value);
      }
    }
  }

  lemma {:induction false} OpenedIsSession(core: S.Core, attempts: seq<S.Attempt>, last: Option<ErrorKind>)
    ensures var (r, after) := S.TryAll(core, attempts, last); r.Ok? ==> after.session == Some(r.value)
    decreases |attempts|
  {
    if attempts != [] && !attempts[0].Opens? {
      var a := attempts[0];
      OpenedIsSession(if !a.OpenFails? && !a.Absent? then core.(devices := core.devices + 1) else core, attempts[1..],
                      if S.AttemptError(a).Some? then S.AttemptError(a) else last);
    }
  }

  lemma CurrentIsSession(core: S.Core, attempts: seq<S.Attempt>)
    ensures var (r, after) := S.Current(core, attempts); r.Ok? ==> after.session == Some(r.value)
  {
    OpenedIsSession(core, attempts, None);
  }

  /** How such an execution turns out over a bridge that loses nothing but leading statuses: with the
      chip at the address its data, with nobody there a NACK or ones.  Neither gives up the session. */
  lemma Outcomes(l: Link, speed: int, stream: seq<Byte>, address: Byte, data: seq<Byte>, readLength: nat,
                 answers: seq<Delivery.Answer>, chip: Target.Chip, own: Byte)
    requires Compiled(stream, address, data, readLength) && own <= 0x7f
    requires SpeedCommand(speed).Some? && l.outbound == []
    requires Delivery.AllAnswer(Packets(stream), answers, Capacity(l.maxPacketSize))
    requires l.inbound == Delivery.Scripts(Packets(stream), answers)
    requires Target.Serves(Target.Target(chip, Target.Idle), own, Packets(stream), answers)
    ensures var r := Run(l, speed, stream, readLength).0;
      && r == (if own == address then Ok(Target.Transact(chip, data, readLength).1)
               else if Target.StatusArrives(answers) then Err(Nack)
               else Ok(Target.Ones(readLength)))
      && (r.Err? ==> !S.ShouldInvalidate(Some(r.kind)))
  {
    hide Run, Packets, Delivery.AllAnswer, Delivery.Scripts, Target.Serves, Target.Transact, Target.StatusArrives;
    if own == address {
      Target.TransactionOnTheWire(l, speed, stream, address, data, readLength, answers, chip);
    } else {
      Target.NobodyThere(l, speed, stream, address, data, readLength, answers, chip, own);
    }
  }
}
