/** The USB session of the transport: how it is opened and closed, and every interleaving of
    transactions, inspections and Close under the two mutexes. */
module Session {
  import opened Outcome

  // ---------------------------------------------------------------- opening and closing

  /** The USB objects behind the n-th opened device. */
  datatype Handle = Device(n: nat) | Configuration(n: nat) | Interface(n: nat)

  /** What trying one configured USB identity comes to. */
  datatype Attempt =
    | OpenFails(kind: ErrorKind)
    | Absent
    | NoEndpoints
    | ConfigFails(kind: ErrorKind)
    | InterfaceFails(kind: ErrorKind)
    | InputFails
    | OutputFails
    | Opens

  /** A session is named by its device.  `open` are the handles in existence, `closes` the
      sessions closed so far, in order. */
  datatype Core = Core(session: Option<nat>, closed: bool, devices: nat, open: set<Handle>, closes: seq<nat>)

  const INITIAL := Core(None, false, 0, {}, [])

  function Handles(n: nat): set<Handle> {
    {Device(n), Configuration(n), Interface(n)}
  }

  function AttemptError(a: Attempt): Option<ErrorKind> {
    match a
    case OpenFails(kind) => Some(kind)
    case Absent => None
    case NoEndpoints => Some(Protocol)
    case ConfigFails(kind) => Some(kind)
    case InterfaceFails(kind) => Some(kind)
    case InputFails => Some(Protocol)
    case OutputFails => Some(Protocol)
    case Opens => None
  }

  /** The first identity that opens becomes the session, and nothing else is left open; without
      one, the last error counts. */
  function TryAll(core: Core, attempts: seq<Attempt>, last: Option<ErrorKind>): (Result<nat>, Core)
    decreases |attempts|
  {
    if attempts == [] then (Err(if last.Some? then last.value else DeviceMissing), core)
    else
      var a := attempts[0];
      var present := !a.OpenFails? && !a.Absent?;
      var core1 := if present then core.(devices := core.devices + 1) else core;
      if a.Opens? then
        (Ok(core.devices), core1.(session := Some(core.devices), open := core.open + Handles(core.devices)))
      else TryAll(core1, attempts[1..], if AttemptError(a).Some? then AttemptError(a) else last)
  }

  /** One turn of the loop over the identities. */
  lemma TryNext(core: Core, attempts: seq<Attempt>, i: nat, last: Option<ErrorKind>)
    requires i < |attempts|
    ensures var a := attempts[i];
      TryAll(core, attempts[i..], last) ==
      if a.OpenFails? || a.Absent? then
        TryAll(core, attempts[i + 1..], if a.OpenFails? then Some(a.kind) else last)
      else if a.Opens? then
        (Ok(core.devices),
         core.(devices := core.devices + 1, session := Some(core.devices), open := core.open + Handles(core.devices)))
      else TryAll(core.(devices := core.devices + 1), attempts[i + 1..], Some(AttemptError(a).value))
  {
    assert attempts[i..][0] == attempts[i] && attempts[i..][1..] == attempts[i + 1..];
  }

  lemma TryNone(core: Core, attempts: seq<Attempt>, last: Option<ErrorKind>)
    ensures TryAll(core, attempts[|attempts|..], last) == (Err(if last.Some? then last.value else DeviceMissing), core)
  {
  }

  lemma AddHandles(open: set<Handle>, n: nat)
    ensures open + {Device(n)} + {Configuration(n), Interface(n)} == open + Handles(n)
    ensures Device(n) !in open ==> open + {Device(n)} - {Device(n)} == open
  {
  }

  function Ensure(core: Core, attempts: seq<Attempt>): (Result<nat>, Core) {
    if core.session.Some? then (Ok(core.session.value), core) else TryAll(core, attempts, None)
  }

  /** currentSession and the locked part of InspectUSB. */
  function Current(core: Core, attempts: seq<Attempt>): (Result<nat>, Core) {
    if core.closed then (Err(DeviceMissing), core) else Ensure(core, attempts)
  }

  function CloseSession(core: Core): Core {
    match core.session
    case None => core
    case Some(n) => core.(session := None, open := core.open - Handles(n), closes := core.closes + [n])
  }

  function Close(core: Core): Core {
    if core.closed then core else CloseSession(core).(closed := true)
  }

  function Invalidate(core: Core, n: nat): Core {
    if core.session != Some(n) then core else CloseSession(core)
  }

  class Transport {
    var session: Option<nat>
    var closed: bool
    var devices: nat
    var open: set<Handle>
    ghost var closes: seq<nat>

    constructor ()
      ensures State() == INITIAL
    {
      session, closed, devices, open, closes := None, false, 0, {}, [];
    }

    ghost function State(): Core
      reads this
    {
      Core(session, closed, devices, open, closes)
    }

    /** Handles are numbered as devices are opened, so new ones are not open yet. */
    ghost predicate Fresh()
      reads this
    {
      forall h | h in open :: h.n < devices
    }

    /** openSession: claims configuration, interface and endpoints of an opened device, and
        releases what it claimed if one of them fails. */
    method OpenSession(n: nat, a: Attempt) returns (r: Result<nat>)
      requires !a.OpenFails? && !a.Absent?
      requires Configuration(n) !in open && Interface(n) !in open
      modifies this`open
      ensures r == if a.Opens? then Ok(n) else Err(AttemptError(a).value)
      ensures a.ConfigFails? || a.InterfaceFails? ==> r == Err(a.kind)
      ensures a.NoEndpoints? || a.InputFails? || a.OutputFails? ==> r == Err(Protocol)
      ensures open == if a.Opens? then old(open) + {Configuration(n), Interface(n)} else old(open)
    {
      if a.NoEndpoints? {
        return Err(Protocol);
      }
      if a.ConfigFails? {
        return Err(a.kind);
      }
      open := open + {Configuration(n)};
      if a.InterfaceFails? {
        open := open - {Configuration(n)};
        return Err(a.kind);
      }
      open := open + {Interface(n)};
      if a.InputFails? || a.OutputFails? {
        open := open - {Interface(n)};
        open := open - {Configuration(n)};
        return Err(Protocol);
      }
      return Ok(n);
    }

    /** A present device is opened, and closed again unless a session can be claimed on it. */
    method OpenDevice(a: Attempt) returns (r: Result<nat>)
      requires Fresh() && !a.OpenFails? && !a.Absent?
      modifies this`open, this`devices
      ensures Fresh() && devices == old(devices) + 1
      ensures r == if a.Opens? then Ok(old(devices)) else Err(AttemptError(a).value)
      ensures open == if a.Opens? then old(open) + Handles(old(devices)) else old(open)
    {
      var n := devices;
      AddHandles(open, n);
      devices, open := devices + 1, open + {Device(n)};
      r := OpenSession(n, a);
      if r.Err? {
        open := open - {Device(n)};
      }
    }

    /** ensureSessionLocked: whatever fails on the way, only the handles of the session it returns
        are open afterwards. */
    method EnsureSession(attempts: seq<Attempt>) returns (r: Result<nat>)
      requires Fresh()
      modifies this
      ensures (r, State()) == Ensure(old(State()), attempts) && Fresh()
    {
      hide TryAll, Handles, AttemptError;
      assert attempts[0..] == attempts;
      if session.Some? {
        return Ok(session.value);
      }
      var last: Option<ErrorKind> := None;
      for i := 0 to |attempts|
        invariant Fresh() && session == None
        invariant TryAll(State(), attempts[i..], last) == TryAll(old(State()), attempts, None)
      {
        var a := attempts[i];
        TryNext(State(), attempts, i, last);
        if a.OpenFails? {
          last := Some(a.kind);
        } else if !a.Absent? {
          var claimed := OpenDevice(a);
          if claimed.Ok? {
            session := Some(claimed.value);
            return claimed;
          }
          last := Some(claimed.kind);
        }
      }
      TryNone(State(), attempts, last);
      return Err(if last.Some? then last.value else DeviceMissing);
    }

    method CurrentSession(attempts: seq<Attempt>) returns (r: Result<nat>)
      requires Fresh()
      modifies this
      ensures (r, State()) == Current(old(State()), attempts) && Fresh()
      ensures old(closed) ==> r == Err(DeviceMissing) && State() == old(State())
      ensures !old(closed) && old(session).Some? ==> r == Ok(old(session).value) && State() == old(State())
    {
      if closed {
        return Err(DeviceMissing);
      }
      r := EnsureSession(attempts);
    }

    method CloseTransport()
      requires Fresh()
      modifies this
      ensures State() == Close(old(State())) && Fresh()
    {
      if closed {
        return;
      }
      closed := true;
      if session.Some? {
        CloseHandles(session.value);
        session := None;
      }
    }

    method InvalidateSession(n: nat)
      requires Fresh()
      modifies this
      ensures State() == Invalidate(old(State()), n) && Fresh()
    {
      if session != Some(n) {
        return;
      }
      CloseHandles(n);
      session := None;
    }

    method CloseHandles(n: nat)
      requires Fresh()
      modifies this`open, this`closes
      ensures open == old(open) - Handles(n) && closes == old(closes) + [n] && Fresh()
    {
      open := open - {Interface(n)};
      open := open - {Configuration(n)};
      open := open - {Device(n)};
      closes := closes + [n];
    }
  }

  // ---------------------------------------------------------------- interleavings

  datatype Kind = Transaction | Inspection | Closing

  /** `Locked` holds the session mutex; from `WantSession` on, transactions and Close also hold
      the I/O mutex, until `Done`. */
  datatype Phase =
    | WantIo
    | WantSession
    | Locked
    | Unlocking(result: Option<nat>)
    | Using(n: nat)
    | WantInvalidate(n: nat)
    | InvalidateLocked(n: nat)
    | ReleasingIo
    | Done

  datatype Thread = Thread(kind: Kind, phase: Phase)

  datatype System = System(core: Core, ioMu: Option<nat>, sessionMu: Option<nat>, threads: map<nat, Thread>)

  datatype Action =
    | Spawn(t: nat, kind: Kind)
    | LockIo(t: nat)
    | LockSession(t: nat)
    | Work(t: nat, attempts: seq<Attempt>)
    | UnlockSession(t: nat)
    | Finish(t: nat, error: Option<ErrorKind>)
    | UnlockIo(t: nat)

  const START := System(INITIAL, None, None, map[])

  predicate Enabled(s: System, a: Action) {
    match a
    case Spawn(t, _) => t !in s.threads
    case LockIo(t) => t in s.threads && s.threads[t].phase.WantIo? && s.ioMu == None
    case LockSession(t) =>
      t in s.threads && (s.threads[t].phase.WantSession? || s.threads[t].phase.WantInvalidate?) && s.sessionMu == None
    case Work(t, _) => t in s.threads && (s.threads[t].phase.Locked? || s.threads[t].phase.InvalidateLocked?)
    case UnlockSession(t) => t in s.threads && s.threads[t].phase.Unlocking?
    case Finish(t, _) => t in s.threads && s.threads[t].phase.Using?
    case UnlockIo(t) => t in s.threads && s.threads[t].phase.ReleasingIo?
  }

  /** The device is given up after errors that leave its state unknown; a NACK or a busy device
      keeps it. */
  predicate ShouldInvalidate(error: Option<ErrorKind>) {
    error in {Some(DeviceMissing), Some(InputOutput), Some(Protocol)}
  }

  function Move(s: System, t: nat, phase: Phase): System
    requires t in s.threads
  {
    s.(threads := s.threads[t := s.threads[t].(phase := phase)])
  }

  /** The work under the session mutex. */
  function Worked(s: System, t: nat, attempts: seq<Attempt>): System
    requires t in s.threads && (s.threads[t].phase.Locked? || s.threads[t].phase.InvalidateLocked?)
  {
    if s.threads[t].phase.InvalidateLocked? then
      Move(s.(core := Invalidate(s.core, s.threads[t].phase.n)), t, Unlocking(None))
    else if s.threads[t].kind.Closing? then
      Move(s.(core := Close(s.core)), t, Unlocking(None))
    else
      var (r, core) := Current(s.core, attempts);
      Move(s.(core := core), t, Unlocking(if r.Ok? then Some(r.value) else None))
  }

  function Apply(s: System, a: Action): System
    requires Enabled(s, a)
  {
    match a
    case Spawn(t, kind) =>
      s.(threads := s.threads[t := Thread(kind, if kind.Inspection? then WantSession else WantIo)])
    case LockIo(t) => Move(s.(ioMu := Some(t)), t, WantSession)
    case LockSession(t) =>
      Move(s.(sessionMu := Some(t)), t,
           if s.threads[t].phase.WantInvalidate? then InvalidateLocked(s.threads[t].phase.n) else Locked)
    case Work(t, attempts) => Worked(s, t, attempts)
    case UnlockSession(t) =>
      var result := s.threads[t].phase.result;
      Move(s.(sessionMu := None), t,
           if s.threads[t].kind.Inspection? then Done
           else if s.threads[t].kind.Transaction? && result.Some? then Using(result.value)
           else ReleasingIo)
    case Finish(t, error) =>
      Move(s, t, if ShouldInvalidate(error) then WantInvalidate(s.threads[t].phase.n) else ReleasingIo)
    case UnlockIo(t) => Move(s.(ioMu := None), t, Done)
  }

  predicate Run(s: System, actions: seq<Action>)
    decreases |actions|
  {
    actions == [] || (Enabled(s, actions[0]) && Run(Apply(s, actions[0]), actions[1..]))
  }

  function After(s: System, actions: seq<Action>): System
    requires Run(s, actions)
    decreases |actions|
  {
    if actions == [] then s else After(Apply(s, actions[0]), actions[1..])
  }

  // ---------------------------------------------------------------- invariants

  predicate HoldsIo(k: Thread) {
    !k.kind.Inspection? && !k.phase.WantIo? && !k.phase.Done?
  }

  predicate HoldsSession(k: Thread) {
    k.phase.Locked? || k.phase.Unlocking? || k.phase.InvalidateLocked?
  }

  /** The session a transaction works with. */
  function InUse(k: Thread): Option<nat> {
    if !k.kind.Transaction? then None
    else match k.phase
      case Unlocking(result) => result
      case Using(n) => Some(n)
      case WantInvalidate(n) => Some(n)
      case InvalidateLocked(n) => Some(n)
      case _ => None
  }

  predicate PhaseFits(k: Thread) {
    && (k.phase.Using? || k.phase.WantInvalidate? || k.phase.InvalidateLocked? ==> k.kind.Transaction?)
    && (k.kind.Inspection? ==> !k.phase.WantIo? && !k.phase.ReleasingIo?)
  }

  ghost predicate ThreadOk(s: System, t: nat)
    requires t in s.threads
  {
    var k := s.threads[t];
    && PhaseFits(k)
    && (HoldsIo(k) <==> s.ioMu == Some(t))
    && (HoldsSession(k) <==> s.sessionMu == Some(t))
    && (InUse(k).Some? ==> s.core.session == InUse(k))
  }

  /** At most one session exists; its handles, and no others, are open; it has not been closed;
      no session has been closed twice; after Close there is none. */
  ghost predicate CoreOk(c: Core) {
    && c.open == (if c.session.Some? then Handles(c.session.value) else {})
    && (c.session.Some? ==> c.session.value < c.devices && c.session.value !in c.closes && !c.closed)
    && (forall i | 0 <= i < |c.closes| :: c.closes[i] < c.devices)
    && (forall i, j | 0 <= i < j < |c.closes| :: c.closes[i] != c.closes[j])
  }

  ghost predicate Inv(s: System) {
    && CoreOk(s.core)
    && (s.ioMu.Some? ==> s.ioMu.value in s.threads)
    && (s.sessionMu.Some? ==> s.sessionMu.value in s.threads)
    && (forall t | t in s.threads :: ThreadOk(s, t))
  }

  lemma {:induction false} TryAllOk(core: Core, attempts: seq<Attempt>, last: Option<ErrorKind>)
    requires CoreOk(core) && core.session == None && !core.closed
    ensures var (r, after) := TryAll(core, attempts, last);
      CoreOk(after) && !after.closed && after.closes == core.closes && after.session == if r.Ok? then Some(r.value) else None
    decreases |attempts|
  {
    if attempts != [] {
      var a := attempts[0];
      var core1 := if !a.OpenFails? && !a.Absent? then core.(devices := core.devices + 1) else core;
      if !a.Opens? {
        TryAllOk(core1, attempts[1..], if AttemptError(a).Some? then AttemptError(a) else last);
      } else {
        assert core.open + Handles(core.devices) == Handles(core.devices);
      }
    }
  }

  /** Identities at which a device is found and opened, if only to be closed again. */
  function Present(attempts: seq<Attempt>): nat {
    if attempts == [] then 0
    else (if attempts[0].OpenFails? || attempts[0].Absent? then 0 else 1) + Present(attempts[1..])
  }

  /** The session is that of the first identity that opens, on a device opened for it, and of the devices
      opened before it none stays open. */
  lemma {:induction false} FirstThatOpens(core: Core, attempts: seq<Attempt>, last: Option<ErrorKind>, i: nat)
    requires i < |attempts| && attempts[i].Opens? && forall j | 0 <= j < i :: !attempts[j].Opens?
    ensures var n := core.devices + Present(attempts[..i]);
      TryAll(core, attempts, last) ==
        (Ok(n), core.(devices := n + 1, session := Some(n), open := core.open + {Device(n), Configuration(n), Interface(n)}))
    decreases i
  {
    if i > 0 {
      var a := attempts[0];
      var core1 := if !a.OpenFails? && !a.Absent? then core.(devices := core.devices + 1) else core;
      assert attempts[..i][0] == a && attempts[..i][1..] == attempts[1..][..i - 1];
      FirstThatOpens(core1, attempts[1..], if AttemptError(a).Some? then AttemptError(a) else last, i - 1);
    }
  }

  /** The last of the attempts that met an error met this one. */
  predicate LastError(attempts: seq<Attempt>, kind: ErrorKind) {
    exists i | 0 <= i < |attempts| ::
      AttemptError(attempts[i]) == Some(kind) && forall j | i < j < |attempts| :: AttemptError(attempts[j]) == None
  }

  /** If no identity opens, nothing more is open than before, and the error is the last one met, or that of
      a missing device if all identities are absent. */
  lemma {:induction false} FailedOpenings(core: Core, attempts: seq<Attempt>, last: Option<ErrorKind>)
    requires forall i | 0 <= i < |attempts| :: !attempts[i].Opens?
    ensures var (r, after) := TryAll(core, attempts, last);
      && after == core.(devices := core.devices + Present(attempts)) && r.Err?
      && (LastError(attempts, r.kind) ||
          ((forall i | 0 <= i < |attempts| :: attempts[i].Absent?) && r.kind == if last.Some? then last.value else DeviceMissing))
    decreases |attempts|
  {
    if attempts != [] {
      var a, later := attempts[0], attempts[1..];
      var next := if AttemptError(a).Some? then AttemptError(a) else last;
      var core1 := if !a.OpenFails? && !a.Absent? then core.(devices := core.devices + 1) else core;
      FailedOpenings(core1, later, next);
      var kind := TryAll(core1, later, next).0.kind;
      ErrorsLater(attempts, kind);
    }
  }

  lemma ErrorsLater(attempts: seq<Attempt>, kind: ErrorKind)
    requires attempts != []
    ensures LastError(attempts[1..], kind) ==> LastError(attempts, kind)
    ensures AttemptError(attempts[0]) == Some(kind) && (forall i | 0 <= i < |attempts| - 1 :: attempts[1..][i].Absent?) ==>
      LastError(attempts, kind)
    ensures attempts[0].Absent? && (forall i | 0 <= i < |attempts| - 1 :: attempts[1..][i].Absent?) ==>
      forall i | 0 <= i < |attempts| :: attempts[i].Absent?
  {
    var later := attempts[1..];
    assert forall i | 0 < i < |attempts| :: attempts[i] == later[i - 1];
    if LastError(later, kind) {
      var i :| 0 <= i < |later| && AttemptError(later[i]) == Some(kind) &&
        forall j | i < j < |later| :: AttemptError(later[j]) == None;
      assert AttemptError(attempts[i + 1]) == Some(kind);
    }
  }

  /** What a failed transaction leaves: after a missing device, an I/O error or a protocol error no session,
      and after any other error the same one. */
  lemma AfterError(core: Core, n: nat, kind: ErrorKind)
    requires CoreOk(core) && core.session == Some(n)
    ensures var after := if ShouldInvalidate(Some(kind)) then Invalidate(core, n) else core;
      if kind == DeviceMissing || kind == InputOutput || kind == Protocol then
        after == core.(session := None, open := {}, closes := core.closes + [n])
      else after == core
  {
    assert core.open - Handles(n) == {};
  }

  /** Recovery: after one of those errors the next call, if an identity opens, runs on a device that was
      never used before; after any other it runs on the same session. */
  lemma Recovery(core: Core, n: nat, kind: ErrorKind, attempts: seq<Attempt>, i: nat)
    requires CoreOk(core) && core.session == Some(n) && !core.closed
    requires i < |attempts| && attempts[i].Opens? && forall j | 0 <= j < i :: !attempts[j].Opens?
    ensures var after := if ShouldInvalidate(Some(kind)) then Invalidate(core, n) else core;
      var (r, next) := Current(after, attempts);
      if kind == DeviceMissing || kind == InputOutput || kind == Protocol then
        && r.Ok? && r.value >= core.devices > n && next.session == Some(r.value)
        && next.open == {Device(r.value), Configuration(r.value), Interface(r.value)} && next.closes == core.closes + [n]
      else r == Ok(n) && next == core
  {
    AfterError(core, n, kind);
    if kind == DeviceMissing || kind == InputOutput || kind == Protocol {
      FirstThatOpens(Invalidate(core, n), attempts, None, i);
    }
  }

  lemma CurrentOk(core: Core, attempts: seq<Attempt>)
    requires CoreOk(core)
    ensures var (r, after) := Current(core, attempts);
      && CoreOk(after) && after.closed == core.closed
      && (core.session.Some? ==> after == core)
      && (r.Ok? ==> after.session == Some(r.value))
  {
    if !core.closed && core.session == None {
      TryAllOk(core, attempts, None);
    }
  }

  lemma CloseOk(core: Core, n: nat)
    requires CoreOk(core)
    ensures CoreOk(Close(core)) && CoreOk(Invalidate(core, n)) && Close(core).closed
  {
  }

  /** The work under the session mutex: it leaves alone the session of every other transaction. */
  lemma WorkStep(s: System, a: Action)
    requires Inv(s) && Enabled(s, a) && a.Work?
    ensures Inv(Apply(s, a))
  {
    hide CoreOk, Current, Close, Invalidate;
    CurrentOk(s.core, a.attempts);
    CloseOk(s.core, if s.threads[a.t].phase.InvalidateLocked? then s.threads[a.t].phase.n else 0);
    var s' := Apply(s, a);
    forall t | t in s'.threads ensures ThreadOk(s', t) {
      assert ThreadOk(s, t);
    }
  }

  lemma OtherStep(s: System, a: Action)
    requires Inv(s) && Enabled(s, a) && !a.Work?
    ensures Inv(Apply(s, a))
  {
    hide CoreOk;
    var s' := Apply(s, a);
    forall t | t in s'.threads ensures ThreadOk(s', t) {
      assert t in s.threads ==> ThreadOk(s, t);
      if a.t in s.threads { assert ThreadOk(s, a.t); }
    }
  }

  lemma {:induction false} InvariantOverRuns(s: System, actions: seq<Action>)
    requires Inv(s) && Run(s, actions)
    ensures Inv(After(s, actions))
    decreases |actions|
  {
    hide Inv, Apply, Enabled;
    if actions != [] {
      if actions[0].Work? { WorkStep(s, actions[0]); } else { OtherStep(s, actions[0]); }
      InvariantOverRuns(Apply(s, actions[0]), actions[1..]);
    }
  }

  // ---------------------------------------------------------------- main results

  /** In every reachable state of any number of transactions, inspections and Closes: every
      session in use is the one open session, no two transactions share it, exactly its handles
      are open, no session was closed twice, and a closed transport has nothing open. */
  lemma SessionsAreSafe(actions: seq<Action>, t: nat, u: nat)
    requires Run(START, actions)
    requires t in After(START, actions).threads && u in After(START, actions).threads
    ensures var s := After(START, actions);
      var a, b := s.threads[t], s.threads[u];
      && (InUse(a).Some? ==> s.core.session == InUse(a) && InUse(a).value !in s.core.closes && !s.core.closed)
      && (InUse(a).Some? ==> s.core.open == Handles(InUse(a).value))
      && (t != u ==> InUse(a) == None || InUse(b) == None)
      && (t != u ==> !(HoldsSession(a) && HoldsSession(b)))
      && (s.core.session == None ==> s.core.open == {})
      && (s.core.closed ==> s.core.session == None)
  {
    InvariantOverRuns(START, actions);
    var s := After(START, actions);
    assert ThreadOk(s, t) && ThreadOk(s, u);
  }

  lemma ClosedOnce(actions: seq<Action>, i: nat, j: nat)
    requires Run(START, actions)
    requires i < j < |After(START, actions).core.closes|
    ensures After(START, actions).core.closes[i] != After(START, actions).core.closes[j]
  {
    InvariantOverRuns(START, actions);
  }

  /** While a transaction uses a session, no step of another thread closes or replaces it: not a
      Close, not an inspection, not another transaction's invalidation. */
  lemma OthersLeaveItOpen(actions: seq<Action>, a: Action, t: nat)
    requires Run(START, actions) && Enabled(After(START, actions), a)
    requires t in After(START, actions).threads && a.t != t
    requires InUse(After(START, actions).threads[t]).Some?
    ensures var s := After(START, actions);
      && Apply(s, a).core == s.core
      && Apply(s, a).threads[t] == s.threads[t]
  {
    InvariantOverRuns(START, actions);
    var s := After(START, actions);
    assert ThreadOk(s, t);
    if a.t in s.threads { assert ThreadOk(s, a.t); }
  }

  /** invalidateSession always finds the session it was asked to close: its early return is never
      taken, and the step closes that session and nothing else. */
  lemma GuardNeverFires(actions: seq<Action>, t: nat, attempts: seq<Attempt>)
    requires Run(START, actions)
    requires t in After(START, actions).threads && After(START, actions).threads[t].phase.InvalidateLocked?
    ensures var s := After(START, actions);
      var n := s.threads[t].phase.n;
      && s.core.session == Some(n)
      && Apply(s, Work(t, attempts)).core == s.core.(session := None, open := {}, closes := s.core.closes + [n])
  {
    InvariantOverRuns(START, actions);
    var s := After(START, actions);
    assert ThreadOk(s, t);
    assert s.core.open - Handles(s.threads[t].phase.n) == {};
  }

  /** After Close nothing is opened or closed again, whatever runs afterwards. */
  lemma {:induction false} ClosedForGood(s: System, actions: seq<Action>)
    requires Inv(s) && Run(s, actions) && s.core.closed
    ensures After(s, actions).core == s.core
    decreases |actions|
  {
    if actions != [] {
      StepWhenClosed(s, actions[0]);
      ClosedForGood(Apply(s, actions[0]), actions[1..]);
    }
  }

  lemma StepWhenClosed(s: System, a: Action)
    requires Inv(s) && Enabled(s, a) && s.core.closed
    ensures Inv(Apply(s, a)) && Apply(s, a).core == s.core
  {
    if a.Work? { WorkStep(s, a); } else { OtherStep(s, a); }
  }

  /** A transaction that ends goes on to give its session up exactly after those errors. */
  lemma GivesUp(actions: seq<Action>, t: nat, error: Option<ErrorKind>)
    requires Run(START, actions) && Enabled(After(START, actions), Finish(t, error))
    ensures var s := After(START, actions);
      var n := s.threads[t].phase.n;
      && s.core.session == Some(n) && Apply(s, Finish(t, error)).core == s.core
      && Apply(s, Finish(t, error)).threads[t].phase ==
         if error in {Some(DeviceMissing), Some(InputOutput), Some(Protocol)} then WantInvalidate(n) else ReleasingIo
  {
    InvariantOverRuns(START, actions);
    assert ThreadOk(After(START, actions), t);
  }

  /** The two mutexes cannot deadlock: while some call is unfinished, some started call can move. */
  lemma NoDeadlock(actions: seq<Action>, t: nat)
    requires Run(START, actions)
    requires t in After(START, actions).threads && After(START, actions).threads[t].phase != Done
    ensures exists a: Action :: !a.Spawn? && Enabled(After(START, actions), a)
  {
    InvariantOverRuns(START, actions);
    var s := After(START, actions);
    assert ThreadOk(s, t);
    if s.sessionMu.Some? {
      assert ThreadOk(s, s.sessionMu.value);
      HolderMoves(s, s.sessionMu.value);
    } else if s.threads[t].phase.WantIo? && s.ioMu.Some? {
      assert ThreadOk(s, s.ioMu.value);
      HolderMoves(s, s.ioMu.value);
    } else {
      HolderMoves(s, t);
    }
  }

  lemma HolderMoves(s: System, t: nat)
    requires t in s.threads && s.threads[t].phase != Done
    requires s.threads[t].phase.WantIo? ==> s.ioMu == None
    requires s.sessionMu == None || HoldsSession(s.threads[t])
    ensures exists a: Action :: !a.Spawn? && Enabled(s, a)
  {
    var a := match s.threads[t].phase
      case WantIo => LockIo(t)
      case WantSession => LockSession(t)
      case WantInvalidate(_) => LockSession(t)
      case Locked => Work(t, [])
      case InvalidateLocked(_) => Work(t, [])
      case Unlocking(_) => UnlockSession(t)
      case Using(_) => Finish(t, None)
      case _ => UnlockIo(t);
    assert Enabled(s, a);
  }
}
