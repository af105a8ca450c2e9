/** The service is linearizable: every run of the concurrent service is a run of an atomic
    specification.

    It maps a request id to the digest that was signed, the signature and the time until which it
    counts, and holds the certificate once it is known.  A call takes effect in one step: a hit or
    a refused reuse when it finds the entry, a fresh signature when it is put, any other outcome
    when it is decided. */
module Linearizability {
  import opened Outcome
  import opened Wire
  import opened Shared
  import opened Service
  import opened ServiceSafety

  // ---------------------------------------------------------------- the atomic specification

  /** When the chip was asked for a fresh signature and when it had made it, and until when the
      signature counts. */
  datatype Made = Made(began: int, ended: int, expiresAt: int)

  const NOT_MADE := Made(0, 0, 0)

  datatype Event = Time(now: int) | Call(c: nat, request: Request, reply: Reply, made: Made)

  /** The entries that count, for every id when its latest signature had been made, and the
      certificate. */
  datatype Spec = Spec(table: Entries, ends: map<string, int>, certificate: Option<Certificate>)

  const EMPTY := Spec(map[], map[], None)

  predicate Fresh(e: Event) {
    e.Call? && e.request.Sign? && e.reply.Signed? && !e.reply.cached
  }

  /** Whether the reply is allowed in a state of the specification.  The chip is used for an id only
      while nothing counts for it, and again only more than an entry's lifetime after it had made
      the previous signature; and a fresh signature counts for a lifetime from being made. */
  predicate Allowed(cfg: Config, spec: Spec, now: int, e: Event)
    requires e.Call?
  {
    match e.request
    case Sign(id, challenge) =>
      (match e.reply
       case Signed(signature, true) =>
         id in spec.table && spec.table[id].digest == cfg.digest(challenge) && spec.table[id].signature == signature
       case Reused => id in spec.table && spec.table[id].digest != cfg.digest(challenge)
       case Signed(_, false) =>
         && id !in spec.table && (id in spec.ends ==> spec.ends[id] + CACHE_TTL < e.made.began)
         && e.made.began <= e.made.ended <= now
         && e.made.ended + CACHE_TTL <= e.made.expiresAt <= now + CACHE_TTL
       case HardwareError => id !in spec.table
       case BadFormat => !cfg.isUuid(id)
       case BadSize => cfg.isUuid(id) && !(1 <= |challenge| <= 128)
       case Busy => true
       case Cancelled => true
       case Certified(_, _) => false
       case Probed(_) => false)
    case ReadCertificate =>
      (match e.reply
       case Certified(certificate, true) => spec.certificate == Some(certificate)
       case Certified(certificate, false) => spec.certificate == None && Genuine(cfg, certificate)
       case HardwareError => spec.certificate == None
       case Busy => true
       case Cancelled => true
       case _ => false)
    case Probe => e.reply.Probed? || e.reply.HardwareError? || e.reply.Busy? || e.reply.Cancelled?
  }

  function Effect(cfg: Config, spec: Spec, e: Event): Spec
    requires e.Call?
  {
    if Fresh(e) then
      spec.(table := spec.table[e.request.id :=
              Entry(cfg.digest(e.request.challenge), e.reply.signature, e.made.expiresAt)],
            ends := spec.ends[e.request.id := e.made.ended])
    else if e.reply.Certified? && !e.reply.cached then spec.(certificate := Some(e.reply.certificate))
    else spec
  }

  /** Entries past their time never count. */
  function Age(spec: Spec, now: int): Spec {
    spec.(table := Live(spec.table, now))
  }

  /** Runs the specification; None if it refuses an event. */
  function SpecRun(cfg: Config, spec: Spec, now: int, events: seq<Event>): Option<Spec>
    decreases |events|
  {
    if events == [] then Some(spec)
    else match events[0]
      case Time(later) => if later < now then None else SpecRun(cfg, Age(spec, later), later, events[1..])
      case Call(_, _, _, _) =>
        if !Allowed(cfg, spec, now, events[0]) then None
        else SpecRun(cfg, Age(Effect(cfg, spec, events[0]), now), now, events[1..])
  }

  // ---------------------------------------------------------------- what a run looks like to it

  /** The event at which a step lets a call take effect: when the call's reply is decided. */
  function Observed(cfg: Config, s: State, a: Action): seq<Event>
    requires Enabled(s, a)
  {
    var s' := Apply(cfg, s, a);
    if a.Tick? then [Time(s'.clock)]
    else if a.Arrive? || ReplyOf(s.clients[a.c].phase).Some? || a.c !in s'.clients ||
            ReplyOf(s'.clients[a.c].phase) == None then []
    else [Call(a.c, s.clients[a.c].request, ReplyOf(s'.clients[a.c].phase).value,
               if a.Put? && s.calls != [] then
                 Made(s.calls[|s.calls| - 1].started, s.calls[|s.calls| - 1].finished,
                      s.clients[a.c].phase.entry.expiresAt)
               else NOT_MADE)]
  }

  function History(cfg: Config, s: State, actions: seq<Action>): seq<Event>
    requires Run(cfg, s, actions)
    decreases |actions|
  {
    if actions == [] then []
    else Observed(cfg, s, actions[0]) + History(cfg, Apply(cfg, s, actions[0]), actions[1..])
  }

  // ---------------------------------------------------------------- refinement

  function Table(s: State): Entries {
    Live(s.entries, s.clock)
  }

  /** What the specification remembers of a state. */
  function Abstract(s: State, ends: map<string, int>): Spec {
    Spec(Table(s), ends, s.certificate)
  }

  /** Remembered ends are those of signatures on record that are not on their way into the cache. */
  ghost predicate EndsOk(s: State, ends: map<string, int>) {
    forall id | id in ends :: EndOk(s, id, ends[id])
  }

  ghost predicate EndOk(s: State, id: string, end: int) {
    exists i | 0 <= i < |s.calls| :: s.calls[i].id == id && s.calls[i].finished == end && !Pending(s, i)
  }

  function NextEnds(events: seq<Event>, ends: map<string, int>): map<string, int> {
    if events != [] && Fresh(events[0]) then ends[events[0].request.id := events[0].made.ended] else ends
  }

  /** One step of the service is no step, or one step, of the specification. */
  ghost predicate Refines(cfg: Config, s: State, s': State, events: seq<Event>, ends: map<string, int>) {
    var spec, spec' := Abstract(s, ends), Abstract(s', NextEnds(events, ends));
    match |events|
    case 0 => s'.clock == s.clock && spec' == spec
    case 1 =>
      (match events[0]
       case Time(later) => later == s'.clock >= s.clock && spec' == Age(spec, later)
       case Call(_, _, _, _) =>
         && s'.clock == s.clock && Allowed(cfg, spec, s.clock, events[0])
         && spec' == Age(Effect(cfg, spec, events[0]), s.clock))
    case _ => false
  }

  lemma LiveTwice(entries: Entries, now: int, later: int)
    requires now <= later
    ensures Live(Live(entries, now), later) == Live(entries, later)
  {
  }

  lemma LiveLooked(entries: Entries, id: string, now: int)
    ensures Live(Lookup(entries, id, now).1, now) == Live(entries, now)
    ensures Lookup(entries, id, now).0 == if id in Live(entries, now) then Some(Live(entries, now)[id]) else None
  {
  }

  lemma LivePut(entries: Entries, id: string, entry: Entry, now: int)
    requires id !in entries
    ensures id !in Live(entries, now)
    ensures Live(entries[id := entry], now) == Live(Live(entries, now)[id := entry], now)
  {
  }

  lemma RefineTick(cfg: Config, s: State, a: Action, ends: map<string, int>)
    requires a.Tick?
    ensures Refines(cfg, s, Apply(cfg, s, a), Observed(cfg, s, a), ends)
  {
    LiveTwice(s.entries, s.clock, s.clock + a.duration);
  }

  /** What the specification asks of a put. */
  lemma PutMade(cfg: Config, s: State, a: Action, ends: map<string, int>)
    requires Inv(cfg, s) && Enabled(s, a) && a.Put? && EndsOk(s, ends)
    ensures s.calls != []
    ensures var k, call := s.clients[a.c], s.calls[|s.calls| - 1];
      && call.id == k.request.id && k.request.id !in s.entries
      && (k.request.id in ends ==> ends[k.request.id] + CACHE_TTL < call.started)
      && call.started <= call.finished <= s.clock
      && call.finished + CACHE_TTL <= k.phase.entry.expiresAt <= s.clock + CACHE_TTL
      && k.phase.entry.digest == cfg.digest(k.request.challenge)
  {
    hide CertificateInv, EntriesBacked, RepliesBacked, Covered, AllOlder;
    var id, n := s.clients[a.c].request.id, |s.calls|;
    CriticalHere(s, a.c);
    assert Pending(s, n - 1);
    if id in ends {
      assert EndOk(s, id, ends[id]);
    }
  }

  lemma RefinePut(cfg: Config, s: State, a: Action, ends: map<string, int>)
    requires Inv(cfg, s) && Enabled(s, a) && a.Put? && EndsOk(s, ends)
    ensures Refines(cfg, s, Apply(cfg, s, a), Observed(cfg, s, a), ends)
  {
    hide GateInv, CertificateInv, CacheInv, Apply, Live, EndsOk;
    var k := s.clients[a.c];
    PutMade(cfg, s, a, ends);
    PutFacts(cfg, s, a);
    LivePut(s.entries, k.request.id, k.phase.entry, s.clock);
    LiveTwice(s.entries, s.clock, s.clock);
  }

  lemma RefineLook(cfg: Config, s: State, a: Action, ends: map<string, int>)
    requires Enabled(s, a) && (a.Look? || a.LookAgain?)
    ensures Refines(cfg, s, Apply(cfg, s, a), Observed(cfg, s, a), ends)
  {
    hide Live, Lookup, HolderName;
    if s.clients[a.c].request.Sign? {
      LiveLooked(s.entries, s.clients[a.c].request.id, s.clock);
    }
    LiveTwice(s.entries, s.clock, s.clock);
  }

  lemma RefineOther(cfg: Config, s: State, a: Action, ends: map<string, int>)
    requires Inv(cfg, s) && Enabled(s, a) && !(a.Tick? || a.Put? || a.Look? || a.LookAgain?)
    ensures Refines(cfg, s, Apply(cfg, s, a), Observed(cfg, s, a), ends)
  {
    hide Live, GateInv, CertificateInv, CacheInv;
    LiveTwice(s.entries, s.clock, s.clock);
    FitsHere(s, a);
    AbsentHere(cfg, s, a);
  }

  lemma FitsHere(s: State, a: Action)
    requires GateInv(s) && !a.Tick?
    ensures a.c in s.clients ==> Fits(s.clients[a.c])
  {
  }

  /** Whoever asks the chip found nothing that would count for it. */
  lemma AbsentHere(cfg: Config, s: State, a: Action)
    requires Inv(cfg, s) && Enabled(s, a) && !a.Tick?
    ensures a.ChipFails? && s.clients[a.c].request.Sign? ==> s.clients[a.c].request.id !in Table(s)
    ensures a.ChipFails? && s.clients[a.c].request.ReadCertificate? ==> s.certificate == None
    ensures a.StoreCertificate? ==> s.certificate == None && Genuine(cfg, s.clients[a.c].phase.certificate)
  {
    hide Backed, Genuine, AllOlder;
    FitsHere(s, a);
  }

  lemma StepRefines(cfg: Config, s: State, a: Action, ends: map<string, int>)
    requires Inv(cfg, s) && Enabled(s, a) && EndsOk(s, ends)
    ensures Refines(cfg, s, Apply(cfg, s, a), Observed(cfg, s, a), ends)
  {
    hide Refines, Apply, Observed, GateInv, CertificateInv, CacheInv, Enabled, EndsOk;
    if a.Tick? {
      RefineTick(cfg, s, a, ends);
    } else if a.Put? {
      RefinePut(cfg, s, a, ends);
    } else if a.Look? || a.LookAgain? {
      RefineLook(cfg, s, a, ends);
    } else {
      RefineOther(cfg, s, a, ends);
    }
  }

  /** A recorded signature that is on its way into the cache was so before. */
  lemma PendingBefore(cfg: Config, s: State, a: Action, i: nat)
    requires GateInv(s) && Enabled(s, a) && i < |s.calls| && Pending(Apply(cfg, s, a), i)
    ensures Pending(s, i)
  {
    hide Apply, Enabled;
    var s' := Apply(cfg, s, a);
    var d := s'.gate.token.value;
    CallsOnlyGrow(cfg, s, a);
    if a.Tick? {
      TickOnly(cfg, s, a);
    } else {
      OneMoves(cfg, s, a);
      if d == a.c {
        SigningBefore(cfg, s, a);
      }
      assert Holding(s.clients[d].phase);
    }
  }

  predicate OnTheWay(k: Client) {
    k.request.Sign? && (k.phase.SignedAt? || k.phase.Storing?)
  }

  /** Only the chip's answer puts a signature on its way. */
  lemma SigningBefore(cfg: Config, s: State, a: Action)
    requires Enabled(s, a) && !a.Tick? && a.c in Apply(cfg, s, a).clients && OnTheWay(Apply(cfg, s, a).clients[a.c])
    ensures |Apply(cfg, s, a).calls| > |s.calls| ||
      (a.c in s.clients && OnTheWay(s.clients[a.c]) && s.clients[a.c].request == Apply(cfg, s, a).clients[a.c].request)
  {
    hide HolderName, Lookup, CachedReply;
  }

  lemma CallsOnlyGrow(cfg: Config, s: State, a: Action)
    requires Enabled(s, a)
    ensures s.calls <= Apply(cfg, s, a).calls
  {
  }

  lemma EndsStep(cfg: Config, s: State, a: Action, ends: map<string, int>)
    requires Inv(cfg, s) && Enabled(s, a) && EndsOk(s, ends)
    ensures EndsOk(Apply(cfg, s, a), NextEnds(Observed(cfg, s, a), ends))
  {
    hide Apply, GateInv, CertificateInv, CacheInv, Enabled, Pending;
    var s', events := Apply(cfg, s, a), Observed(cfg, s, a);
    forall id | id in ends ensures EndOk(s', id, ends[id]) {
      assert EndOk(s, id, ends[id]);
      var i :| 0 <= i < |s.calls| && s.calls[i].id == id && s.calls[i].finished == ends[id] && !Pending(s, i);
      CallsOnlyGrow(cfg, s, a);
      if Pending(s', i) {
        PendingBefore(cfg, s, a, i);
        assert false;
      }
    }
    if a.Put? {
      PutEnd(cfg, s, a);
    } else {
      OnlyPutIsFresh(cfg, s, a);
    }
  }

  lemma PutEnd(cfg: Config, s: State, a: Action)
    requires Inv(cfg, s) && Enabled(s, a) && a.Put?
    ensures var e := Observed(cfg, s, a);
      e != [] && Fresh(e[0]) && EndOk(Apply(cfg, s, a), e[0].request.id, e[0].made.ended)
  {
    hide CertificateInv, EntriesBacked, RepliesBacked, CallsPast, Spaced, Covered, AllOlder, Apply;
    var s' := Apply(cfg, s, a);
    PutFacts(cfg, s, a);
    CriticalHere(s, a.c);
    assert !Pending(s', |s.calls| - 1);
    assert s'.calls[|s.calls| - 1].id == s.clients[a.c].request.id;
  }

  lemma OnlyPutIsFresh(cfg: Config, s: State, a: Action)
    requires Enabled(s, a) && !a.Put?
    ensures var e := Observed(cfg, s, a); e == [] || !Fresh(e[0])
  {
  }

  lemma {:induction false} LinearizableFrom(cfg: Config, s: State, actions: seq<Action>, ends: map<string, int>)
    requires Inv(cfg, s) && Run(cfg, s, actions) && EndsOk(s, ends)
    ensures var end := SpecRun(cfg, Abstract(s, ends), s.clock, History(cfg, s, actions));
      && end.Some? && end.value.table == Table(After(cfg, s, actions))
      && end.value.certificate == After(cfg, s, actions).certificate
    decreases |actions|
  {
    hide Apply, Observed, GateInv, CertificateInv, CacheInv, Enabled, Table, Allowed, Effect, Live, EndsOk, NextEnds, Age;
    if actions != [] {
      var s', now := Apply(cfg, s, actions[0]), Observed(cfg, s, actions[0]);
      var rest := History(cfg, s', actions[1..]);
      StepRefines(cfg, s, actions[0], ends);
      EndsStep(cfg, s, actions[0], ends);
      InvStep(cfg, s, actions[0]);
      LinearizableFrom(cfg, s', actions[1..], NextEnds(now, ends));
      if |now| == 0 {
        assert now + rest == rest;
      } else {
        assert (now + rest)[0] == now[0] && (now + rest)[1..] == rest;
      }
    }
  }

  lemma InvStep(cfg: Config, s: State, a: Action)
    requires Inv(cfg, s) && Enabled(s, a)
    ensures Inv(cfg, Apply(cfg, s, a))
  {
    hide Apply, GateInv, CertificateInv, CacheInv, Enabled;
    GateStep(cfg, s, a);
    CertificateStep(cfg, s, a);
    CacheStep(cfg, s, a);
  }

  // ---------------------------------------------------------------- each call exactly once

  function CallsOf(c: nat, events: seq<Event>): seq<Event> {
    if events == [] then []
    else (if events[0].Call? && events[0].c == c then [events[0]] else []) + CallsOf(c, events[1..])
  }

  predicate Decided(s: State, c: nat) {
    c in s.clients && ReplyOf(s.clients[c].phase).Some?
  }

  /** The calls observed for a client between two states: one, with its request and its reply, if
      its reply was decided between them, and otherwise none. */
  predicate Accounts(s: State, s': State, c: nat, calls: seq<Event>) {
    if Decided(s, c) then
      && calls == [] && Decided(s', c) && s'.clients[c].request == s.clients[c].request
      && ReplyOf(s'.clients[c].phase) == ReplyOf(s.clients[c].phase)
    else if Decided(s', c) then
      |calls| == 1 && calls[0].Call? && calls[0].c == c && calls[0].request == s'.clients[c].request &&
      ReplyOf(s'.clients[c].phase) == Some(calls[0].reply)
    else calls == []
  }

  /** A step decides a client's reply exactly when it is observed as that client's call; before it
      the client has arrived, and a decided reply never changes. */
  lemma DecidedOnce(cfg: Config, s: State, a: Action, c: nat)
    requires Enabled(s, a)
    ensures Accounts(s, Apply(cfg, s, a), c, CallsOf(c, Observed(cfg, s, a)))
    ensures CallsOf(c, Observed(cfg, s, a)) != [] ==> c in s.clients
    ensures c in s.clients ==>
      c in Apply(cfg, s, a).clients && Apply(cfg, s, a).clients[c].request == s.clients[c].request
  {
    hide Apply, Enabled, ReplyOf;
    var s' := Apply(cfg, s, a);
    if a.Tick? {
      TickOnly(cfg, s, a);
      CallsOfOne(c, Time(s'.clock));
    } else {
      OneMoves(cfg, s, a);
      MovedClient(cfg, s, a);
      CallsOfOne(c, Call(a.c, s'.clients[a.c].request,
                         if ReplyOf(s'.clients[a.c].phase).Some? then ReplyOf(s'.clients[a.c].phase).value else Busy,
                         if a.Put? && s.calls != [] then
                           Made(s.calls[|s.calls| - 1].started, s.calls[|s.calls| - 1].finished,
                                s.clients[a.c].phase.entry.expiresAt)
                         else NOT_MADE));
    }
  }

  lemma CallsOfOne(c: nat, e: Event)
    ensures CallsOf(c, [e]) == (if e.Call? && e.c == c then [e] else []) && CallsOf(c, []) == []
  {
    assert [e][1..] == [];
  }

  lemma MovedClient(cfg: Config, s: State, a: Action)
    requires Enabled(s, a) && !a.Tick?
    ensures var s' := Apply(cfg, s, a);
      && (a.Put? ==> a.c in s.clients && s.clients[a.c].phase.Storing?)
      && (if a.Arrive? then a.c !in s.clients && ReplyOf(s'.clients[a.c].phase) == None
          else a.c in s.clients && s'.clients[a.c].request == s.clients[a.c].request &&
               (Decided(s, a.c) ==> ReplyOf(s'.clients[a.c].phase) == ReplyOf(s.clients[a.c].phase)))
  {
  }

  lemma {:induction false} CallsOfConcat(c: nat, a: seq<Event>, b: seq<Event>)
    ensures CallsOf(c, a + b) == CallsOf(c, a) + CallsOf(c, b)
  {
    if a == [] {
      assert a + b == b;
    } else {
      Cons(a, b);
      CallsOfConcat(c, a[1..], b);
      Assoc(if a[0].Call? && a[0].c == c then [a[0]] else [], CallsOf(c, a[1..]), CallsOf(c, b));
    }
  }

  /** Over a run, an undecided client's call occurs once if it has been decided by the end, with
      the client's request and the reply it got, and not at all otherwise. */
  lemma {:induction false} CallsOnce(cfg: Config, s: State, actions: seq<Action>, c: nat)
    requires Run(cfg, s, actions)
    ensures Accounts(s, After(cfg, s, actions), c, CallsOf(c, History(cfg, s, actions)))
    decreases |actions|
  {
    hide Apply, Observed, Enabled, CallsOf, ReplyOf;
    if actions == [] {
      NoCalls(c);
    } else {
      var s', now := Apply(cfg, s, actions[0]), Observed(cfg, s, actions[0]);
      DecidedOnce(cfg, s, actions[0], c);
      CallsOnce(cfg, s', actions[1..], c);
      CallsOfConcat(c, now, History(cfg, s', actions[1..]));
    }
  }

  lemma NoCalls(c: nat)
    ensures CallsOf(c, []) == []
  {
  }

  /** The main result: for every interleaving of any number of clients, with every outcome, the
      calls in the order in which they take effect are a run of the atomic specification, which ends
      in what the cache and the certificate pointer then hold; and each client's call occurs in it
      exactly once if its reply is decided, with its request and its reply, and not before it
      arrived. */
  lemma Linearizable(cfg: Config, actions: seq<Action>, c: nat)
    requires Run(cfg, INIT, actions)
    ensures var end := SpecRun(cfg, EMPTY, 0, History(cfg, INIT, actions));
      && end.Some? && end.value.table == Table(After(cfg, INIT, actions))
      && end.value.certificate == After(cfg, INIT, actions).certificate
    ensures Accounts(INIT, After(cfg, INIT, actions), c, CallsOf(c, History(cfg, INIT, actions)))
  {
    hide SpecRun, History, After, Run, CallsOf, ReplyOf;
    InitialState(cfg);
    LinearizableFrom(cfg, INIT, actions, map[]);
    CallsOnce(cfg, INIT, actions, c);
    assert Table(INIT) == map[];
  }

  // ---------------------------------------------------------------- what the specification promises

  predicate NothingLaterThan(events: seq<Event>, limit: int) {
    events == [] || ((events[0].Time? ==> events[0].now <= limit) && NothingLaterThan(events[1..], limit))
  }

  /** The reply an idempotent signer must give while an entry counts: its signature, to the same
      digest only, and never anything that comes of asking the chip. */
  predicate Repeats(cfg: Config, entry: Entry, id: string, e: Event) {
    e.Call? && e.request.Sign? && e.request.id == id ==>
      && (e.reply.Signed? ==>
          e.reply.cached && e.reply.signature == entry.signature && cfg.digest(e.request.challenge) == entry.digest)
      && (e.reply.Reused? ==> cfg.digest(e.request.challenge) != entry.digest)
      && !e.reply.HardwareError?
  }

  predicate AllRepeat(cfg: Config, entry: Entry, id: string, events: seq<Event>) {
    events == [] || (Repeats(cfg, entry, id, events[0]) && AllRepeat(cfg, entry, id, events[1..]))
  }

  /** While an entry counts, the specification answers its request id with that signature, refuses
      other challenges, and never goes to the chip. */
  lemma {:induction false} SpecIsIdempotent(cfg: Config, spec: Spec, now: int, events: seq<Event>, id: string)
    requires id in spec.table && now <= spec.table[id].expiresAt
    requires SpecRun(cfg, spec, now, events).Some? && NothingLaterThan(events, spec.table[id].expiresAt)
    ensures AllRepeat(cfg, spec.table[id], id, events)
    ensures var end := SpecRun(cfg, spec, now, events).value; id in end.table && end.table[id] == spec.table[id]
    decreases |events|
  {
    if events != [] {
      var e := events[0];
      if e.Time? {
        SpecIsIdempotent(cfg, Age(spec, e.now), e.now, events[1..], id);
      } else {
        SpecIsIdempotent(cfg, Age(Effect(cfg, spec, e), now), now, events[1..], id);
      }
    }
  }

  /** The chip is asked for every fresh signature for this id later than that. */
  predicate AllBeginAfter(id: string, time: int, events: seq<Event>) {
    events == [] ||
    ((Fresh(events[0]) && events[0].request.id == id ==> time < events[0].made.began) &&
     AllBeginAfter(id, time, events[1..]))
  }

  /** The specification never makes two signatures for one id within the lifetime of an entry. */
  lemma {:induction false} SpecSpacesSignatures(cfg: Config, spec: Spec, now: int, events: seq<Event>, id: string, end: int)
    requires id in spec.ends && end <= spec.ends[id]
    requires SpecRun(cfg, spec, now, events).Some?
    ensures AllBeginAfter(id, end + 60_000_000_000, events)
    decreases |events|
  {
    if events != [] {
      var e := events[0];
      if e.Time? {
        SpecSpacesSignatures(cfg, Age(spec, e.now), e.now, events[1..], id, end);
      } else {
        SpecSpacesSignatures(cfg, Age(Effect(cfg, spec, e), now), now, events[1..], id, end);
      }
    }
  }
}
