/** The service's methods over its shared objects.  Calls that come and go while another one waits
    at the gate, or holds it and waits for the chip, are nested in it; every execution is a run of
    the transition system in Service, step by step. */
module Signing {
  import opened Outcome
  import opened Wire
  import opened Shared
  import opened Service
  import opened ServiceSafety

  /** How the select in acquire ends, if it can: a grant takes an empty channel, and while another call
      holds the token to the end the timer fires instead. */
  datatype Wait = Grant | TimeOut | Cancel

  /** A call and what happens to it: the calls that run while it waits at the gate and while it waits
      for the chip, how the wait ends, and what the chip answers, each with the time it takes. */
  datatype Job = Job(request: Request, meanwhile: seq<Job>, waited: nat, wait: Wait,
                     during: seq<Job>, calling: nat, major: Option<Byte>, answer: Option<seq<Byte>>)

  /** With the channel full to the end, nothing but the timer or the cancellation fires. */
  function FullGate(wait: Wait): Wait {
    if wait.Grant? then TimeOut else wait
  }

  /** The entry under an id that still counts. */
  function Counting(entries: Entries, id: string, now: int): Option<Entry> {
    if id in entries && now <= entries[id].expiresAt then Some(entries[id]) else None
  }

  /** What an entry that still counts makes of a call: its signature again, or a refused reuse. */
  predicate RepliesFrom(entry: Entry, digest: seq<Byte>, reply: Reply) {
    reply == if entry.digest == digest then Signed(entry.signature, true) else Reused
  }

  lemma CachedIs(entry: Entry, digest: seq<Byte>)
    ensures RepliesFrom(entry, digest, CachedReply(entry, digest))
  {
  }

  /** Why the gate is not granted. */
  function Refusal(wait: Wait, token: Option<nat>): Option<Reply> {
    if wait.Cancel? then Some(Cancelled)
    else if wait.TimeOut? || token.Some? then Some(Busy)
    else None
  }

  /** What the chip's answer to the signing call makes of it. */
  function SignedBy(answer: Option<seq<Byte>>): Reply {
    match answer
    case None => HardwareError
    case Some(signature) => Signed(signature, false)
  }

  /** What the chip's answers make of a call for the certificate. */
  function CertifiedBy(cfg: Config, major: Option<Byte>, answer: Option<seq<Byte>>): Reply {
    if major == None || answer == None then HardwareError
    else Certified(Certificate(major.value, answer.value, cfg.base64(answer.value), cfg.sha256Hex(answer.value)), false)
  }

  /** A reply that needed the chip is what the chip answered to this call. */
  predicate Answered(cfg: Config, job: Job, reply: Reply) {
    match job.request
    case Sign(_, _) =>
      (reply.HardwareError? || (reply.Signed? && !reply.cached) ==> reply == SignedBy(job.answer)) && !reply.Certified? && !reply.Probed?
    case ReadCertificate =>
      (reply.HardwareError? || (reply.Certified? && !reply.cached) ==> reply == CertifiedBy(cfg, job.major, job.answer)) &&
      (reply.HardwareError? || reply.Certified? || reply.Busy? || reply.Cancelled?)
    case Probe =>
      reply == Busy || reply == Cancelled ||
      reply == if job.major == None then HardwareError else Probed(job.major.value)
  }

  /** A run from one state to another. */
  ghost predicate Leads(cfg: Config, s: State, actions: seq<Action>, s': State) {
    Run(cfg, s, actions) && After(cfg, s, actions) == s'
  }

  lemma {:induction false} LeadsFurther(cfg: Config, s: State, actions: seq<Action>, s': State, a: Action)
    requires Leads(cfg, s, actions, s') && Enabled(s', a)
    ensures Leads(cfg, s, actions + [a], Apply(cfg, s', a))
    decreases |actions|
  {
    hide Enabled, Apply;
    if actions == [] {
      assert actions + [a] == [a] && [a][1..] == [];
      assert Run(cfg, Apply(cfg, s, a), []) && After(cfg, Apply(cfg, s, a), []) == Apply(cfg, s, a);
      assert Run(cfg, s, [a]);
    } else {
      var next := Apply(cfg, s, actions[0]);
      LeadsFurther(cfg, next, actions[1..], s', a);
      assert (actions + [a])[1..] == actions[1..] + [a];
    }
  }

  /** What Apply does in one step to the client that takes it, and to the rest. */
  lemma StepFacts(cfg: Config, s: State, a: Action)
    requires Enabled(s, a)
    ensures a.Tick? ==> Apply(cfg, s, a) == s.(clock := s.clock + a.duration)
    ensures a.Acquire? ==> Apply(cfg, s, a) == Move(s.(gate := s.gate.(token := Some(a.c))), a.c, Granted)
    ensures a.GiveUp? ==> Apply(cfg, s, a) == Move(s, a.c, Finished(if a.timedOut then Busy else Cancelled))
    ensures a.TakeName? ==>
      Apply(cfg, s, a) ==
        Move(s.(gate := s.gate.(holder := HolderName(s.clients[a.c].request), acquired := s.clock)), a.c, Named)
    ensures a.ClearName? ==>
      Apply(cfg, s, a) ==
        Move(s.(gate := s.gate.(holder := "", acquired := 0)), a.c, Returning(s.clients[a.c].phase.reply))
    ensures a.ReturnToken? ==>
      Apply(cfg, s, a) == Move(s.(gate := s.gate.(token := None)), a.c, Finished(s.clients[a.c].phase.reply))
    ensures a.CallChip? ==> Apply(cfg, s, a) == Move(s, a.c, InChip(s.clock))
    ensures a.Stamp? ==>
      Apply(cfg, s, a) ==
        Move(s, a.c, Storing(Entry(cfg.digest(s.clients[a.c].request.challenge), s.clients[a.c].phase.signature,
                                   s.clock + CACHE_TTL)))
    ensures a.ChipFails? ==> Apply(cfg, s, a) == Move(s, a.c, Clearing(HardwareError))
    ensures a.ChipTellsMajor? ==>
      Apply(cfg, s, a) == Move(s, a.c, if s.clients[a.c].request.Probe? then Clearing(Probed(a.major)) else MajorKnown(a.major))
  {
  }

  class SigningService {
    const cfg: Config
    const cache: SignatureCache
    const gate: ChipGate
    var certificate: Option<Certificate>
    /** What time.Now reads. */
    var clock: int
    var clients: nat
    /** The state of the transition system, and the steps to it. */
    ghost var model: State
    ghost var steps: seq<Action>

    constructor (cfg: Config)
      ensures Agrees() && fresh(cache) && fresh(gate) && Numbered() && gate.State() == OPEN_GATE && model == INIT && this.cfg == cfg
    {
      this.cfg := cfg;
      cache := new SignatureCache();
      gate := new ChipGate();
      certificate, clock, clients, model, steps := None, 0, 0, INIT, [];
    }

    /** The objects hold what the transition system holds, in a state it reaches. */
    ghost predicate Agrees()
      reads this, cache, gate
    {
      && model.gate == gate.State() && model.entries == cache.entries && model.certificate == certificate
      && model.clock == clock && (gate.token == None ==> gate.State() == OPEN_GATE)
      && Leads(cfg, INIT, steps, model)
    }

    /** Client `c` is in this phase of this request. */
    ghost predicate At(c: nat, request: Request, phase: Phase)
      reads this
    {
      c in model.clients && model.clients[c] == Client(request, phase)
    }

    ghost method Step(a: Action)
      requires Leads(cfg, INIT, steps, model) && Enabled(model, a)
      modifies this`model, this`steps
      ensures model == Apply(cfg, old(model), a) && Leads(cfg, INIT, steps, model)
    {
      LeadsFurther(cfg, INIT, steps, model, a);
      steps, model := steps + [a], Apply(cfg, model, a);
    }

    method Pass(duration: nat)
      requires Agrees()
      modifies this`clock, this`model, this`steps
      ensures Agrees() && model == old(model).(clock := old(model).clock + duration)
    {
      hide Leads, Apply;
      StepFacts(cfg, model, Tick(duration));
      clock := clock + duration;
      Step(Tick(duration));
    }

    /** acquire once the select fires: only a grant touches the gate. */
    method Acquire(c: nat, name: string, wait: Wait) returns (refused: Option<Reply>)
      requires Agrees() && c in model.clients && model.clients[c].phase == Waiting
      requires name == HolderName(model.clients[c].request)
      requires wait.Grant? ==> gate.token == None
      modifies this`model, this`steps, gate
      ensures Agrees()
      ensures refused == match wait case Grant => None case TimeOut => Some(Busy) case Cancel => Some(Cancelled)
      ensures var phase := if wait.Grant? then Named else Finished(refused.value);
        model == old(model).(
          gate := if wait.Grant? then Gate(Some(c), name, clock) else old(model).gate,
          clients := old(model).clients[c := old(model).clients[c].(phase := phase)])
    {
      hide Leads, Apply;
      if wait.Grant? {
        var sent := gate.TrySend(c);
        StepFacts(cfg, model, Service.Acquire(c));
        Step(Service.Acquire(c));
        gate.Name(name, clock);
        StepFacts(cfg, model, TakeName(c));
        Step(TakeName(c));
        return None;
      }
      StepFacts(cfg, model, GiveUp(c, wait.TimeOut?));
      Step(GiveUp(c, wait.TimeOut?));
      return Some(if wait.TimeOut? then Busy else Cancelled);
    }

    /** The function acquire returns. */
    method Release(c: nat, ghost reply: Reply)
      requires Agrees() && c in model.clients && model.clients[c].phase == Clearing(reply)
      modifies this`model, this`steps, gate
      ensures Agrees()
      ensures model == old(model).(gate := OPEN_GATE,
        clients := old(model).clients[c := old(model).clients[c].(phase := Finished(reply))])
    {
      hide Leads, Apply;
      gate.Clear();
      StepFacts(cfg, model, ClearName(c));
      Step(ClearName(c));
      gate.Receive();
      StepFacts(cfg, model, ReturnToken(c));
      Step(ReturnToken(c));
    }

    /** A look at the certificate pointer, the first or the second one. */
    method Load(c: nat, ghost again: bool) returns (found: Option<Certificate>)
      requires Agrees() && At(c, ReadCertificate, if again then Named else Looking)
      modifies this`model, this`steps
      ensures Agrees() && model.gate == old(model).gate && found == certificate
      ensures found.Some? ==> var reply := Certified(found.value, true);
        model.clients == old(model).clients[c := Client(ReadCertificate, if again then Clearing(reply) else Finished(reply))]
      ensures found == None ==>
        model.clients == old(model).clients[c := Client(ReadCertificate, if again then Calling else Waiting)]
    {
      hide Leads, CachedReply, Lookup;
      found := certificate;
      Step(if again then LookAgain(c) else Look(c));
    }

    /** A look into the cache, the first or the second one. */
    method Find(c: nat, id: string, ghost challenge: seq<Byte>, ghost again: bool) returns (found: Option<Entry>)
      requires Agrees() && At(c, Sign(id, challenge), if again then Named else Looking)
      modifies this`model, this`steps, cache
      ensures Agrees() && model.gate == old(model).gate
      ensures found == Counting(old(cache.entries), id, clock)
      ensures found == None ==> cache.entries == old(cache.entries) - {id}
      ensures found.Some? ==> var reply := CachedReply(found.value, cfg.digest(challenge));
        model.clients == old(model).clients[c := Client(Sign(id, challenge), if again then Clearing(reply) else Finished(reply))]
      ensures found == None ==>
        model.clients == old(model).clients[c := Client(Sign(id, challenge), if again then Calling else Waiting)]
    {
      hide Leads, CachedReply, Lookup;
      found := cache.Get(id, clock);
      Step(if again then LookAgain(c) else Look(c));
    }

    method Fails(c: nat) returns (reply: Reply)
      requires Agrees() && c in model.clients && (model.clients[c].phase.InChip? || model.clients[c].phase.MajorKnown?)
      modifies this`model, this`steps
      ensures Agrees() && model.gate == old(model).gate && reply == HardwareError
      ensures model.clients == old(model).clients[c := old(model).clients[c].(phase := Clearing(reply))]
    {
      hide Leads, Apply;
      StepFacts(cfg, model, ChipFails(c));
      Step(ChipFails(c));
      return HardwareError;
    }

    /** ProtocolMajor, asked by a reader of the certificate or a probe. */
    method TellMajor(c: nat, major: Byte)
      requires Agrees() && c in model.clients && model.clients[c].phase.InChip? && !model.clients[c].request.Sign?
      modifies this`model, this`steps
      ensures Agrees() && model.gate == old(model).gate
      ensures var phase := if old(model).clients[c].request.Probe? then Clearing(Probed(major)) else MajorKnown(major);
        model.clients == old(model).clients[c := old(model).clients[c].(phase := phase)]
    {
      hide Leads, Apply;
      StepFacts(cfg, model, ChipTellsMajor(c, major));
      Step(ChipTellsMajor(c, major));
    }

    /** The driver's certificate, encoded and stored. */
    method StoreCertificate(c: nat, major: Byte, data: seq<Byte>) returns (reply: Reply)
      requires Agrees() && At(c, ReadCertificate, MajorKnown(major))
      modifies this`model, this`steps, this`certificate
      ensures Agrees() && model.gate == old(model).gate
      ensures certificate == Some(Certificate(major, data, cfg.base64(data), cfg.sha256Hex(data)))
      ensures reply == Certified(certificate.value, false)
      ensures model.clients == old(model).clients[c := Client(ReadCertificate, Clearing(reply))]
    {
      hide Leads;
      Step(ChipTellsCertificate(c, data));
      var stored := Certificate(major, data, cfg.base64(data), cfg.sha256Hex(data));
      certificate := Some(stored);
      Step(Service.StoreCertificate(c));
      return Certified(stored, false);
    }

    method Store(c: nat, id: string, challenge: seq<Byte>, signature: seq<Byte>)
      requires Agrees() && c in model.clients && model.clients[c].request == Sign(id, challenge) && model.clients[c].phase.InChip?
      modifies this`model, this`steps, cache
      ensures Agrees() && model.gate == old(model).gate
      ensures model.clients == old(model).clients[c := Client(Sign(id, challenge), Clearing(Signed(signature, false)))]
      ensures cache.entries == old(cache.entries)[id := Entry(cfg.digest(challenge), signature, clock + 60_000_000_000)]
    {
      hide Leads, Apply;
      var entry := Entry(cfg.digest(challenge), signature, clock + CACHE_TTL);
      SignsFacts(cfg, model, ChipSigns(c, signature));
      Step(ChipSigns(c, signature));
      StepFacts(cfg, model, Stamp(c));
      Step(Stamp(c));
      cache.Put(id, entry);
      PutFacts(cfg, model, Put(c));
      Step(Put(c));
    }

    /** Clients are numbered as they come. */
    ghost predicate Numbered()
      reads this
    {
      forall c | c in model.clients :: c < clients
    }

    /** The clients there were, except for this one, are where they were. */
    twostate predicate OthersKeptBut(c: nat)
      reads this
    {
      old(clients) <= clients && old(clock) <= clock &&
      forall d | d in old(model).clients && d != c :: d in model.clients && model.clients[d] == old(model).clients[d]
    }

    twostate predicate OthersKept()
      reads this
    {
      old(clients) <= clients && old(clock) <= clock &&
      forall d | d in old(model).clients :: d in model.clients && model.clients[d] == old(model).clients[d]
    }

    /** The gate is as it was, and if it was held, so is the certificate. */
    twostate predicate GateKept()
      reads this, gate
    {
      gate.State() == old(gate.State()) && (old(gate.token) != None ==> certificate == old(certificate))
    }

    /** A new client whose request is checked as far as it is before the first look. */
    method Arrives(request: Request) returns (c: nat, refused: Option<Reply>)
      requires Agrees() && Numbered()
      modifies this`clients, this`model, this`steps
      ensures Agrees() && Numbered() && c == old(clients) && clients == c + 1 && model.gate == old(model).gate
      ensures refused ==
        if !request.Sign? then None
        else if !cfg.isUuid(request.id) then Some(BadFormat)
        else if 1 <= |request.challenge| <= 128 then None
        else Some(BadSize)
      ensures var phase :=
          if refused.Some? then Finished(refused.value) else if request.Probe? then Waiting else Looking;
        model.clients == old(model).clients[c := Client(request, phase)]
    {
      hide Leads;
      c, clients := clients, clients + 1;
      Step(Arrive(c, request));
      Step(Validate(c));
      if request.Sign? {
        if !cfg.isUuid(request.id) {
          return c, Some(BadFormat);
        }
        if |request.challenge| < 1 || |request.challenge| > 128 {
          return c, Some(BadSize);
        }
      }
      return c, None;
    }

    /** The wait at the gate, while other calls run. */
    method Wait(c: nat, request: Request, job: Job) returns (refused: Option<Reply>)
      requires Agrees() && Numbered() && At(c, request, Waiting)
      modifies this, cache, gate
      ensures Agrees() && Numbered() && OthersKeptBut(c) && clock >= old(clock) + job.waited
      ensures refused == Refusal(job.wait, old(gate.token))
      ensures refused == None ==>
        old(gate.token) == None && At(c, request, Named) && gate.token == Some(c)
      ensures refused.Some? ==> At(c, request, Finished(refused.value)) && GateKept()
      ensures job.meanwhile == [] ==> cache.entries == old(cache.entries) && certificate == old(certificate)
      decreases job, 1
    {
      hide Leads;
      Others(job, false, 0);
      Pass(job.waited);
      refused := Acquire(c, HolderName(request), if gate.token == None then job.wait else FullGate(job.wait));
    }

    /** The begin of a chip call and the calls that run until its end. */
    method CallChip(c: nat, request: Request, job: Job)
      requires Agrees() && Numbered() && At(c, request, Calling) && gate.token == Some(c)
      modifies this, cache, gate
      ensures Agrees() && Numbered() && OthersKeptBut(c) && GateKept() && clock >= old(clock) + job.calling
      ensures exists started :: At(c, request, InChip(started))
      decreases job, 1
    {
      hide Leads, Apply;
      StepFacts(cfg, model, Service.CallChip(c));
      ghost var started := model.clock;
      Step(Service.CallChip(c));
      Others(job, true, 0);
      Pass(job.calling);
      assert At(c, request, InChip(started));
    }

    /** The cache holds this signature, for a lifetime from now. */
    predicate Stored(id: string, challenge: seq<Byte>, signature: seq<Byte>)
      reads this, cache
    {
      id in cache.entries && cache.entries[id] == Entry(cfg.digest(challenge), signature, clock + 60_000_000_000)
    }

    /** What Sign does while it holds the gate. */
    method SignHolding(c: nat, id: string, challenge: seq<Byte>, job: Job) returns (reply: Reply)
      requires Agrees() && Numbered() && At(c, Sign(id, challenge), Named) && gate.token == Some(c)
      modifies this, cache, gate
      ensures Agrees() && Numbered() && OthersKeptBut(c) && GateKept()
      ensures At(c, Sign(id, challenge), Clearing(reply))
      ensures var live := Counting(old(cache.entries), id, old(clock));
        if live.Some? then RepliesFrom(live.value, cfg.digest(challenge), reply)
        else reply == SignedBy(job.answer) && (job.answer.Some? ==> Stored(id, challenge, job.answer.value))
      decreases job, 2
    {
      hide Leads, CachedReply;
      var found := Find(c, id, challenge, true);
      if found.Some? {
        CachedIs(found.value, cfg.digest(challenge));
        return CachedReply(found.value, cfg.digest(challenge));
      }
      CallChip(c, Sign(id, challenge), job);
      if job.answer == None {
        reply := Fails(c);
        return reply;
      }
      Store(c, id, challenge, job.answer.value);
      return Signed(job.answer.value, false);
    }

    /** What Certificate does while it holds the gate. */
    method CertificateHolding(c: nat, job: Job) returns (reply: Reply)
      requires Agrees() && Numbered() && At(c, ReadCertificate, Named) && gate.token == Some(c)
      modifies this, cache, gate
      ensures Agrees() && Numbered() && OthersKeptBut(c) && gate.State() == old(gate.State())
      ensures At(c, ReadCertificate, Clearing(reply))
      ensures old(certificate).Some? ==> certificate == old(certificate) && reply == Certified(certificate.value, true)
      ensures old(certificate) == None ==>
        && reply == CertifiedBy(cfg, job.major, job.answer)
        && certificate == if reply.Certified? then Some(reply.certificate) else None
      decreases job, 2
    {
      hide Leads;
      var found := Load(c, true);
      if found.Some? {
        return Certified(found.value, true);
      }
      CallChip(c, ReadCertificate, job);
      if job.major == None {
        reply := Fails(c);
        return reply;
      }
      TellMajor(c, job.major.value);
      if job.answer == None {
        reply := Fails(c);
        return reply;
      }
      reply := StoreCertificate(c, job.major.value, job.answer.value);
    }

    method SignChallenge(c: nat, id: string, challenge: seq<Byte>, job: Job) returns (reply: Reply)
      requires Agrees() && Numbered() && At(c, Sign(id, challenge), Looking)
      modifies this, cache, gate
      ensures Agrees() && Numbered() && OthersKeptBut(c) && GateKept()
      ensures At(c, Sign(id, challenge), Finished(reply))
      ensures var live, refusal := Counting(old(cache.entries), id, old(clock)), Refusal(job.wait, old(gate.token));
        if live.Some? then RepliesFrom(live.value, cfg.digest(challenge), reply)
        else if refusal.Some? then reply == refusal.value
        else
          && (reply == SignedBy(job.answer) || (job.meanwhile != [] && (reply == Reused || (reply.Signed? && reply.cached))))
          && (reply.Signed? && !reply.cached ==> Stored(id, challenge, reply.signature))
      decreases job, 3
    {
      hide Leads, CachedReply;
      var found := Find(c, id, challenge, false);
      if found.Some? {
        CachedIs(found.value, cfg.digest(challenge));
        return CachedReply(found.value, cfg.digest(challenge));
      }
      var refused := Wait(c, Sign(id, challenge), job);
      if refused.Some? {
        return refused.value;
      }
      reply := SignHolding(c, id, challenge, job);
      Release(c, reply);
    }

    method GetCertificate(c: nat, job: Job) returns (reply: Reply)
      requires Agrees() && Numbered() && At(c, ReadCertificate, Looking)
      modifies this, cache, gate
      ensures Agrees() && Numbered() && OthersKeptBut(c) && GateKept()
      ensures At(c, ReadCertificate, Finished(reply))
      ensures var refusal := Refusal(job.wait, old(gate.token));
        if old(certificate).Some? then reply == Certified(old(certificate).value, true) && certificate == old(certificate)
        else if refusal.Some? then reply == refusal.value
        else
          && (reply == CertifiedBy(cfg, job.major, job.answer) || (job.meanwhile != [] && reply.Certified? && reply.cached))
          && (reply.Certified? ==> certificate == Some(reply.certificate))
      decreases job, 3
    {
      hide Leads;
      var found := Load(c, false);
      if found.Some? {
        return Certified(found.value, true);
      }
      var refused := Wait(c, ReadCertificate, job);
      if refused.Some? {
        return refused.value;
      }
      reply := CertificateHolding(c, job);
      Release(c, reply);
    }

    method ProbeChip(c: nat, job: Job) returns (reply: Reply)
      requires Agrees() && Numbered() && At(c, Probe, Waiting)
      modifies this, cache, gate
      ensures Agrees() && Numbered() && OthersKeptBut(c) && GateKept()
      ensures At(c, Probe, Finished(reply))
      ensures var refusal := Refusal(job.wait, old(gate.token));
        reply == if refusal.Some? then refusal.value
                 else if job.major == None then HardwareError
                 else Probed(job.major.value)
      decreases job, 3
    {
      hide Leads;
      var refused := Wait(c, Probe, job);
      if refused.Some? {
        return refused.value;
      }
      PassBy(c);
      CallChip(c, Probe, job);
      if job.major == None {
        reply := Fails(c);
      } else {
        TellMajor(c, job.major.value);
        reply := Probed(job.major.value);
      }
      Release(c, reply);
    }

    /** A probe has no second look. */
    ghost method PassBy(c: nat)
      requires Agrees() && At(c, Probe, Named)
      modifies this`model, this`steps
      ensures Agrees() && model == Move(old(model), c, Calling)
    {
      hide Leads;
      Step(LookAgain(c));
    }

    /** One call, from its arrival to its reply, whoever holds the gate. */
    method Serve(job: Job) returns (c: nat, reply: Reply)
      requires Agrees() && Numbered()
      modifies this, cache, gate
      ensures Agrees() && Numbered() && OthersKept() && GateKept()
      ensures old(clients) <= c < clients && At(c, job.request, Finished(reply))
      ensures Answered(cfg, job, reply)
      ensures job.request.Sign? && reply.Signed? && !reply.cached ==>
        Stored(job.request.id, job.request.challenge, reply.signature)
      ensures job.request.Sign? && cfg.isUuid(job.request.id) && 1 <= |job.request.challenge| <= 128 ==>
        var live := Counting(old(cache.entries), job.request.id, old(clock));
        live.Some? ==> RepliesFrom(live.value, cfg.digest(job.request.challenge), reply)
      ensures reply == BadFormat <==> job.request.Sign? && !cfg.isUuid(job.request.id)
      ensures reply == BadSize <==>
        job.request.Sign? && cfg.isUuid(job.request.id) && !(1 <= |job.request.challenge| <= 128)
      ensures job.request.ReadCertificate? && old(certificate).Some? ==> reply == Certified(old(certificate).value, true)
      ensures job.request.ReadCertificate? && reply.Certified? ==> certificate == Some(reply.certificate)
      ensures reply.Busy? || reply.Cancelled? ==> Refusal(job.wait, old(gate.token)) == Some(reply)
      decreases job, 4
    {
      hide Leads;
      var refused;
      c, refused := Arrives(job.request);
      if refused.Some? {
        return c, refused.value;
      }
      match job.request {
        case Sign(id, challenge) => reply := SignChallenge(c, id, challenge, job);
        case ReadCertificate => reply := GetCertificate(c, job);
        case Probe => reply := ProbeChip(c, job);
      }
    }

    /** The calls that run while this one waits at the gate or for the chip. */
    method Others(job: Job, during: bool, i: nat)
      requires i <= |if during then job.during else job.meanwhile|
      requires Agrees() && Numbered()
      modifies this, cache, gate
      ensures Agrees() && Numbered() && OthersKept() && GateKept()
      ensures i == |if during then job.during else job.meanwhile| ==>
        cache.entries == old(cache.entries) && certificate == old(certificate)
      decreases job, 0, |if during then job.during else job.meanwhile| - i
    {
      hide Leads;
      var jobs := if during then job.during else job.meanwhile;
      if i < |jobs| {
        var _, _ := Serve(jobs[i]);
        Others(job, during, i + 1);
      }
    }

    /** What diagnostics show: how many entries the cache holds, expired ones included; and a name in the
        gate is that of the client with the token, and has been there for no negative time. */
    method Runtime() returns (entries: nat, name: string, held: int)
      requires Agrees()
      ensures entries == |model.entries| && |Live(model.entries, clock)| <= entries
      ensures name != "" ==>
        && model.gate.token.Some? && model.gate.token.value in model.clients
        && var k := model.clients[model.gate.token.value];
           HasName(k.phase) && name == HolderName(k.request)
      ensures forall c | c in model.clients && HasName(model.clients[c].phase) :: name == HolderName(model.clients[c].request)
      ensures forall c | c in model.clients && HasName(model.clients[c].phase) ::
        match model.clients[c].request
        case Sign(id, _) => name == id
        case ReadCertificate => name == "certificate"
        case Probe => name == "startup-probe"
      ensures 0 <= held && held == if name == "" then 0 else clock - model.gate.acquired
    {
      InitialState(cfg);
      InvariantOverRuns(cfg, INIT, steps);
      AcquiredInThePast(cfg, INIT, steps);
      hide Run, After, CertificateInv, CacheInv;
      name, held := gate.Status(clock);
      entries := cache.Len();
      LiveIsPart(model.entries, clock);
    }
  }
}
