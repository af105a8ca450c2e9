/** The concurrent service: any number of clients signing, reading the certificate and probing,
    as a transition system over its atomic steps.

    Every access to the cache, the gate's channel, its holder and the certificate pointer is one
    step, and so are the begin and the end of each chip call.  Steps of different clients
    interleave freely; time passes between steps.  Which of the enabled cases of a select fires,
    what the chip answers, and when, is up to the run. */
module Service {
  import opened Outcome
  import opened Wire
  import opened Shared

  /** What the service takes from libraries: SHA-256, Base64, hexadecimal SHA-256 and UUID syntax. */
  datatype Config = Config(digest: seq<Byte> -> seq<Byte>, base64: seq<Byte> -> string,
                           sha256Hex: seq<Byte> -> string, isUuid: string -> bool)

  datatype Certificate = Certificate(major: Byte, data: seq<Byte>, base64: string, sha256: string)

  datatype Request = Sign(id: string, challenge: seq<Byte>) | ReadCertificate | Probe

  datatype Reply =
    | BadFormat
    | BadSize
    | Busy
    | Cancelled
    | HardwareError
    | Reused
    | Signed(signature: seq<Byte>, cached: bool)
    | Certified(certificate: Certificate, cached: bool)
    | Probed(major: Byte)

  /** Where a client is.  From `Named` to `Clearing` its name stands in the gate, from `Granted`
      to `Returning` its token. */
  datatype Phase =
    | Arrived
    | Looking
    | Waiting
    | Granted
    | Named
    | Calling
    | InChip(started: int)
    | MajorKnown(major: Byte)
    | SignedAt(signature: seq<Byte>)
    | Storing(entry: Entry)
    | StoringCertificate(certificate: Certificate)
    | Clearing(reply: Reply)
    | Returning(reply: Reply)
    | Finished(reply: Reply)

  datatype Client = Client(request: Request, phase: Phase)

  /** A signature the chip made: for whom, of what, and from when to when. */
  datatype ChipCall = ChipCall(id: string, challenge: seq<Byte>, signature: seq<Byte>, started: int, finished: int)

  datatype State = State(
    clock: int,
    gate: Gate,
    entries: Entries,
    certificate: Option<Certificate>,
    clients: map<nat, Client>,
    calls: seq<ChipCall>,
    certificateStores: nat)

  datatype Action =
    | Tick(duration: nat)
    | Arrive(c: nat, request: Request)
    | Validate(c: nat)
    | Look(c: nat)
    | Acquire(c: nat)
    | GiveUp(c: nat, timedOut: bool)
    | TakeName(c: nat)
    | LookAgain(c: nat)
    | CallChip(c: nat)
    | ChipFails(c: nat)
    | ChipSigns(c: nat, signature: seq<Byte>)
    | ChipTellsMajor(c: nat, major: Byte)
    | ChipTellsCertificate(c: nat, data: seq<Byte>)
    | Stamp(c: nat)
    | Put(c: nat)
    | StoreCertificate(c: nat)
    | ClearName(c: nat)
    | ReturnToken(c: nat)

  const INIT := State(0, OPEN_GATE, map[], None, map[], [], 0)


  predicate Enabled(s: State, a: Action) {
    match a
    case Tick(_) => true
    case Arrive(c, _) => c !in s.clients
    case Validate(c) => c in s.clients && s.clients[c].phase.Arrived?
    case Look(c) => c in s.clients && s.clients[c].phase.Looking?
    case Acquire(c) => c in s.clients && s.clients[c].phase.Waiting? && s.gate.token == None
    case GiveUp(c, _) => c in s.clients && s.clients[c].phase.Waiting?
    case TakeName(c) => c in s.clients && s.clients[c].phase.Granted?
    case LookAgain(c) => c in s.clients && s.clients[c].phase.Named?
    case CallChip(c) => c in s.clients && s.clients[c].phase.Calling?
    case ChipFails(c) => c in s.clients && (s.clients[c].phase.InChip? || s.clients[c].phase.MajorKnown?)
    case ChipSigns(c, _) => c in s.clients && s.clients[c].phase.InChip? && s.clients[c].request.Sign?
    case ChipTellsMajor(c, _) => c in s.clients && s.clients[c].phase.InChip? && !s.clients[c].request.Sign?
    case ChipTellsCertificate(c, _) => c in s.clients && s.clients[c].phase.MajorKnown?
    case Stamp(c) => c in s.clients && s.clients[c].phase.SignedAt? && s.clients[c].request.Sign?
    case Put(c) => c in s.clients && s.clients[c].phase.Storing? && s.clients[c].request.Sign?
    case StoreCertificate(c) => c in s.clients && s.clients[c].phase.StoringCertificate?
    case ClearName(c) => c in s.clients && s.clients[c].phase.Clearing?
    case ReturnToken(c) => c in s.clients && s.clients[c].phase.Returning?
  }

  function Move(s: State, c: nat, phase: Phase): State
    requires c in s.clients
  {
    s.(clients := s.clients[c := s.clients[c].(phase := phase)])
  }

  function HolderName(r: Request): string {
    match r
    case Sign(id, _) => id
    case ReadCertificate => "certificate"
    case Probe => "startup-probe"
  }

  /** cachedResult in the source. */
  function CachedReply(entry: Entry, digest: seq<Byte>): Reply {
    if entry.digest != digest then Reused else Signed(entry.signature, true)
  }

  /** Both looks into the cache or the certificate pointer: a reply, or where to go without one. */
  function LookedUp(cfg: Config, s: State, c: nat, hit: Reply -> Phase, miss: Phase): State
    requires c in s.clients
  {
    match s.clients[c].request
    case Sign(id, challenge) =>
      var (found, entries) := Lookup(s.entries, id, s.clock);
      var s1 := s.(entries := entries);
      if found.Some? then Move(s1, c, hit(CachedReply(found.value, cfg.digest(challenge)))) else Move(s1, c, miss)
    case ReadCertificate =>
      if s.certificate.Some? then Move(s, c, hit(Certified(s.certificate.value, true))) else Move(s, c, miss)
    case Probe => Move(s, c, miss)
  }

  function Apply(cfg: Config, s: State, a: Action): State
    requires Enabled(s, a)
  {
    match a
    case Tick(d) => s.(clock := s.clock + d)
    case Arrive(c, request) => s.(clients := s.clients[c := Client(request, Arrived)])
    case Validate(c) =>
      (match s.clients[c].request
       case Sign(id, challenge) =>
         if !cfg.isUuid(id) then Move(s, c, Finished(BadFormat))
         else if |challenge| < 1 || |challenge| > 128 then Move(s, c, Finished(BadSize))
         else Move(s, c, Looking)
       case ReadCertificate => Move(s, c, Looking)
       case Probe => Move(s, c, Waiting))
    case Look(c) => LookedUp(cfg, s, c, r => Finished(r), Waiting)
    case Acquire(c) => Move(s.(gate := s.gate.(token := Some(c))), c, Granted)
    case GiveUp(c, timedOut) => Move(s, c, Finished(if timedOut then Busy else Cancelled))
    case TakeName(c) =>
      Move(s.(gate := s.gate.(holder := HolderName(s.clients[c].request), acquired := s.clock)), c, Named)
    case LookAgain(c) => LookedUp(cfg, s, c, r => Clearing(r), Calling)
    case CallChip(c) => Move(s, c, InChip(s.clock))
    case ChipFails(c) => Move(s, c, Clearing(HardwareError))
    case ChipSigns(c, signature) =>
      var call := ChipCall(s.clients[c].request.id, s.clients[c].request.challenge, signature,
                           s.clients[c].phase.started, s.clock);
      Move(s.(calls := s.calls + [call]), c, SignedAt(signature))
    case ChipTellsMajor(c, major) =>
      Move(s, c, if s.clients[c].request.Probe? then Clearing(Probed(major)) else MajorKnown(major))
    case ChipTellsCertificate(c, data) =>
      Move(s, c, StoringCertificate(Certificate(s.clients[c].phase.major, data, cfg.base64(data), cfg.sha256Hex(data))))
    case Stamp(c) =>
      Move(s, c, Storing(Entry(cfg.digest(s.clients[c].request.challenge), s.clients[c].phase.signature,
                               s.clock + CACHE_TTL)))
    case Put(c) =>
      var entry := s.clients[c].phase.entry;
      Move(s.(entries := s.entries[s.clients[c].request.id := entry]), c, Clearing(Signed(entry.signature, false)))
    case StoreCertificate(c) =>
      var k := s.clients[c].phase.certificate;
      Move(s.(certificate := Some(k), certificateStores := s.certificateStores + 1), c, Clearing(Certified(k, false)))
    case ClearName(c) =>
      Move(s.(gate := s.gate.(holder := "", acquired := 0)), c, Returning(s.clients[c].phase.reply))
    case ReturnToken(c) =>
      Move(s.(gate := s.gate.(token := None)), c, Finished(s.clients[c].phase.reply))
  }

  // ---------------------------------------------------------------- runs

  predicate Run(cfg: Config, s: State, actions: seq<Action>)
    decreases |actions|
  {
    actions == [] || (Enabled(s, actions[0]) && Run(cfg, Apply(cfg, s, actions[0]), actions[1..]))
  }

  function After(cfg: Config, s: State, actions: seq<Action>): State
    requires Run(cfg, s, actions)
    decreases |actions|
  {
    if actions == [] then s else After(cfg, Apply(cfg, s, actions[0]), actions[1..])
  }
}
