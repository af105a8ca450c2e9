/** What holds in every reachable state of the service. */
module ServiceSafety {
  import opened Outcome
  import opened Wire
  import opened Shared
  import opened Service

  /** Between taking the token and returning it. */
  predicate Holding(p: Phase) {
    p.Granted? || HasName(p) || p.Returning?
  }

  /** Between taking the holder's name and clearing it. */
  predicate HasName(p: Phase) {
    p.Named? || InCriticalSection(p) || p.Clearing?
  }

  predicate InCriticalSection(p: Phase) {
    p.Calling? || InChipOperation(p) || p.SignedAt? || p.Storing? || p.StoringCertificate?
  }

  predicate InChipOperation(p: Phase) {
    p.InChip? || p.MajorKnown?
  }

  function ReplyOf(p: Phase): Option<Reply> {
    match p
    case Clearing(r) => Some(r)
    case Returning(r) => Some(r)
    case Finished(r) => Some(r)
    case _ => None
  }

  predicate Fits(k: Client) {
    && (k.phase.SignedAt? || k.phase.Storing? ==> k.request.Sign?)
    && (k.phase.MajorKnown? || k.phase.StoringCertificate? ==> k.request.ReadCertificate?)
  }

  // ---------------------------------------------------------------- the gate

  /** The channel is full exactly while one client lies between its grant and its release, and the
      name in the gate is that client's exactly between taking and clearing it. */
  ghost predicate GateInv(s: State) {
    && (forall c | c in s.clients :: (Holding(s.clients[c].phase) <==> s.gate.token == Some(c)) && Fits(s.clients[c]))
    && (s.gate.token.Some? ==> s.gate.token.value in s.clients)
    && s.gate.holder == NameInGate(s)
  }

  function NameInGate(s: State): string {
    if s.gate.token.Some? && s.gate.token.value in s.clients && HasName(s.clients[s.gate.token.value].phase)
    then HolderName(s.clients[s.gate.token.value].request)
    else ""
  }

  /** A step that moves one client and leaves it on the same side of the gate. */
  lemma GateMove(s: State, s': State, c: nat, phase: Phase)
    requires GateInv(s) && c in s.clients && Fits(s.clients[c].(phase := phase))
    requires s'.gate == s.gate && s'.clients == Move(s, c, phase).clients
    requires Holding(phase) == Holding(s.clients[c].phase) && HasName(phase) == HasName(s.clients[c].phase)
    ensures GateInv(s')
  {
    hide Holding, HasName, HolderName;
    assert forall d | d in s'.clients :: d in s.clients && (d != c ==> s'.clients[d] == s.clients[d]);
  }

  lemma GateStep(cfg: Config, s: State, a: Action)
    requires GateInv(s) && Enabled(s, a)
    ensures GateInv(Apply(cfg, s, a))
  {
    if a.Tick? || a.Arrive? {
      GateArrives(cfg, s, a);
    } else if a.Acquire? || a.TakeName? || a.ClearName? || a.ReturnToken? {
      GateChanges(cfg, s, a);
    } else {
      var s' := Apply(cfg, s, a);
      hide Holding, HasName, GateInv;
      GateStays(cfg, s, a);
      GateMove(s, s', a.c, s'.clients[a.c].phase);
    }
  }

  lemma GateArrives(cfg: Config, s: State, a: Action)
    requires GateInv(s) && Enabled(s, a) && (a.Tick? || a.Arrive?)
    ensures GateInv(Apply(cfg, s, a))
  {
    hide LookedUp, CachedReply, HolderName;
  }

  lemma GateChanges(cfg: Config, s: State, a: Action)
    requires GateInv(s) && Enabled(s, a)
    requires a.Acquire? || a.TakeName? || a.ClearName? || a.ReturnToken?
    ensures GateInv(Apply(cfg, s, a))
  {
    hide LookedUp, CachedReply, HolderName;
  }

  lemma GateStays(cfg: Config, s: State, a: Action)
    requires GateInv(s) && Enabled(s, a)
    requires !(a.Tick? || a.Arrive? || a.Acquire? || a.TakeName? || a.ClearName? || a.ReturnToken?)
    ensures a.c in s.clients
    ensures var s' := Apply(cfg, s, a);
      && s'.gate == s.gate && a.c in s'.clients && s'.clients == Move(s, a.c, s'.clients[a.c].phase).clients
    ensures var k, k' := s.clients[a.c], Apply(cfg, s, a).clients[a.c];
      Holding(k'.phase) == Holding(k.phase) && HasName(k'.phase) == HasName(k.phase) && Fits(k')
  {
    hide GateInv;
    assert Fits(s.clients[a.c]) by { FitsThere(s, a.c); }
  }

  lemma FitsThere(s: State, c: nat)
    requires GateInv(s) && c in s.clients
    ensures Fits(s.clients[c])
  {
  }

  /** At most one client is in a chip operation; a name in the gate means the token is taken. */
  lemma GateIsExclusive(s: State, c: nat, d: nat)
    requires GateInv(s) && c in s.clients && d in s.clients
    ensures Holding(s.clients[c].phase) && Holding(s.clients[d].phase) ==> c == d
    ensures s.gate.holder != "" ==> s.gate.token.Some?
    ensures s.gate.token == None <==> forall k | k in s.clients :: !Holding(s.clients[k].phase)
  {
  }

  /** The holder's time of arrival in the gate is never in the future. */
  lemma {:induction false} AcquiredInThePast(cfg: Config, s: State, actions: seq<Action>)
    requires Run(cfg, s, actions) && 0 <= s.clock && s.gate.acquired <= s.clock
    ensures var s' := After(cfg, s, actions); 0 <= s'.clock && s'.gate.acquired <= s'.clock
    decreases |actions|
  {
    hide Apply, Enabled;
    if actions != [] {
      AcquiredStep(cfg, s, actions[0]);
      AcquiredInThePast(cfg, Apply(cfg, s, actions[0]), actions[1..]);
    }
  }

  lemma AcquiredStep(cfg: Config, s: State, a: Action)
    requires Enabled(s, a) && 0 <= s.clock && s.gate.acquired <= s.clock
    ensures var s' := Apply(cfg, s, a); 0 <= s'.clock && s'.gate.acquired <= s'.clock
  {
    hide HolderName, Lookup, CachedReply;
  }

  /** Every step but the passing of time moves one client only. */
  lemma OneMoves(cfg: Config, s: State, a: Action)
    requires Enabled(s, a) && !a.Tick?
    ensures var s' := Apply(cfg, s, a);
      s'.clock == s.clock && a.c in s'.clients && s'.clients == s.clients[a.c := s'.clients[a.c]]
  {
  }

  // ---------------------------------------------------------------- the certificate

  predicate Genuine(cfg: Config, k: Certificate) {
    k.base64 == cfg.base64(k.data) && k.sha256 == cfg.sha256Hex(k.data)
  }

  /** Whoever is about to ask the chip for the certificate, or to store it, finds none stored;
      every reply with a certificate carries the stored one. */
  ghost predicate CertificateOk(cfg: Config, stored: Option<Certificate>, k: Client) {
    && (k.request.ReadCertificate? && InCriticalSection(k.phase) ==> stored == None)
    && (k.phase.StoringCertificate? ==> Genuine(cfg, k.phase.certificate))
    && (ReplyOf(k.phase).Some? && ReplyOf(k.phase).value.Certified? ==>
        stored == Some(ReplyOf(k.phase).value.certificate))
  }

  /** The pointer has been stored once if at all. */
  ghost predicate CertificateInv(cfg: Config, s: State) {
    && s.certificateStores == (if s.certificate.Some? then 1 else 0)
    && (s.certificate.Some? ==> Genuine(cfg, s.certificate.value))
    && (forall c | c in s.clients :: CertificateOk(cfg, s.certificate, s.clients[c]))
  }

  lemma CertificateMoved(cfg: Config, s: State, a: Action)
    requires Enabled(s, a) && !a.Tick?
    requires a.c in s.clients ==> CertificateOk(cfg, s.certificate, s.clients[a.c]) && Fits(s.clients[a.c])
    ensures CertificateOk(cfg, Apply(cfg, s, a).certificate, Apply(cfg, s, a).clients[a.c])
  {
    hide Lookup, HolderName;
  }

  lemma CertificateChange(cfg: Config, s: State, a: Action)
    requires Enabled(s, a)
    ensures var s' := Apply(cfg, s, a);
      if a.StoreCertificate? then
        s'.certificate == Some(s.clients[a.c].phase.certificate) && s'.certificateStores == s.certificateStores + 1
      else s'.certificate == s.certificate && s'.certificateStores == s.certificateStores
  {
  }

  lemma CertificateStep(cfg: Config, s: State, a: Action)
    requires GateInv(s) && CertificateInv(cfg, s) && Enabled(s, a)
    ensures CertificateInv(cfg, Apply(cfg, s, a))
  {
    hide Apply, CertificateOk, Genuine, Fits;
    var s' := Apply(cfg, s, a);
    CertificateChange(cfg, s, a);
    if a.Tick? {
      TickOnly(cfg, s, a);
    } else {
      OneMoves(cfg, s, a);
      CertificateMoved(cfg, s, a);
      if a.StoreCertificate? {
        StoresGenuine(cfg, s, a);
        forall d | d in s'.clients && d != a.c ensures CertificateOk(cfg, s'.certificate, s'.clients[d]) {
          OthersUnaffected(cfg, s, a, d);
        }
      }
    }
  }

  lemma TickOnly(cfg: Config, s: State, a: Action)
    requires a.Tick?
    ensures Apply(cfg, s, a) == s.(clock := s.clock + a.duration)
  {
  }

  lemma StoresGenuine(cfg: Config, s: State, a: Action)
    requires GateInv(s) && CertificateInv(cfg, s) && Enabled(s, a) && a.StoreCertificate?
    ensures s.certificate == None && Genuine(cfg, s.clients[a.c].phase.certificate)
  {
  }

  lemma OthersUnaffected(cfg: Config, s: State, a: Action, d: nat)
    requires GateInv(s) && CertificateInv(cfg, s) && Enabled(s, a) && a.StoreCertificate?
    requires d in s.clients && d != a.c
    ensures CertificateOk(cfg, Some(s.clients[a.c].phase.certificate), s.clients[d])
  {
    assert Holding(s.clients[a.c].phase) && !Holding(s.clients[d].phase);
  }

  /** The pointer only ever changes from empty to stored, by a store; and once it is stored the
      driver is not asked for a certificate any more. */
  lemma CertificateWriteOnce(cfg: Config, s: State, a: Action)
    requires GateInv(s) && CertificateInv(cfg, s) && Enabled(s, a)
    ensures s.certificate.Some? ==> Apply(cfg, s, a).certificate == s.certificate
    ensures Apply(cfg, s, a).certificate != s.certificate ==> a.StoreCertificate?
    ensures s.certificate.Some? ==> !AsksForCertificate(s, a) && !a.StoreCertificate?
  {
    hide Apply;
    CertificateChange(cfg, s, a);
  }

  predicate AsksForCertificate(s: State, a: Action) {
    a.ChipTellsCertificate? ||
    (a.CallChip? && a.c in s.clients && s.clients[a.c].request.ReadCertificate?)
  }

  // ---------------------------------------------------------------- the cache

  /** The chip made this signature for this request id, of a challenge with this digest. */
  ghost predicate Backed(cfg: Config, calls: seq<ChipCall>, id: string, digest: seq<Byte>, signature: seq<Byte>) {
    exists i | 0 <= i < |calls| ::
      calls[i].id == id && cfg.digest(calls[i].challenge) == digest && calls[i].signature == signature
  }

  ghost predicate EntriesBacked(cfg: Config, s: State) {
    forall id | id in s.entries ::
      Backed(cfg, s.calls, id, s.entries[id].digest, s.entries[id].signature) &&
      s.entries[id].expiresAt <= s.clock + CACHE_TTL
  }

  ghost predicate RepliesBacked(cfg: Config, s: State) {
    forall c | c in s.clients :: ReplyBacked(cfg, s.calls, s.clients[c])
  }

  ghost predicate ReplyBacked(cfg: Config, calls: seq<ChipCall>, k: Client) {
    ReplyOf(k.phase).Some? && ReplyOf(k.phase).value.Signed? ==>
      k.request.Sign? &&
      Backed(cfg, calls, k.request.id, cfg.digest(k.request.challenge), ReplyOf(k.phase).value.signature)
  }

  ghost predicate CallsPast(s: State) {
    forall i | 0 <= i < |s.calls| :: s.calls[i].started <= s.calls[i].finished <= s.clock
  }

  /** Two signatures for one request id: the later call began more than the lifetime of a cache
      entry after the earlier one ended. */
  ghost predicate Spaced(calls: seq<ChipCall>) {
    forall i, j | 0 <= i < j < |calls| && calls[i].id == calls[j].id ::
      calls[j].started > calls[i].finished + CACHE_TTL
  }

  /** This signature's caller has not yet put it into the cache. */
  predicate Pending(s: State, i: nat) {
    && i + 1 == |s.calls| && s.gate.token.Some? && s.gate.token.value in s.clients
    && var k := s.clients[s.gate.token.value];
       k.request.Sign? && (k.phase.SignedAt? || k.phase.Storing?) && k.request.id == s.calls[i].id
  }

  /** A past signature is still on its way into the cache, or over a lifetime old, or in the cache. */
  ghost predicate Covered(s: State) {
    forall i | 0 <= i < |s.calls| ::
      || Pending(s, i) || s.clock > s.calls[i].finished + CACHE_TTL
      || (s.calls[i].id in s.entries && s.calls[i].finished + CACHE_TTL <= s.entries[s.calls[i].id].expiresAt)
  }

  ghost predicate AllOlder(calls: seq<ChipCall>, id: string, time: int) {
    forall i | 0 <= i < |calls| && calls[i].id == id :: calls[i].finished + CACHE_TTL < time
  }

  /** What the client between its second look and its put relies on. */
  ghost predicate Ready(cfg: Config, s: State, id: string, challenge: seq<Byte>, p: Phase) {
    match p
    case Calling => id !in s.entries && AllOlder(s.calls, id, s.clock)
    case InChip(started) => id !in s.entries && AllOlder(s.calls, id, started) && started <= s.clock
    case SignedAt(signature) => id !in s.entries && LastCall(s.calls, id, challenge, signature)
    case Storing(entry) =>
      && id !in s.entries && LastCall(s.calls, id, challenge, entry.signature)
      && entry.digest == cfg.digest(challenge)
      && s.calls[|s.calls| - 1].finished + CACHE_TTL <= entry.expiresAt <= s.clock + CACHE_TTL
    case _ => true
  }

  predicate LastCall(calls: seq<ChipCall>, id: string, challenge: seq<Byte>, signature: seq<Byte>) {
    && calls != []
    && var last := calls[|calls| - 1];
       last.id == id && last.challenge == challenge && last.signature == signature
  }

  ghost predicate AllReady(cfg: Config, s: State) {
    forall c | c in s.clients && s.clients[c].request.Sign? ::
      Ready(cfg, s, s.clients[c].request.id, s.clients[c].request.challenge, s.clients[c].phase)
  }

  ghost predicate CacheInv(cfg: Config, s: State) {
    && EntriesBacked(cfg, s) && RepliesBacked(cfg, s) && CallsPast(s) && Spaced(s.calls)
    && Covered(s) && AllReady(cfg, s)
  }

  predicate OnlyClient(s: State, s': State, c: nat) {
    && s'.clock == s.clock && s'.entries == s.entries && s'.calls == s.calls
    && c in s'.clients && s'.clients == s.clients[c := s'.clients[c]]
  }

  /** A step that changes one client only, and no pending signature's caller. */
  lemma CacheMove(cfg: Config, s: State, s': State, c: nat)
    requires CacheInv(cfg, s) && OnlyClient(s, s', c)
    requires ReplyBacked(cfg, s.calls, s'.clients[c])
    requires var k := s'.clients[c];
      k.request.Sign? ==> Ready(cfg, s', k.request.id, k.request.challenge, k.phase)
    requires forall i | 0 <= i < |s.calls| && Pending(s, i) :: Pending(s', i)
    ensures CacheInv(cfg, s')
  {
    hide Backed, ReplyBacked, Spaced, AllOlder, LastCall, Pending;
    assert Covered(s') by {
      forall i | 0 <= i < |s'.calls|
        ensures Pending(s', i) || s'.clock > s'.calls[i].finished + CACHE_TTL ||
          (s'.calls[i].id in s'.entries && s'.calls[i].finished + CACHE_TTL <= s'.entries[s'.calls[i].id].expiresAt)
      {
        assert Pending(s, i) ==> Pending(s', i);
      }
    }
    forall d | d in s'.clients && d != c ensures d in s.clients && s'.clients[d] == s.clients[d] {}
  }

  /** Steps that touch neither the cache nor the list of signatures nor a signing client between
      its second look and its put. */
  predicate Aside(a: Action) {
    a.Arrive? || a.Validate? || a.Acquire? || a.GiveUp? || a.TakeName? || a.ChipFails? || a.ChipTellsMajor? ||
    a.ChipTellsCertificate? || a.StoreCertificate? || a.ClearName? || a.ReturnToken?
  }

  predicate Uninvolved(k: Client) {
    k.request.Sign? ==> !InCriticalSection(k.phase)
  }

  lemma AsideFacts(cfg: Config, s: State, a: Action)
    requires Enabled(s, a) && Aside(a)
    requires a.c in s.clients ==> ReplyBacked(cfg, s.calls, s.clients[a.c]) && Fits(s.clients[a.c])
    ensures OnlyClient(s, Apply(cfg, s, a), a.c) && Uninvolved(Apply(cfg, s, a).clients[a.c])
    ensures ReplyBacked(cfg, s.calls, Apply(cfg, s, a).clients[a.c])
  {
    hide Backed;
  }

  lemma AsidePending(cfg: Config, s: State, a: Action, i: nat)
    requires GateInv(s) && Enabled(s, a) && Aside(a) && Pending(s, i)
    ensures Pending(Apply(cfg, s, a), i)
  {
    assert Holding(s.clients[s.gate.token.value].phase);
  }

  lemma CacheAside(cfg: Config, s: State, a: Action)
    requires GateInv(s) && CacheInv(cfg, s) && Enabled(s, a) && Aside(a)
    ensures CacheInv(cfg, Apply(cfg, s, a))
  {
    hide Apply, Pending, ReplyBacked, Enabled;
    var s' := Apply(cfg, s, a);
    AsideFacts(cfg, s, a);
    forall i | 0 <= i < |s.calls| && Pending(s, i) ensures Pending(s', i) {
      AsidePending(cfg, s, a, i);
    }
    CacheMove(cfg, s, s', a.c);
  }

  lemma CacheTick(cfg: Config, s: State, a: Action)
    requires CacheInv(cfg, s) && a.Tick?
    ensures CacheInv(cfg, Apply(cfg, s, a))
  {
    hide Backed, Spaced;
  }

  /** Removing an expired entry uncovers no signature younger than a cache lifetime. */
  lemma CacheExpire(cfg: Config, s: State, id: string)
    requires CacheInv(cfg, s) && id in s.entries && s.clock > s.entries[id].expiresAt
    ensures CacheInv(cfg, s.(entries := s.entries - {id}))
  {
    hide Backed, Spaced;
  }

  /** The cache after a look: an expired entry under the client's id is gone. */
  function LookedEntries(s: State, c: nat): Entries
    requires c in s.clients
  {
    if s.clients[c].request.Sign? then Lookup(s.entries, s.clients[c].request.id, s.clock).1 else s.entries
  }

  lemma CacheLookedEntries(cfg: Config, s: State, c: nat)
    requires CacheInv(cfg, s) && c in s.clients
    ensures CacheInv(cfg, s.(entries := LookedEntries(s, c)))
  {
    hide CacheInv;
    if s.clients[c].request.Sign? {
      var id := s.clients[c].request.id;
      if id in s.entries && s.clock > s.entries[id].expiresAt {
        CacheExpire(cfg, s, id);
      }
    }
  }

  lemma LookFacts(cfg: Config, s: State, a: Action)
    requires Enabled(s, a) && (a.Look? || a.LookAgain?)
    requires EntriesBacked(cfg, s)
    ensures var s1 := s.(entries := LookedEntries(s, a.c));
      var s' := Apply(cfg, s, a);
      && OnlyClient(s1, s', a.c) && ReplyBacked(cfg, s.calls, s'.clients[a.c])
      && (s'.clients[a.c].phase.Calling? || Uninvolved(s'.clients[a.c]))
      && (s'.clients[a.c].phase.Calling? ==> a.LookAgain?)
      && (s'.clients[a.c].phase.Calling? && s'.clients[a.c].request.Sign? ==>
          s'.clients[a.c].request.id !in s1.entries)
      && s'.clients[a.c].request == s.clients[a.c].request && s'.gate == s.gate
  {
    hide Backed;
  }

  /** A client that finds nothing while it holds the gate knows that every signature for its id
      ended more than a cache lifetime ago. */
  lemma MissMeansOld(cfg: Config, s: State, c: nat, id: string)
    requires GateInv(s) && Covered(s) && c in s.clients && s.clients[c].phase.Named? && id !in s.entries
    ensures AllOlder(s.calls, id, s.clock)
  {
    assert s.gate.token == Some(c);
    forall i | 0 <= i < |s.calls| && s.calls[i].id == id ensures s.calls[i].finished + CACHE_TTL < s.clock {
      assert !Pending(s, i);
    }
  }

  lemma CacheLook(cfg: Config, s: State, a: Action)
    requires GateInv(s) && CacheInv(cfg, s) && Enabled(s, a) && (a.Look? || a.LookAgain?)
    ensures CacheInv(cfg, Apply(cfg, s, a))
  {
    hide Apply, Backed, ReplyBacked, Spaced, AllOlder;
    var s1, s' := s.(entries := LookedEntries(s, a.c)), Apply(cfg, s, a);
    LookFacts(cfg, s, a);
    CacheLookedEntries(cfg, s, a.c);
    if s'.clients[a.c].phase.Calling? && s.clients[a.c].request.Sign? {
      MissMeansOld(cfg, s1, a.c, s.clients[a.c].request.id);
    }
    forall i | 0 <= i < |s.calls| && Pending(s1, i) ensures Pending(s', i) {
      assert s.gate.token.Some? && s.gate.token.value != a.c;
    }
    CacheMove(cfg, s1, s', a.c);
  }

  lemma CallFacts(cfg: Config, s: State, a: Action)
    requires Enabled(s, a) && (a.CallChip? || a.Stamp?)
    ensures var s' := Apply(cfg, s, a);
      && OnlyClient(s, s', a.c) && s'.gate == s.gate && s'.clients[a.c].request == s.clients[a.c].request
      && s'.clients[a.c].phase == (if a.CallChip? then InChip(s.clock) else
           Storing(Entry(cfg.digest(s.clients[a.c].request.challenge), s.clients[a.c].phase.signature, s.clock + CACHE_TTL)))
  {
  }

  lemma CacheCall(cfg: Config, s: State, a: Action)
    requires GateInv(s) && CacheInv(cfg, s) && Enabled(s, a) && (a.CallChip? || a.Stamp?)
    ensures CacheInv(cfg, Apply(cfg, s, a))
  {
    hide Apply, Backed, Spaced, AllOlder;
    var s' := Apply(cfg, s, a);
    CallFacts(cfg, s, a);
    forall i | 0 <= i < |s.calls| && Pending(s, i) ensures Pending(s', i) {}
    CacheMove(cfg, s, s', a.c);
  }

  /** While this client is in the chip or about to store, every other is uninvolved. */
  lemma OthersUninvolved(s: State, c: nat, d: nat)
    requires GateInv(s) && c in s.clients && InCriticalSection(s.clients[c].phase)
    requires d in s.clients && d != c
    ensures Uninvolved(s.clients[d]) && s.gate.token == Some(c)
  {
  }

  lemma BackedByMore(cfg: Config, calls: seq<ChipCall>, call: ChipCall, id: string, digest: seq<Byte>, signature: seq<Byte>)
    requires Backed(cfg, calls, id, digest, signature)
    ensures Backed(cfg, calls + [call], id, digest, signature)
  {
    var i :| 0 <= i < |calls| && calls[i].id == id && cfg.digest(calls[i].challenge) == digest && calls[i].signature == signature;
    assert (calls + [call])[i] == calls[i];
  }

  lemma BackedByLast(cfg: Config, calls: seq<ChipCall>, id: string, challenge: seq<Byte>, signature: seq<Byte>)
    requires LastCall(calls, id, challenge, signature)
    ensures Backed(cfg, calls, id, cfg.digest(challenge), signature)
  {
    assert calls[|calls| - 1].id == id;
  }

  lemma SpacedMore(calls: seq<ChipCall>, call: ChipCall)
    requires Spaced(calls) && AllOlder(calls, call.id, call.started)
    ensures Spaced(calls + [call])
  {
  }

  lemma SignsFacts(cfg: Config, s: State, a: Action)
    requires Enabled(s, a) && a.ChipSigns?
    ensures var k := s.clients[a.c];
      Apply(cfg, s, a) == s.(
        calls := s.calls + [ChipCall(k.request.id, k.request.challenge, a.signature, k.phase.started, s.clock)],
        clients := s.clients[a.c := Client(k.request, SignedAt(a.signature))])
  {
  }

  lemma CacheSigns(cfg: Config, s: State, a: Action)
    requires GateInv(s) && CacheInv(cfg, s) && Enabled(s, a) && a.ChipSigns?
    ensures CacheInv(cfg, Apply(cfg, s, a))
  {
    hide Apply, Backed, Spaced, AllOlder, InCriticalSection;
    var s' := Apply(cfg, s, a);
    var k := s.clients[a.c];
    var call := ChipCall(k.request.id, k.request.challenge, a.signature, k.phase.started, s.clock);
    SignsFacts(cfg, s, a);
    SpacedMore(s.calls, call);
    CriticalHere(s, a.c);
    forall id | id in s.entries
      ensures Backed(cfg, s'.calls, id, s.entries[id].digest, s.entries[id].signature)
    {
      BackedByMore(cfg, s.calls, call, id, s.entries[id].digest, s.entries[id].signature);
    }
    assert RepliesBacked(cfg, s') by { RepliesByMore(cfg, s, s', a.c, call); }
    assert AllReady(cfg, s') by {
      forall d | d in s'.clients && d != a.c ensures d in s.clients && Uninvolved(s'.clients[d]) {
        OthersUninvolved(s, a.c, d);
      }
      UninvolvedReady(cfg, s', a.c);
    }
    assert Covered(s') by { CoveredMore(s, s', a.c, call); }
  }

  lemma CriticalHere(s: State, c: nat)
    requires GateInv(s) && c in s.clients && (s.clients[c].phase.InChip? || s.clients[c].phase.Storing?)
    ensures InCriticalSection(s.clients[c].phase) && s.gate.token == Some(c)
  {
  }

  lemma RepliesByMore(cfg: Config, s: State, s': State, c: nat, call: ChipCall)
    requires RepliesBacked(cfg, s) && s'.calls == s.calls + [call] && c in s.clients
    requires c in s'.clients && s'.clients == s.clients[c := s'.clients[c]] && ReplyOf(s'.clients[c].phase) == None
    ensures RepliesBacked(cfg, s')
  {
    hide Backed;
    forall d | d in s'.clients ensures ReplyBacked(cfg, s'.calls, s'.clients[d]) {
      if d != c {
        var k := s.clients[d];
        if ReplyOf(k.phase).Some? && ReplyOf(k.phase).value.Signed? {
          BackedByMore(cfg, s.calls, call, k.request.id, cfg.digest(k.request.challenge), ReplyOf(k.phase).value.signature);
        }
      }
    }
  }

  /** If all other clients are uninvolved, only this one's readiness counts. */
  lemma UninvolvedReady(cfg: Config, s: State, c: nat)
    requires c in s.clients && forall d | d in s.clients && d != c :: Uninvolved(s.clients[d])
    requires var k := s.clients[c]; k.request.Sign? ==> Ready(cfg, s, k.request.id, k.request.challenge, k.phase)
    ensures AllReady(cfg, s)
  {
  }

  lemma CoveredMore(s: State, s': State, c: nat, call: ChipCall)
    requires Covered(s) && c in s.clients && s.gate.token == Some(c) && s.clients[c].phase.InChip?
    requires s'.calls == s.calls + [call] && s'.entries == s.entries && s'.clock == s.clock && s'.gate == s.gate
    requires c in s'.clients && s'.clients[c].phase.SignedAt? && s'.clients[c].request.Sign? && s'.clients[c].request.id == call.id
    ensures Covered(s')
  {
    forall i | 0 <= i < |s'.calls|
      ensures Pending(s', i) || s'.clock > s'.calls[i].finished + CACHE_TTL ||
        (s'.calls[i].id in s'.entries && s'.calls[i].finished + CACHE_TTL <= s'.entries[s'.calls[i].id].expiresAt)
    {
      if i < |s.calls| { assert !Pending(s, i) && s'.calls[i] == s.calls[i]; }
    }
  }

  lemma PutFacts(cfg: Config, s: State, a: Action)
    requires Enabled(s, a) && a.Put?
    ensures var k := s.clients[a.c];
      Apply(cfg, s, a) == s.(
        entries := s.entries[k.request.id := k.phase.entry],
        clients := s.clients[a.c := Client(k.request, Clearing(Signed(k.phase.entry.signature, false)))])
  {
  }

  lemma CachePut(cfg: Config, s: State, a: Action)
    requires GateInv(s) && CacheInv(cfg, s) && Enabled(s, a) && a.Put?
    ensures CacheInv(cfg, Apply(cfg, s, a))
  {
    hide Apply, Backed, Spaced, AllOlder, InCriticalSection;
    var s' := Apply(cfg, s, a);
    var k := s.clients[a.c];
    PutFacts(cfg, s, a);
    CriticalHere(s, a.c);
    BackedByLast(cfg, s.calls, k.request.id, k.request.challenge, k.phase.entry.signature);
    assert AllReady(cfg, s') by {
      forall d | d in s'.clients && d != a.c ensures d in s.clients && Uninvolved(s'.clients[d]) {
        OthersUninvolved(s, a.c, d);
      }
      UninvolvedReady(cfg, s', a.c);
    }
    assert Covered(s') by {
      forall i | 0 <= i < |s'.calls|
        ensures Pending(s', i) || s'.clock > s'.calls[i].finished + CACHE_TTL ||
          (s'.calls[i].id in s'.entries && s'.calls[i].finished + CACHE_TTL <= s'.entries[s'.calls[i].id].expiresAt)
      {
        if i + 1 < |s.calls| { assert !Pending(s, i); }
      }
    }
  }

  /** A put never overwrites: there is no entry under its id, live or expired. */
  lemma PutIsFresh(cfg: Config, s: State, a: Action)
    requires CacheInv(cfg, s) && Enabled(s, a) && a.Put?
    ensures s.clients[a.c].request.id !in s.entries
  {
  }

  lemma CacheStep(cfg: Config, s: State, a: Action)
    requires GateInv(s) && CacheInv(cfg, s) && Enabled(s, a)
    ensures CacheInv(cfg, Apply(cfg, s, a))
  {
    hide CacheInv, GateInv, Apply, Enabled;
    if a.Tick? {
      CacheTick(cfg, s, a);
    } else if a.Look? || a.LookAgain? {
      CacheLook(cfg, s, a);
    } else if a.CallChip? || a.Stamp? {
      CacheCall(cfg, s, a);
    } else if a.ChipSigns? {
      CacheSigns(cfg, s, a);
    } else if a.Put? {
      CachePut(cfg, s, a);
    } else {
      CacheAside(cfg, s, a);
    }
  }

  // ---------------------------------------------------------------- every reachable state

  ghost predicate Inv(cfg: Config, s: State) {
    GateInv(s) && CertificateInv(cfg, s) && CacheInv(cfg, s)
  }

  lemma {:induction false} InvariantOverRuns(cfg: Config, s: State, actions: seq<Action>)
    requires Inv(cfg, s) && Run(cfg, s, actions)
    ensures Inv(cfg, After(cfg, s, actions))
    decreases |actions|
  {
    hide GateInv, CertificateInv, CacheInv, Apply, Enabled;
    if actions != [] {
      GateStep(cfg, s, actions[0]);
      CertificateStep(cfg, s, actions[0]);
      CacheStep(cfg, s, actions[0]);
      InvariantOverRuns(cfg, Apply(cfg, s, actions[0]), actions[1..]);
    }
  }

  /** Over every run of the service: at most one client holds the gate, and a name in it means
      that one does; the certificate pointer is stored at most once and every successful
      certificate reply carries the stored certificate; every returned signature was made by the
      chip for that request id and a challenge with that digest; and two signatures for one request
      id lie more than a cache lifetime apart. */
  lemma ServiceIsSafe(cfg: Config, actions: seq<Action>)
    requires Run(cfg, INIT, actions)
    ensures var s := After(cfg, INIT, actions);
      && (forall c, d | c in s.clients && d in s.clients ::
           Holding(s.clients[c].phase) && Holding(s.clients[d].phase) ==> c == d)
      && (s.gate.token == None <==> forall c | c in s.clients :: !Holding(s.clients[c].phase))
      && (s.gate.holder != "" ==> s.gate.token.Some?)
      && s.certificateStores <= 1
      && (forall c | c in s.clients && ReplyOf(s.clients[c].phase).Some? && ReplyOf(s.clients[c].phase).value.Certified? ::
           s.certificate == Some(ReplyOf(s.clients[c].phase).value.certificate))
      && (s.certificate.Some? ==> Genuine(cfg, s.certificate.value))
      && RepliesBacked(cfg, s) && EntriesBacked(cfg, s)
      && (forall i, j | 0 <= i < j < |s.calls| && s.calls[i].id == s.calls[j].id ::
           s.calls[j].started > s.calls[i].finished + 60_000_000_000)
      && (forall id | id in s.entries :: s.entries[id].expiresAt <= s.clock + 60_000_000_000)
    ensures Inv(cfg, After(cfg, INIT, actions))
  {
    hide After, Backed, Genuine, Fits;
    InitialState(cfg);
    InvariantOverRuns(cfg, INIT, actions);
  }

  /** No put in any run overwrites an entry: there is none under its id, live or expired. */
  lemma PutNeverOverwrites(cfg: Config, actions: seq<Action>, a: Action)
    requires Run(cfg, INIT, actions) && Enabled(After(cfg, INIT, actions), a) && a.Put?
    ensures After(cfg, INIT, actions).clients[a.c].request.id !in After(cfg, INIT, actions).entries
  {
    hide After, Run, GateInv, CertificateInv, CacheInv;
    InitialState(cfg);
    InvariantOverRuns(cfg, INIT, actions);
    PutIsFresh(cfg, After(cfg, INIT, actions), a);
  }

  /** No step of the run asks the chip for the certificate or stores one. */
  predicate NoneAsks(cfg: Config, s: State, actions: seq<Action>)
    requires Run(cfg, s, actions)
    decreases |actions|
  {
    actions == [] ||
    (!AsksForCertificate(s, actions[0]) && !actions[0].StoreCertificate? &&
     NoneAsks(cfg, Apply(cfg, s, actions[0]), actions[1..]))
  }

  /** Once stored, the certificate stays the same and the chip is not asked for it again, however
      long the service runs on. */
  lemma {:induction false} CertificateForGood(cfg: Config, s: State, actions: seq<Action>)
    requires Inv(cfg, s) && Run(cfg, s, actions) && s.certificate.Some?
    ensures After(cfg, s, actions).certificate == s.certificate && NoneAsks(cfg, s, actions)
    decreases |actions|
  {
    hide GateInv, CertificateInv, CacheInv, Apply, Enabled, AsksForCertificate;
    if actions != [] {
      GateStep(cfg, s, actions[0]);
      CertificateStep(cfg, s, actions[0]);
      CacheStep(cfg, s, actions[0]);
      CertificateWriteOnce(cfg, s, actions[0]);
      CertificateForGood(cfg, Apply(cfg, s, actions[0]), actions[1..]);
    }
  }

  lemma InitialState(cfg: Config)
    ensures Inv(cfg, INIT)
  {
  }
}
