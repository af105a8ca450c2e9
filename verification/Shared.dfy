/** The signing service's shared objects: the signature cache and the chip gate. */
module Shared {
  import opened Outcome
  import opened Wire

  const CACHE_TTL := 60_000_000_000

  datatype Entry = Entry(digest: seq<Byte>, signature: seq<Byte>, expiresAt: int)

  type Entries = map<string, Entry>

  /** A lookup removes an entry it finds expired. */
  function Lookup(entries: Entries, id: string, now: int): (Option<Entry>, Entries) {
    if id !in entries then (None, entries)
    else if now > entries[id].expiresAt then (None, entries - {id})
    else (Some(entries[id]), entries)
  }

  /** The entries a lookup at this time would still find. */
  function Live(entries: Entries, now: int): Entries {
    map id | id in entries && now <= entries[id].expiresAt :: entries[id]
  }

  lemma LiveIsPart(entries: Entries, now: int)
    ensures |Live(entries, now)| <= |entries|
  {
    SmallerSet(Live(entries, now).Keys, entries.Keys);
    assert |Live(entries, now).Keys| == |Live(entries, now)| && |entries.Keys| == |entries|;
  }

  lemma {:induction false} SmallerSet(a: set<string>, b: set<string>)
    requires a <= b
    ensures |a| <= |b|
  {
    if a != {} {
      var x :| x in a;
      SmallerSet(a - {x}, b - {x});
    }
  }

  class SignatureCache {
    var entries: Entries

    constructor ()
      ensures entries == map[]
    {
      entries := map[];
    }

    /** Finds exactly the live entry, and never changes what is live. */
    method Get(id: string, now: int) returns (found: Option<Entry>)
      modifies this
      ensures (found, entries) == Lookup(old(entries), id, now)
      ensures found == if id in old(entries) && now <= old(entries)[id].expiresAt then Some(old(entries)[id]) else None
      ensures found == None ==> entries == old(entries) - {id}
      ensures found.Some? ==> entries == old(entries)
      ensures forall later | later >= now :: Live(entries, later) == Live(old(entries), later)
    {
      if id !in entries {
        return None;
      }
      var entry := entries[id];
      if now > entry.expiresAt {
        entries := entries - {id};
        return None;
      }
      return Some(entry);
    }

    method Put(id: string, entry: Entry)
      modifies this
      ensures entries == old(entries)[id := entry]
    {
      entries := entries[id := entry];
    }

    method Len() returns (n: nat)
      ensures n == |entries|
    {
      n := |entries|;
    }
  }

  /** The gate: a channel with room for one token, and who is said to hold it since when.  The
      channel does not know who filled it; the model does. */
  datatype Gate = Gate(token: Option<nat>, holder: string, acquired: int)

  const OPEN_GATE := Gate(None, "", 0)

  class ChipGate {
    /** The client whose token fills the channel. */
    var token: Option<nat>
    var holder: string
    var acquired: int

    constructor ()
      ensures State() == OPEN_GATE
    {
      token, holder, acquired := None, "", 0;
    }

    function State(): Gate
      reads this
    {
      Gate(token, holder, acquired)
    }

    /** The send of the select in acquire: possible only into an empty channel. */
    method TrySend(client: nat) returns (sent: bool)
      modifies this
      ensures sent == (old(token) == None)
      ensures State() == if sent then old(State()).(token := Some(client)) else old(State())
    {
      sent := token == None;
      if sent {
        token := Some(client);
      }
    }

    method Name(name: string, now: int)
      modifies this
      ensures State() == old(State()).(holder := name, acquired := now)
    {
      holder, acquired := name, now;
    }

    method Clear()
      modifies this
      ensures State() == old(State()).(holder := "", acquired := 0)
    {
      holder, acquired := "", 0;
    }

    method Receive()
      modifies this
      ensures State() == old(State()).(token := None)
    {
      token := None;
    }

    /** What diagnostics show: nobody, or the holder and for how long. */
    method Status(now: int) returns (name: string, held: int)
      ensures name == holder && held == if holder == "" then 0 else now - acquired
    {
      if holder == "" {
        return "", 0;
      }
      return holder, now - acquired;
    }
  }
}
