/** The store of recent requests: a ring buffer written in place, read newest first. */
module Recent {
  /** `verb` is the HTTP method. */
  datatype RecentRequest = RecentRequest(time: string, verb: string, path: string, status: int, millis: int, note: string)

  function Min(a: nat, b: nat): nat {
    if a <= b then a else b
  }

  /** What the store should list: the last `capacity` entries of a history, newest first. */
  function Newest(history: seq<RecentRequest>, capacity: nat): seq<RecentRequest>
    decreases capacity
  {
    if history == [] || capacity == 0 then []
    else [history[|history| - 1]] + Newest(history[..|history| - 1], capacity - 1)
  }

  lemma {:induction false} NewestAt(history: seq<RecentRequest>, capacity: nat)
    ensures |Newest(history, capacity)| == Min(|history|, capacity)
    ensures forall i | 0 <= i < Min(|history|, capacity) ::
      Newest(history, capacity)[i] == history[|history| - 1 - i]
    decreases capacity
  {
    if history != [] && capacity != 0 {
      NewestAt(history[..|history| - 1], capacity - 1);
    }
  }

  lemma NewestFewer(history: seq<RecentRequest>, capacity: nat)
    requires capacity >= 1
    ensures var before := Newest(history, capacity);
      Newest(history, capacity - 1) == if |before| < capacity then before else before[..capacity - 1]
  {
    hide Newest;
    NewestAt(history, capacity);
    NewestAt(history, capacity - 1);
  }

  /** A further entry goes to the front of the listing and pushes out at most the oldest one. */
  lemma NewestAfterAdd(history: seq<RecentRequest>, entry: RecentRequest, capacity: nat)
    requires capacity >= 1
    ensures var before := Newest(history, capacity);
      Newest(history + [entry], capacity) ==
      [entry] + (if |before| < capacity then before else before[..capacity - 1])
  {
    NewestFewer(history, capacity);
    assert (history + [entry])[..|history|] == history;
  }

  lemma Successor(next: nat, capacity: nat)
    requires next < capacity
    ensures (next + 1) % capacity == if next + 1 == capacity then 0 else next + 1
  {
  }

  /** The slots before `next` hold the latest entries; once the store has been full, the slots from
      `next` on hold the ones before them. */
  ghost predicate Holds(slots: seq<RecentRequest>, next: nat, full: bool, history: seq<RecentRequest>) {
    var n, capacity := |history|, |slots|;
    && next < capacity && next <= n
    && (if full then n >= capacity else n == next)
    && (forall k | 0 <= k < next :: slots[k] == history[n - next + k])
    && (full ==> forall k | next <= k < capacity :: slots[k] == history[n - next - capacity + k])
  }

  lemma AddKeeps(slots: seq<RecentRequest>, next: nat, full: bool, history: seq<RecentRequest>, entry: RecentRequest)
    requires Holds(slots, next, full, history)
    ensures var last := next + 1 == |slots|;
      Holds(slots[next := entry], if last then 0 else next + 1, full || last, history + [entry])
  {
  }

  class RecentStore {
    const capacity: nat
    const entries: array<RecentRequest>
    var next: nat
    var full: bool
    ghost var history: seq<RecentRequest>

    ghost predicate Valid()
      reads this, entries
    {
      entries.Length == capacity && Holds(entries[..], next, full, history)
    }

    constructor (capacity: nat)
      requires capacity >= 1
      ensures Valid() && fresh(entries) && this.capacity == capacity && history == []
    {
      this.capacity := capacity;
      entries := new RecentRequest[capacity];
      next, full, history := 0, false, [];
    }

    method Add(time: string, verb: string, path: string, status: int, millis: int, note: string)
      requires Valid()
      modifies this, entries
      ensures Valid()
      ensures history == old(history) + [RecentRequest(time, verb, path, status, millis, note)]
    {
      var entry := RecentRequest(time, verb, path, status, millis, note);
      AddKeeps(entries[..], next, full, history, entry);
      assert next < capacity;
      hide Holds;
      entries[next] := entry;
      assert entries[..] == old(entries[..])[next := entry];
      Successor(next, capacity);
      next := (next + 1) % capacity;
      if next == 0 {
        full := true;
      }
      history := history + [entry];
    }

    method ListNewestFirst() returns (result: seq<RecentRequest>)
      requires Valid()
      ensures result == Newest(history, capacity)
      ensures |result| == Min(|history|, capacity)
      ensures forall i | 0 <= i < |result| :: result[i] == history[|history| - 1 - i]
    {
      var count := next;
      if full {
        count := capacity;
      }
      result := [];
      for offset := 0 to count
        invariant |result| == offset
        invariant forall i | 0 <= i < offset :: result[i] == history[|history| - 1 - i]
      {
        var index: int := next - 1 - offset;
        if index < 0 {
          index := index + capacity;
        }
        assert entries[index] == entries[..][index];
        result := result + [entries[index]];
      }
      NewestAt(history, capacity);
    }
  }
}
