/** Which tool call an output belongs to, in bounded memory: internal/turn/correlate.go. */
module Correlate {
  import opened Order

  /** Archive time; 0 is the zero time, which the source treats as "not set". */
  type Time = int

  datatype Ref = Ref(responseId: string, turnId: string, toolName: string, capturedAt: Time, occurrence: int)
  datatype Entry = Entry(callId: string, ref: Ref, consumed: bool)
  type Threads = map<string, seq<Entry>>

  /** The caps: entries per thread, threads, age of an entry, and time between sweeps. */
  datatype BoundsBase = Bounds(limit: nat, threadLimit: nat, maxAge: nat, sweepEvery: nat)
  type Bounds = b: BoundsBase | b.limit > 0 && b.threadLimit > 0 && b.sweepEvery > 0 witness Bounds(512, 4096, 86400, 60)

  datatype State = State(clock: Time, nextSweep: Time, threads: Threads)
  datatype Match = NoMatch | Ambiguous | Exact

  const EMPTY := State(0, 0, map[])
  const NO_REF := Ref("", "", "", 0, 0)

  function MaxTime(a: Time, b: Time): (later: Time)
    ensures later >= a && later >= b && (later == a || later == b)
  {
    if a < b then b else a
  }

  // ---- Entries of one thread ---------------------------------------------------------

  /** Too old to keep.  Nothing is while the clock is unset, and an entry without a time never is. */
  predicate Stale(clock: Time, e: Entry, b: Bounds) {
    clock != 0 && e.ref.capturedAt != 0 && e.ref.capturedAt < clock - b.maxAge
  }

  function Prune(clock: Time, es: seq<Entry>, b: Bounds): seq<Entry> {
    if es == [] then []
    else
      var n := |es| - 1;
      Prune(clock, es[..n], b) + if Stale(clock, es[n], b) then [] else [es[n]]
  }

  /** One more than the highest occurrence of the call among the entries. */
  function NextOccurrence(es: seq<Entry>, callId: string): (n: int)
    ensures n >= 1
    ensures forall e | e in es && e.callId == callId :: e.ref.occurrence < n
    ensures n == 1 || exists e :: e in es && e.callId == callId && e.ref.occurrence == n - 1
  {
    if es == [] then 1
    else
      var n := |es| - 1;
      var before := NextOccurrence(es[..n], callId);
      assert es == es[..n] + [es[n]];
      if es[n].callId == callId && es[n].ref.occurrence >= before then es[n].ref.occurrence + 1 else before
  }

  function Last(es: seq<Entry>, n: nat): seq<Entry> {
    if |es| > n then es[|es| - n..] else es
  }

  predicate Open(e: Entry, callId: string) {
    e.callId == callId && !e.consumed
  }

  /** How many unconsumed entries the call has. */
  function OpenCount(es: seq<Entry>, callId: string): nat {
    if es == [] then 0
    else
      var n := |es| - 1;
      OpenCount(es[..n], callId) + if Open(es[n], callId) then 1 else 0
  }

  /** The first of them, or `|es|`. */
  function FirstOpen(es: seq<Entry>, callId: string): (i: nat)
    ensures i <= |es|
    ensures i < |es| ==> Open(es[i], callId)
    ensures forall k | 0 <= k < i :: !Open(es[k], callId)
  {
    if es == [] then 0
    else
      var n := |es| - 1;
      var i := FirstOpen(es[..n], callId);
      if i < n || Open(es[n], callId) then i else n + 1
  }

  /** The newest capture time of a thread. */
  function Newest(es: seq<Entry>): Time
    requires es != []
  {
    if |es| == 1 then es[0].ref.capturedAt
    else MaxTime(Newest(es[..|es| - 1]), es[|es| - 1].ref.capturedAt)
  }

  // ---- All threads -------------------------------------------------------------------

  function Entries(threads: Threads, thread: string): seq<Entry> {
    if thread in threads then threads[thread] else []
  }

  /** Every thread pruned, and those with nothing left dropped. */
  function PruneAll(clock: Time, threads: Threads, b: Bounds): Threads {
    map t | t in threads && Prune(clock, threads[t], b) != [] :: Prune(clock, threads[t], b)
  }

  function NonEmpty(threads: Threads): Threads {
    map t | t in threads && threads[t] != [] :: threads[t]
  }

  /** Evicted first: the thread whose newest entry is oldest, then the lexically smaller one. */
  predicate Before(threads: Threads, t: string, u: string)
    requires t in threads && u in threads && threads[t] != [] && threads[u] != []
  {
    Newest(threads[t]) < Newest(threads[u]) || (Newest(threads[t]) == Newest(threads[u]) && Less(t, u))
  }

  ghost predicate NoEmpties(threads: Threads) {
    forall t | t in threads :: threads[t] != []
  }

  ghost predicate IsVictim(threads: Threads, v: string)
    requires NoEmpties(threads)
  {
    v in threads && forall t | t in threads && t != v :: Before(threads, v, t)
  }

  lemma {:induction false} VictimExists(threads: Threads)
    requires NoEmpties(threads) && threads != map[]
    ensures exists v :: IsVictim(threads, v)
    decreases |threads|
  {
    var t :| t in threads;
    var rest := threads - {t};
    if rest == map[] {
      assert forall u | u in threads && u != t :: u in rest;
      assert IsVictim(threads, t);
    } else {
      VictimExists(rest);
      var v :| IsVictim(rest, v);
      assert forall u | u in rest :: threads[u] == rest[u];
      LessTotal(t, v);
      if Before(threads, v, t) {
        forall u | u in threads && u != v
          ensures Before(threads, v, u)
        {
          assert u != t ==> Before(rest, v, u);
        }
        assert IsVictim(threads, v);
      } else {
        forall u | u in threads && u != t
          ensures Before(threads, t, u)
        {
          assert u != v ==> Before(rest, v, u);
          if u != v && Less(t, v) && Less(v, u) {
            LessTransitive(t, v, u);
          }
        }
        assert IsVictim(threads, t);
      }
    }
  }

  /** Whatever order the map is visited in, there is one thread to evict. */
  lemma VictimUnique(threads: Threads, v: string, w: string)
    requires NoEmpties(threads) && IsVictim(threads, v) && IsVictim(threads, w)
    ensures v == w
  {
    if v != w {
      assert Before(threads, v, w) && Before(threads, w, v);
      LessAsymmetric(v, w);
    }
  }

  ghost function Victim(threads: Threads): (v: string)
    requires NoEmpties(threads) && threads != map[]
    ensures IsVictim(threads, v)
  {
    VictimExists(threads);
    var v :| IsVictim(threads, v);
    v
  }

  ghost function Evict(threads: Threads): Threads {
    var full := NonEmpty(threads);
    if full == map[] then full else full - {Victim(full)}
  }

  ghost function EvictTo(threads: Threads, n: nat): Threads
    decreases |threads|
  {
    if |threads| <= n then threads
    else
      EvictShrinks(threads);
      EvictTo(Evict(threads), n)
  }

  lemma EvictShrinks(threads: Threads)
    requires threads != map[]
    ensures |Evict(threads)| < |threads|
  {
    hide Before;
    var full := NonEmpty(threads);
    SubsetSize(full.Keys, threads.Keys);
    if full == map[] {
      var t :| t in threads;
      assert |threads.Keys| > 0;
    } else {
      SubsetSize((full - {Victim(full)}).Keys, full.Keys);
    }
  }

  // ---- What each operation means -----------------------------------------------------

  function Advance(s: State, at: Time): State {
    s.(clock := MaxTime(s.clock, at))
  }

  function Sweep(s: State, b: Bounds): State {
    State(s.clock, s.clock + b.sweepEvery, PruneAll(s.clock, s.threads, b))
  }

  /** Inserting a call into its thread at the current clock, with both caps applied. */
  ghost function Insert(clock: Time, threads: Threads, thread: string, callId: string, ref: Ref, b: Bounds): (Threads, int) {
    var entries := Prune(clock, Entries(threads, thread), b);
    var occurrence := NextOccurrence(entries, callId);
    var added := Prune(clock, entries + [Entry(callId, ref.(occurrence := occurrence), false)], b);
    if added == [] then (threads - {thread}, 0)
    else
      var grown := threads[thread := Last(added, b.limit)];
      (if |grown| > b.threadLimit then Evict(grown) else grown, occurrence)
  }

  predicate SweepDue(s: State) {
    s.nextSweep == 0 || s.clock >= s.nextSweep
  }

  ghost function Record(s: State, thread: string, callId: string, ref: Ref, b: Bounds): (State, int) {
    if thread == "" || callId == "" then (s, 0)
    else
      var advanced := Advance(s, ref.capturedAt);
      var swept := if SweepDue(advanced) then Sweep(advanced, b) else advanced;
      var (threads, occurrence) := Insert(swept.clock, swept.threads, thread, callId, ref, b);
      (swept.(threads := threads), occurrence)
  }

  /** Finding the one open origin of a call in its own thread, and consuming it. */
  function Find(clock: Time, threads: Threads, thread: string, callId: string, b: Bounds): (Threads, Ref, Match) {
    var entries := Prune(clock, Entries(threads, thread), b);
    var pruned := if entries == [] then threads - {thread} else threads[thread := entries];
    if OpenCount(entries, callId) == 0 then (pruned, NO_REF, NoMatch)
    else if OpenCount(entries, callId) > 1 then (pruned, NO_REF, Ambiguous)
    else
      OpenCountFirst(entries, callId);
      var i := FirstOpen(entries, callId);
      (threads[thread := entries[i := entries[i].(consumed := true)]], entries[i].ref, Exact)
  }

  lemma {:induction false} OpenCountFirst(es: seq<Entry>, callId: string)
    ensures OpenCount(es, callId) == 0 <==> FirstOpen(es, callId) == |es|
  {
    if es != [] {
      OpenCountFirst(es[..|es| - 1], callId);
    }
  }

  function Lookup(s: State, thread: string, callId: string, b: Bounds): (State, Ref, Match) {
    if thread == "" || callId == "" then (s, NO_REF, NoMatch)
    else
      var (threads, ref, found) := Find(s.clock, s.threads, thread, callId, b);
      (s.(threads := threads), ref, found)
  }

  function Capped(threads: Threads, b: Bounds): Threads {
    map t | t in threads :: Last(threads[t], b.limit)
  }

  /** Decoded or copied state made fit to be resident. */
  ghost function EnforceLimits(s: State, b: Bounds): State {
    var swept := Sweep(s, b);
    swept.(threads := EvictTo(Capped(swept.threads, b), b.threadLimit))
  }

  ghost function Snapshot(s: State, b: Bounds): State {
    EnforceLimits(State(s.clock, 0, s.threads), b)
  }

  // ---- The index itself --------------------------------------------------------------

  class CallIndex {
    const b: Bounds
    var clock: Time
    var nextSweep: Time
    var threads: Threads

    ghost function Now(): State
      reads this
    {
      State(clock, nextSweep, threads)
    }

    constructor (b: Bounds)
      ensures this.b == b && Now() == EMPTY
    {
      this.b := b;
      clock, nextSweep, threads := 0, 0, map[];
    }

    /** What a checkpoint holds, repaired before it becomes resident. */
    constructor Decode(b: Bounds, clock: Time, threads: Threads)
      requires "" !in threads
      ensures this.b == b && Now() == EnforceLimits(State(clock, 0, threads), b)
    {
      this.b := b;
      this.clock, this.nextSweep, this.threads := clock, 0, threads;
      new;
      Enforce();
    }

    /** A timestamp older than the archive clock never rewinds it. */
    method AdvanceTo(at: Time)
      modifies this`clock
      ensures Now() == Advance(old(Now()), at)
      ensures clock == if at > old(clock) then at else old(clock)
    {
      if at > clock {
        clock := at;
      }
    }

    method PruneEntries(entries: seq<Entry>) returns (kept: seq<Entry>)
      ensures kept == Prune(clock, entries, b)
    {
      if clock == 0 {
        NothingStale(entries, b);
        return entries;
      }
      var cutoff := clock - b.maxAge;
      kept := [];
      for i := 0 to |entries|
        invariant kept == Prune(clock, entries[..i], b)
      {
        assert entries[..i + 1][..i] == entries[..i];
        if entries[i].ref.capturedAt == 0 || !(entries[i].ref.capturedAt < cutoff) {
          kept := kept + [entries[i]];
        }
      }
      assert entries[..|entries|] == entries;
    }

    method SweepAll()
      modifies this`nextSweep, this`threads
      ensures Now() == Sweep(old(Now()), b)
    {
      hide Prune;
      nextSweep := clock + b.sweepEvery;
      ghost var was := threads;
      var left := threads.Keys;
      while left != {}
        invariant nextSweep == clock + b.sweepEvery
        invariant left <= was.Keys && threads.Keys <= was.Keys
        invariant forall t | t in left :: t in threads && threads[t] == was[t]
        invariant forall t | t in was && t !in left ::
                    if Prune(clock, was[t], b) == [] then t !in threads
                    else t in threads && threads[t] == Prune(clock, was[t], b)
        decreases left
      {
        var thread :| thread in left;
        left := left - {thread};
        var entries := PruneEntries(threads[thread]);
        if |entries| == 0 {
          threads := threads - {thread};
        } else {
          threads := threads[thread := entries];
        }
      }
      assert threads == PruneAll(clock, was, b);
    }

    /** Evicts the thread whose newest entry is oldest, whatever order the map is visited in. */
    method EvictOldest()
      requires "" !in threads
      modifies this`threads
      ensures threads == Evict(old(threads))
    {
      hide Less, Newest;
      ghost var was := threads;
      ghost var full := NonEmpty(was);
      var oldest, oldestNewest := "", 0;
      var left := threads.Keys;
      while left != {}
        invariant left <= threads.Keys && full.Keys <= threads.Keys <= was.Keys
        invariant forall t | t in threads :: threads[t] == was[t]
        invariant forall t | t in threads && t !in left :: t in full
        invariant oldest == "" ==> forall t | t in full :: t in left
        invariant oldest != "" ==>
                    && oldest in full && oldest !in left && oldestNewest == Newest(full[oldest])
                    && forall t | t in full && t !in left && t != oldest :: Before(full, oldest, t)
        decreases left
      {
        var thread :| thread in left;
        left := left - {thread};
        if |threads[thread]| == 0 {
          threads := threads - {thread};
          continue;
        }
        var newest := NewestOf(threads[thread]);
        if oldest == "" || newest < oldestNewest || (newest == oldestNewest && Less(thread, oldest)) {
          if oldest != "" {
            Displaces(full, thread, oldest, left);
          }
          oldest, oldestNewest := thread, newest;
        } else {
          LessTotal(thread, oldest);
        }
      }
      assert threads == full;
      if oldest != "" {
        assert IsVictim(full, oldest);
        VictimUnique(full, oldest, Victim(full));
        threads := threads - {oldest};
      }
    }

    method NewestOf(entries: seq<Entry>) returns (newest: Time)
      requires |entries| > 0
      ensures newest == Newest(entries)
    {
      newest := entries[0].ref.capturedAt;
      for i := 1 to |entries|
        invariant newest == Newest(entries[..i])
      {
        assert entries[..i + 1][..i] == entries[..i];
        if entries[i].ref.capturedAt > newest {
          newest := entries[i].ref.capturedAt;
        }
      }
      assert entries[..|entries|] == entries;
    }

    method Enforce()
      requires "" !in threads
      modifies this`nextSweep, this`threads
      ensures Now() == EnforceLimits(old(Now()), b)
    {
      hide Prune, Evict, EvictTo, Capped, PruneAll;
      ghost var was := threads;
      SweepAll();
      assert threads.Keys <= was.Keys by {
        PruneAllKeys(clock, was, b);
      }
      CapEntries();
      EvictDown();
    }

    method CapEntries()
      modifies this`threads
      ensures threads == Capped(old(threads), b) && threads.Keys == old(threads.Keys)
    {
      var left := threads.Keys;
      while left != {}
        invariant left <= old(threads).Keys == threads.Keys
        invariant forall t | t in left :: threads[t] == old(threads)[t]
        invariant forall t | t in old(threads) && t !in left :: threads[t] == Last(old(threads)[t], b.limit)
        decreases left
      {
        var thread :| thread in left;
        left := left - {thread};
        if |threads[thread]| > b.limit {
          threads := threads[thread := threads[thread][|threads[thread]| - b.limit..]];
        }
      }
      assert threads == Capped(old(threads), b);
    }

    method EvictDown()
      requires "" !in threads
      modifies this`threads
      ensures threads == EvictTo(old(threads), b.threadLimit)
    {
      hide Evict;
      while |threads| > b.threadLimit
        invariant "" !in threads
        invariant EvictTo(threads, b.threadLimit) == EvictTo(old(threads), b.threadLimit)
        decreases |threads|
      {
        EvictShrinks(threads);
        EvictKeeps(threads);
        EvictOldest();
      }
    }

    /** Retains a completed call, and says which occurrence of its id it is. */
    method RecordCall(thread: string, callId: string, ref: Ref) returns (occurrence: int)
      requires "" !in threads
      modifies this
      ensures (Now(), occurrence) == Record(old(Now()), thread, callId, ref, b)
    {
      hide Prune, Evict, NextOccurrence;
      if thread == "" || callId == "" {
        return 0;
      }
      AdvanceTo(ref.capturedAt);
      if nextSweep == 0 || !(clock < nextSweep) {
        SweepAll();
      }
      var entries := PruneEntries(if thread in threads then threads[thread] else []);
      occurrence := Numbered(entries, callId);
      entries := entries + [Entry(callId, ref.(occurrence := occurrence), false)];
      entries := PruneEntries(entries);
      if |entries| == 0 {
        threads := threads - {thread};
        return 0;
      }
      if |entries| > b.limit {
        entries := entries[|entries| - b.limit..];
      }
      threads := threads[thread := entries];
      if |threads| > b.threadLimit {
        EvictOldest();
      }
    }

    method Numbered(entries: seq<Entry>, callId: string) returns (occurrence: int)
      ensures occurrence == NextOccurrence(entries, callId)
    {
      occurrence := 1;
      for i := 0 to |entries|
        invariant occurrence == NextOccurrence(entries[..i], callId)
      {
        assert entries[..i + 1][..i] == entries[..i];
        if entries[i].callId == callId && entries[i].ref.occurrence >= occurrence {
          occurrence := entries[i].ref.occurrence + 1;
        }
      }
      assert entries[..|entries|] == entries;
    }

    /** Finds an unconsumed origin in the supplied thread only; an exact match is consumed. */
    method LookupCall(thread: string, callId: string) returns (ref: Ref, found: Match)
      modifies this`threads
      ensures (Now(), ref, found) == Lookup(old(Now()), thread, callId, b)
    {
      hide Prune;
      if thread == "" || callId == "" {
        return NO_REF, NoMatch;
      }
      var entries := PruneEntries(if thread in threads then threads[thread] else []);
      if |entries| == 0 {
        threads := threads - {thread};
      } else {
        threads := threads[thread := entries];
      }
      var matchAt := -1;
      for i := 0 to |entries|
        invariant -1 <= matchAt < i
        invariant OpenCount(entries[..i], callId) == if matchAt < 0 then 0 else 1
        invariant FirstOpen(entries[..i], callId) == if matchAt < 0 then i else matchAt
      {
        assert entries[..i + 1][..i] == entries[..i];
        if entries[i].callId != callId || entries[i].consumed {
          continue;
        }
        if matchAt >= 0 {
          OpenCountGrows(entries, i + 1, callId);
          return NO_REF, Ambiguous;
        }
        matchAt := i;
      }
      assert entries[..|entries|] == entries;
      if matchAt < 0 {
        return NO_REF, NoMatch;
      }
      ref := entries[matchAt].ref;
      entries := entries[matchAt := entries[matchAt].(consumed := true)];
      threads := threads[thread := entries];
      assert threads == old(threads)[thread := entries];
      return ref, Exact;
    }

    method TakeSnapshot() returns (copy: CallIndex)
      requires "" !in threads
      ensures fresh(copy) && copy.b == b && copy.Now() == Snapshot(Now(), b)
    {
      copy := new CallIndex.Decode(b, clock, threads);
    }
  }

  lemma {:induction false} NothingStale(es: seq<Entry>, b: Bounds)
    ensures Prune(0, es, b) == es
  {
    if es != [] {
      NothingStale(es[..|es| - 1], b);
    }
  }

  lemma Displaces(threads: Threads, t: string, v: string, left: set<string>)
    requires NoEmpties(threads) && t in threads && v in threads && t != v && Before(threads, t, v)
    requires forall u | u in threads && u !in left && u != v && u != t :: Before(threads, v, u)
    ensures forall u | u in threads && u !in left && u != t :: Before(threads, t, u)
  {
    forall u | u in threads && u !in left && u != t
      ensures Before(threads, t, u)
    {
      if u != v && Less(t, v) && Less(v, u) {
        LessTransitive(t, v, u);
      }
    }
  }

  lemma PruneAllKeys(clock: Time, threads: Threads, b: Bounds)
    ensures PruneAll(clock, threads, b).Keys <= threads.Keys
  {}

  lemma EvictKeeps(threads: Threads)
    ensures Evict(threads).Keys <= threads.Keys
  {}

  lemma {:induction false} OpenCountGrows(es: seq<Entry>, k: nat, callId: string)
    requires k <= |es|
    ensures OpenCount(es[..k], callId) <= OpenCount(es, callId)
    decreases |es|
  {
    if k < |es| {
      assert es[..|es| - 1][..k] == es[..k];
      OpenCountGrows(es[..|es| - 1], k, callId);
    } else {
      assert es[..k] == es;
    }
  }
}
