/**
 What the correlation index promises over whole runs: internal/turn/correlate.go.  Sweeping
 late cannot be observed, the caps hold after every step, and a call is matched at most once
 for each time it was recorded.
 */
module CorrelateLaws {
  import opened Order
  import opened Correlate

  // ---- Runs ---------------------------------------------------------------------------

  /** What the reducer asks of the index, with a checkpoint and restart in between. */
  datatype Op =
    | Tick(at: Time)
    | Put(thread: string, callId: string, ref: Ref)
    | Get(thread: string, callId: string)
    | Peek
    | Restart

  datatype Answer =
    | Silent
    | Numbered(occurrence: int)
    | Origin(ref: Ref, found: Match)
    | Contents(clock: Time, threads: Threads)

  ghost function Step(s: State, op: Op, b: Bounds): (State, Answer) {
    match op
    case Tick(at) => (Advance(s, at), Silent)
    case Put(thread, callId, ref) =>
      var (next, occurrence) := Record(s, thread, callId, ref, b);
      (next, Numbered(occurrence))
    case Get(thread, callId) =>
      var (next, ref, found) := Lookup(s, thread, callId, b);
      (next, Origin(ref, found))
    case Peek => var copy := Snapshot(s, b); (s, Contents(copy.clock, copy.threads))
    case Restart =>
      var copy := Snapshot(s, b);
      (EnforceLimits(State(copy.clock, 0, copy.threads), b), Silent)
  }

  ghost function Run(ops: seq<Op>, b: Bounds): (State, seq<Answer>) {
    if ops == [] then (EMPTY, [])
    else
      var (s, answers) := Run(ops[..|ops| - 1], b);
      var (next, answer) := Step(s, ops[|ops| - 1], b);
      (next, answers + [answer])
  }

  // ---- The reference: an index that prunes every thread on every step -----------------

  datatype Eager = Eager(clock: Time, threads: Threads)

  ghost function EagerStep(e: Eager, op: Op, b: Bounds): (Eager, Answer) {
    var clock := match op
      case Tick(at) => MaxTime(e.clock, at)
      case Put(thread, callId, ref) =>
        if thread == "" || callId == "" then e.clock else MaxTime(e.clock, ref.capturedAt)
      case _ => e.clock;
    var threads := PruneAll(clock, e.threads, b);
    match op
    case Put(thread, callId, ref) =>
      if thread == "" || callId == "" then (Eager(clock, threads), Numbered(0))
      else
        var (next, occurrence) := Insert(clock, threads, thread, callId, ref, b);
        (Eager(clock, next), Numbered(occurrence))
    case Get(thread, callId) =>
      if thread == "" || callId == "" then (Eager(clock, threads), Origin(NO_REF, NoMatch))
      else
        var (next, ref, found) := Find(clock, threads, thread, callId, b);
        (Eager(clock, next), Origin(ref, found))
    case Peek => (Eager(clock, threads), Contents(clock, threads))
    case _ => (Eager(clock, threads), Silent)
  }

  ghost function EagerRun(ops: seq<Op>, b: Bounds): (Eager, seq<Answer>) {
    if ops == [] then (Eager(0, map[]), [])
    else
      var (e, answers) := EagerRun(ops[..|ops| - 1], b);
      var (next, answer) := EagerStep(e, ops[|ops| - 1], b);
      (next, answers + [answer])
  }

  // ---- Pruning ------------------------------------------------------------------------

  lemma {:induction false} PruneMembers(clock: Time, es: seq<Entry>, b: Bounds)
    ensures forall e :: e in Prune(clock, es, b) <==> e in es && !Stale(clock, e, b)
    ensures |Prune(clock, es, b)| <= |es|
  {
    if es != [] {
      var n := |es| - 1;
      PruneMembers(clock, es[..n], b);
      assert es == es[..n] + [es[n]];
    }
  }

  lemma {:induction false} PruneFresh(clock: Time, es: seq<Entry>, b: Bounds)
    requires forall e | e in es :: !Stale(clock, e, b)
    ensures Prune(clock, es, b) == es
  {
    if es != [] {
      var n := |es| - 1;
      assert es == es[..n] + [es[n]] && es[n] in es;
      PruneFresh(clock, es[..n], b);
    }
  }

  /** The clock only moves forward, so what an earlier sweep dropped a later one would have. */
  lemma {:induction false} PruneTwice(earlier: Time, later: Time, es: seq<Entry>, b: Bounds)
    requires 0 <= earlier <= later
    ensures Prune(later, Prune(earlier, es, b), b) == Prune(later, es, b)
  {
    if es != [] {
      var n := |es| - 1;
      PruneTwice(earlier, later, es[..n], b);
      var before := Prune(earlier, es[..n], b);
      assert (before + [es[n]])[..|before|] == before;
      assert before + [] == before;
    }
  }

  lemma PruneAllTwice(earlier: Time, later: Time, threads: Threads, b: Bounds)
    requires 0 <= earlier <= later
    ensures PruneAll(later, PruneAll(earlier, threads, b), b) == PruneAll(later, threads, b)
  {
    forall t | t in threads
      ensures Prune(later, Prune(earlier, threads[t], b), b) == Prune(later, threads[t], b)
    {
      PruneTwice(earlier, later, threads[t], b);
    }
    hide Stale;
    assert Prune(later, [], b) == [];
  }

  lemma {:induction false} PruneAllUpdate(clock: Time, threads: Threads, t: string, es: seq<Entry>, b: Bounds)
    requires es != [] && Prune(clock, es, b) == es
    ensures PruneAll(clock, threads[t := es], b) == PruneAll(clock, threads, b)[t := es]
  {
    hide Prune;
  }

  lemma PruneAllRemove(clock: Time, threads: Threads, t: string, b: Bounds)
    ensures PruneAll(clock, threads - {t}, b) == PruneAll(clock, threads, b) - {t}
  {
    hide Prune;
  }

  /** A thread's entries, pruned, are the same with and without the sweep. */
  lemma {:induction false} EntriesAgree(clock: Time, threads: Threads, t: string, b: Bounds)
    requires clock >= 0
    ensures Prune(clock, Entries(PruneAll(clock, threads, b), t), b) == Prune(clock, Entries(threads, t), b)
  {
    if t in threads {
      PruneTwice(clock, clock, threads[t], b);
    }
  }

  // ---- What every step keeps ----------------------------------------------------------

  /** Occurrence numbers of one call id only grow along a thread. */
  ghost predicate Ordered(es: seq<Entry>) {
    forall i, j | 0 <= i < j < |es| && es[i].callId == es[j].callId :: es[i].ref.occurrence < es[j].ref.occurrence
  }

  ghost predicate Timed(threads: Threads) {
    forall t | t in threads :: forall e | e in threads[t] :: e.ref.capturedAt != 0
  }

  ghost predicate ThreadsBounded(threads: Threads, b: Bounds) {
    "" !in threads && forall t | t in threads :: threads[t] != [] && |threads[t]| <= b.limit && Ordered(threads[t])
  }

  ghost predicate Bounded(threads: Threads, b: Bounds) {
    |threads| <= b.threadLimit && ThreadsBounded(threads, b)
  }

  ghost predicate Invariant(s: State, b: Bounds) {
    s.clock >= 0 && Bounded(s.threads, b)
  }

  lemma {:induction false} PruneOrdered(clock: Time, es: seq<Entry>, b: Bounds)
    requires Ordered(es)
    ensures Ordered(Prune(clock, es, b))
  {
    hide Stale;
    if es != [] {
      var n := |es| - 1;
      assert Ordered(es[..n]);
      PruneOrdered(clock, es[..n], b);
      PruneMembers(clock, es[..n], b);
      var before := Prune(clock, es[..n], b);
      forall i | 0 <= i < |before| && before[i].callId == es[n].callId
        ensures before[i].ref.occurrence < es[n].ref.occurrence
      {
        assert before[i] in es[..n];
        var k :| 0 <= k < n && es[k] == before[i];
      }
    }
  }

  lemma PruneAllBounded(clock: Time, threads: Threads, b: Bounds)
    requires Bounded(threads, b)
    ensures Bounded(PruneAll(clock, threads, b), b)
    ensures Timed(threads) ==> Timed(PruneAll(clock, threads, b))
  {
    hide Stale;
    SubsetSize(PruneAll(clock, threads, b).Keys, threads.Keys);
    forall t | t in threads
      ensures Ordered(Prune(clock, threads[t], b)) && |Prune(clock, threads[t], b)| <= |threads[t]|
      ensures forall e | e in Prune(clock, threads[t], b) :: e in threads[t]
    {
      PruneOrdered(clock, threads[t], b);
      PruneMembers(clock, threads[t], b);
    }
  }

  lemma {:induction false} AppendOrdered(es: seq<Entry>, e: Entry)
    requires Ordered(es) && e.ref.occurrence == NextOccurrence(es, e.callId)
    ensures Ordered(es + [e])
  {
    var all := es + [e];
    assert forall i | 0 <= i < |es| :: all[i] == es[i] && es[i] in es;
  }

  /** What goes into a thread on insertion: its own entries, in order, and perhaps the new one. */
  lemma {:induction false} AddedOrdered(clock: Time, es: seq<Entry>, callId: string, ref: Ref, b: Bounds)
    requires Ordered(es)
    ensures var entries := Prune(clock, es, b);
            var e := Entry(callId, ref.(occurrence := NextOccurrence(entries, callId)), false);
            var kept := Last(Prune(clock, entries + [e], b), b.limit);
            Ordered(kept) && |kept| <= b.limit && forall x | x in kept :: !Stale(clock, x, b) && (x in es || x == e)
  {
    hide Stale, NextOccurrence, Prune;
    var entries := Prune(clock, es, b);
    var e := Entry(callId, ref.(occurrence := NextOccurrence(entries, callId)), false);
    PruneOrdered(clock, es, b);
    PruneMembers(clock, es, b);
    AppendOrdered(entries, e);
    PruneOrdered(clock, entries + [e], b);
    PruneMembers(clock, entries + [e], b);
    var added := Prune(clock, entries + [e], b);
    assert forall x | x in Last(added, b.limit) :: x in added;
  }

  /** Replacing or removing one thread keeps the rest as they are. */
  lemma UpdateBounded(threads: Threads, t: string, es: seq<Entry>, b: Bounds)
    requires t != "" && es != [] && |es| <= b.limit && Ordered(es)
    requires ThreadsBounded(threads, b)
    ensures ThreadsBounded(threads[t := es], b)
  {
    hide Ordered;
  }

  lemma RemoveBounded(threads: Threads, t: string, b: Bounds)
    requires Bounded(threads, b)
    ensures Bounded(threads - {t}, b)
  {
    hide Ordered;
    SubsetSize((threads - {t}).Keys, threads.Keys);
  }

  lemma UpdateSize(threads: Threads, t: string, es: seq<Entry>)
    ensures |threads[t := es]| == |threads| + if t in threads then 0 else 1
  {
    assert threads[t := es].Keys == threads.Keys + {t};
    if t in threads {
      assert threads.Keys + {t} == threads.Keys;
    }
  }

  lemma UpdateTimed(threads: Threads, t: string, es: seq<Entry>)
    requires Timed(threads)
    ensures Timed(threads - {t})
    ensures (forall e | e in es :: e.ref.capturedAt != 0) ==> Timed(threads[t := es])
  {}

  lemma EvictBounded(grown: Threads, b: Bounds)
    requires ThreadsBounded(grown, b) && |grown| <= b.threadLimit + 1
    ensures var left := if |grown| > b.threadLimit then Evict(grown) else grown;
            Bounded(left, b) && (Timed(grown) ==> Timed(left))
  {
    hide Ordered, Before;
    if |grown| > b.threadLimit {
      EvictShrinks(grown);
    }
  }

  lemma InsertBounded(clock: Time, threads: Threads, thread: string, callId: string, ref: Ref, b: Bounds)
    requires Bounded(threads, b) && thread != ""
    ensures Bounded(Insert(clock, threads, thread, callId, ref, b).0, b)
    ensures Timed(threads) && ref.capturedAt != 0 ==> Timed(Insert(clock, threads, thread, callId, ref, b).0)
  {
    hide Stale, NextOccurrence, Prune, Ordered, Before, Evict, ThreadsBounded, Bounded, Timed;
    EmptyOrdered();
    EntriesBounded(threads, thread, b);
    var es := Entries(threads, thread);
    AddedOrdered(clock, es, callId, ref, b);
    var entries := Prune(clock, es, b);
    var e := Entry(callId, ref.(occurrence := NextOccurrence(entries, callId)), false);
    var added := Prune(clock, entries + [e], b);
    RemoveBounded(threads, thread, b);
    UpdateSize(threads, thread, Last(added, b.limit));
    if Timed(threads) {
      EntriesTimed(threads, thread);
      UpdateTimed(threads, thread, Last(added, b.limit));
    }
    if added != [] {
      UpdateBounded(threads, thread, Last(added, b.limit), b);
      EvictBounded(threads[thread := Last(added, b.limit)], b);
    }
  }

  lemma EntriesTimed(threads: Threads, t: string)
    requires Timed(threads)
    ensures forall e | e in Entries(threads, t) :: e.ref.capturedAt != 0
  {}

  lemma EntriesBounded(threads: Threads, t: string, b: Bounds)
    requires Bounded(threads, b)
    ensures Ordered(Entries(threads, t)) && |Entries(threads, t)| <= b.limit
    ensures |threads| <= b.threadLimit && ThreadsBounded(threads, b)
  {
    EmptyOrdered();
    hide Ordered;
  }

  lemma EmptyOrdered()
    ensures Ordered([])
  {}

  lemma {:induction false} EvictToBounded(threads: Threads, b: Bounds)
    ensures |EvictTo(threads, b.threadLimit)| <= b.threadLimit
    ensures EvictTo(threads, b.threadLimit).Keys <= threads.Keys
    ensures forall t | t in EvictTo(threads, b.threadLimit) :: EvictTo(threads, b.threadLimit)[t] == threads[t]
    decreases |threads|
  {
    hide Before;
    if |threads| > b.threadLimit {
      EvictShrinks(threads);
      EvictToBounded(Evict(threads), b);
    }
  }

  /** Copying and decoding repair any state at all into one within both caps. */
  lemma RepairIsBounded(s: State, b: Bounds)
    ensures var r := EnforceLimits(s, b).threads;
            |r| <= b.threadLimit && forall t | t in r :: r[t] != [] && |r[t]| <= b.limit
  {
    hide Prune, EvictTo;
    EvictToBounded(Capped(PruneAll(s.clock, s.threads, b), b), b);
  }

  /** Of state that is within its bounds, a copy keeps exactly what an eager index would hold. */
  lemma RepairIsPruning(s: State, b: Bounds)
    requires Invariant(s, b)
    ensures EnforceLimits(s, b) == Sweep(s, b)
    ensures EnforceLimits(State(s.clock, 0, Sweep(s, b).threads), b) == Sweep(s, b)
  {
    hide Prune;
    var swept := PruneAll(s.clock, s.threads, b);
    PruneAllBounded(s.clock, s.threads, b);
    assert Capped(swept, b) == swept;
    PruneAllTwice(s.clock, s.clock, s.threads, b);
  }

  /** Marking an entry consumed changes neither its age nor its number. */
  lemma MarkedSame(clock: Time, es: seq<Entry>, i: nat, b: Bounds)
    requires i < |es|
    ensures var marked := es[i := es[i].(consumed := true)];
            && (Ordered(es) ==> Ordered(marked))
            && ((forall e | e in es :: !Stale(clock, e, b)) ==> forall e | e in marked :: !Stale(clock, e, b))
            && ((forall e | e in es :: e.ref.capturedAt != 0) ==> forall e | e in marked :: e.ref.capturedAt != 0)
  {
    var marked := es[i := es[i].(consumed := true)];
    assert forall k | 0 <= k < |es| :: marked[k].ref == es[k].ref && marked[k].callId == es[k].callId && es[k] in es;
  }

  lemma FindBounded(clock: Time, threads: Threads, thread: string, callId: string, b: Bounds)
    requires Bounded(threads, b) && thread != ""
    ensures Bounded(Find(clock, threads, thread, callId, b).0, b)
    ensures Timed(threads) ==> Timed(Find(clock, threads, thread, callId, b).0)
  {
    hide Stale, Prune, Ordered, OpenCount, FirstOpen, ThreadsBounded, Timed;
    var es := Entries(threads, thread);
    EntriesBounded(threads, thread, b);
    PruneOrdered(clock, es, b);
    PruneMembers(clock, es, b);
    var entries := Prune(clock, es, b);
    RemoveBounded(threads, thread, b);
    UpdateSize(threads, thread, entries);
    if Timed(threads) {
      EntriesTimed(threads, thread);
      UpdateTimed(threads, thread, entries);
    }
    if entries == [] {
      NoneOpen(callId);
    } else {
      UpdateBounded(threads, thread, entries, b);
      OpenCountFirst(entries, callId);
      var i := FirstOpen(entries, callId);
      if i < |entries| {
        MarkedSame(clock, entries, i, b);
        var marked := entries[i := entries[i].(consumed := true)];
        UpdateBounded(threads, thread, marked, b);
        UpdateSize(threads, thread, marked);
        if Timed(threads) {
          UpdateTimed(threads, thread, marked);
        }
      }
    }
  }

  lemma {:induction false} NoneOpen(callId: string)
    ensures OpenCount([], callId) == 0
  {}

  /** Every step keeps both caps and the order of occurrence numbers. */
  lemma StepKeepsInvariant(s: State, op: Op, b: Bounds)
    requires Invariant(s, b)
    ensures Invariant(Step(s, op, b).0, b)
    ensures Timed(s.threads) && (op.Put? ==> op.ref.capturedAt != 0) ==> Timed(Step(s, op, b).0.threads)
  {
    hide Bounded, Timed, Prune, Insert, Find, PruneAll, EnforceLimits, Snapshot;
    match op
    case Put(thread, callId, ref) =>
      var advanced := Advance(s, ref.capturedAt);
      PruneAllBounded(advanced.clock, s.threads, b);
      if thread != "" && callId != "" {
        var threads := if SweepDue(advanced) then Sweep(advanced, b).threads else s.threads;
        InsertBounded(advanced.clock, threads, thread, callId, ref, b);
      }
    case Get(thread, callId) =>
      if thread != "" && callId != "" {
        FindBounded(s.clock, s.threads, thread, callId, b);
      }
    case Restart =>
      PruneAllBounded(s.clock, s.threads, b);
      RestartIsSweep(s, b);
    case _ =>
  }

  /** Saving and restoring reproduces the index as an eager one would hold it. */
  lemma RestartIsSweep(s: State, b: Bounds)
    requires Invariant(s, b)
    ensures Step(s, Restart, b).0 == Sweep(s, b)
    ensures Snapshot(s, b) == Sweep(s, b)
  {
    hide PruneAll, EnforceLimits, Bounded;
    var copied := State(s.clock, 0, s.threads);
    RepairIsPruning(copied, b);
    assert Sweep(copied, b) == Sweep(s, b);
  }

  lemma {:induction false} RunKeepsInvariant(ops: seq<Op>, b: Bounds)
    ensures Invariant(Run(ops, b).0, b)
  {
    if ops != [] {
      RunKeepsInvariant(ops[..|ops| - 1], b);
      StepKeepsInvariant(Run(ops[..|ops| - 1], b).0, ops[|ops| - 1], b);
    }
  }

  // ---- Sweeping late is unobservable --------------------------------------------------

  /** The lazy index is the eager one plus entries that no answer depends on. */
  ghost predicate Refines(s: State, e: Eager, b: Bounds) {
    && Invariant(s, b)
    && Timed(s.threads)
    && e == Eager(s.clock, PruneAll(s.clock, s.threads, b))
  }

  lemma {:induction false} NewestOfPruned(clock: Time, es: seq<Entry>, b: Bounds)
    requires es != [] && forall e | e in es :: e.ref.capturedAt != 0
    ensures var kept := Prune(clock, es, b);
            if kept == [] then clock != 0 && Newest(es) < clock - b.maxAge
            else Newest(kept) == Newest(es) && (clock != 0 ==> Newest(es) >= clock - b.maxAge)
  {
    hide Newest, Prune;
    PruneMembers(clock, es, b);
    NewestIsNewest(es);
    var kept := Prune(clock, es, b);
    var top :| top in es && top.ref.capturedAt == Newest(es);
    if kept == [] {
      assert top !in kept;
    } else {
      NewestIsNewest(kept);
      var e :| e in kept && e.ref.capturedAt == Newest(kept);
      assert e in es;
      assert top in kept;
    }
  }

  lemma {:induction false} NewestIsNewest(es: seq<Entry>)
    requires es != []
    ensures forall e | e in es :: e.ref.capturedAt <= Newest(es)
    ensures exists e | e in es :: e.ref.capturedAt == Newest(es)
  {
    var n := |es| - 1;
    if n == 0 {
      assert es == [es[0]];
    } else {
      NewestIsNewest(es[..n]);
      var top :| top in es[..n] && top.ref.capturedAt == Newest(es[..n]);
      assert es == es[..n] + [es[n]] && top in es && es[n] in es;
    }
  }

  /** While stale threads are resident, one of them is evicted before any other. */
  lemma {:induction false} VictimIsStale(clock: Time, threads: Threads, t: string, b: Bounds)
    requires NoEmpties(threads) && Timed(threads)
    requires t in threads && Prune(clock, threads[t], b) == []
    ensures Prune(clock, threads[Victim(threads)], b) == []
  {
    hide Newest, Prune, Less;
    var v := Victim(threads);
    NewestOfPruned(clock, threads[t], b);
    NewestOfPruned(clock, threads[v], b);
    assert v != t ==> Before(threads, v, t);
  }

  /** When none is, the sweep changes nothing about who is evicted. */
  lemma {:induction false} VictimUnaffected(clock: Time, threads: Threads, b: Bounds)
    requires NoEmpties(threads) && Timed(threads) && threads != map[]
    requires forall t | t in threads :: Prune(clock, threads[t], b) != []
    ensures PruneAll(clock, threads, b).Keys == threads.Keys && NoEmpties(PruneAll(clock, threads, b))
    ensures Victim(PruneAll(clock, threads, b)) == Victim(threads)
  {
    hide Newest, Prune, Less;
    var v, pruned := Victim(threads), PruneAll(clock, threads, b);
    forall t | t in threads && t != v
      ensures Before(pruned, v, t)
    {
      assert Before(threads, v, t);
      NewestOfPruned(clock, threads[v], b);
      NewestOfPruned(clock, threads[t], b);
    }
    assert IsVictim(pruned, v);
    VictimUnique(pruned, v, Victim(pruned));
  }

  lemma {:induction false} AllStay(clock: Time, threads: Threads, b: Bounds)
    ensures |PruneAll(clock, threads, b)| <= |threads|
    ensures |PruneAll(clock, threads, b)| == |threads| ==> forall t | t in threads :: Prune(clock, threads[t], b) != []
  {
    hide Prune;
    SubsetSize(PruneAll(clock, threads, b).Keys, threads.Keys);
  }

  /** Evicting before or after the sweep leaves the same live threads. */
  lemma EvictRefines(clock: Time, threads: Threads, b: Bounds)
    requires ThreadsBounded(threads, b) && Timed(threads) && |threads| <= b.threadLimit + 1
    ensures var eager := PruneAll(clock, threads, b);
            PruneAll(clock, if |threads| > b.threadLimit then Evict(threads) else threads, b)
            == if |eager| > b.threadLimit then Evict(eager) else eager
  {
    hide Prune, Evict, Ordered, PruneAll;
    AllStay(clock, threads, b);
    if |threads| > b.threadLimit {
      if forall t | t in threads :: Prune(clock, threads[t], b) != [] {
        EvictLive(clock, threads, b);
      } else {
        var t :| t in threads && Prune(clock, threads[t], b) == [];
        EvictStale(clock, threads, t, b);
      }
    }
  }

  lemma {:induction false} EvictLive(clock: Time, threads: Threads, b: Bounds)
    requires NoEmpties(threads) && Timed(threads) && threads != map[]
    requires forall t | t in threads :: Prune(clock, threads[t], b) != []
    ensures PruneAll(clock, Evict(threads), b) == Evict(PruneAll(clock, threads, b))
    ensures |PruneAll(clock, threads, b)| == |threads|
  {
    hide Prune, Before, PruneAll;
    var eager := PruneAll(clock, threads, b);
    VictimUnaffected(clock, threads, b);
    PruneAllRemove(clock, threads, Victim(threads), b);
    assert NonEmpty(threads) == threads && NonEmpty(eager) == eager;
    assert |eager.Keys| == |threads.Keys|;
  }

  lemma {:induction false} EvictStale(clock: Time, threads: Threads, t: string, b: Bounds)
    requires NoEmpties(threads) && Timed(threads)
    requires t in threads && Prune(clock, threads[t], b) == []
    ensures PruneAll(clock, Evict(threads), b) == PruneAll(clock, threads, b)
  {
    hide Prune, Before, PruneAll;
    assert NonEmpty(threads) == threads;
    VictimIsStale(clock, threads, t, b);
    PruneAllRemove(clock, threads, Victim(threads), b);
    DeadGone(clock, threads, Victim(threads), b);
  }

  lemma {:induction false} DeadGone(clock: Time, threads: Threads, v: string, b: Bounds)
    requires v in threads && Prune(clock, threads[v], b) == []
    ensures PruneAll(clock, threads, b) - {v} == PruneAll(clock, threads, b)
  {
    hide Prune;
  }

  /** Recording into the unswept and the swept index. */
  lemma InsertRefines(clock: Time, threads: Threads, thread: string, callId: string, ref: Ref, b: Bounds)
    requires clock >= 0 && Bounded(threads, b) && Timed(threads) && thread != "" && ref.capturedAt != 0
    ensures var lazy := Insert(clock, threads, thread, callId, ref, b);
            var eager := Insert(clock, PruneAll(clock, threads, b), thread, callId, ref, b);
            eager == (PruneAll(clock, lazy.0, b), lazy.1)
  {
    hide Stale, NextOccurrence, Prune, Ordered, Before, Evict, ThreadsBounded, Bounded, Timed, PruneAll;
    EntriesBounded(threads, thread, b);
    EntriesTimed(threads, thread);
    EntriesAgree(clock, threads, thread, b);
    var es := Entries(threads, thread);
    AddedOrdered(clock, es, callId, ref, b);
    var entries := Prune(clock, es, b);
    var e := Entry(callId, ref.(occurrence := NextOccurrence(entries, callId)), false);
    var added := Prune(clock, entries + [e], b);
    if added == [] {
      PruneAllRemove(clock, threads, thread, b);
    } else {
      var kept := Last(added, b.limit);
      var grown := threads[thread := kept];
      PruneFresh(clock, kept, b);
      PruneAllUpdate(clock, threads, thread, kept, b);
      UpdateBounded(threads, thread, kept, b);
      UpdateSize(threads, thread, kept);
      UpdateTimed(threads, thread, kept);
      EvictRefines(clock, grown, b);
    }
  }

  /** Looking up in the unswept and the swept index. */
  lemma FindRefines(clock: Time, threads: Threads, thread: string, callId: string, b: Bounds)
    requires clock >= 0 && Bounded(threads, b) && thread != ""
    ensures var lazy := Find(clock, threads, thread, callId, b);
            var eager := Find(clock, PruneAll(clock, threads, b), thread, callId, b);
            eager == (PruneAll(clock, lazy.0, b), lazy.1, lazy.2)
  {
    hide Stale, Prune, Ordered, OpenCount, FirstOpen, ThreadsBounded, Bounded, PruneAll;
    EntriesAgree(clock, threads, thread, b);
    var entries := Prune(clock, Entries(threads, thread), b);
    PruneMembers(clock, Entries(threads, thread), b);
    OpenCountFirst(entries, callId);
    if entries == [] {
      NoneOpen(callId);
      PruneAllRemove(clock, threads, thread, b);
    } else {
      PruneFresh(clock, entries, b);
      PruneAllUpdate(clock, threads, thread, entries, b);
      var i := FirstOpen(entries, callId);
      if i < |entries| {
        MarkedSame(clock, entries, i, b);
        var marked := entries[i := entries[i].(consumed := true)];
        PruneFresh(clock, marked, b);
        PruneAllUpdate(clock, threads, thread, marked, b);
      }
    }
  }

  /** One step: the same answer, and the correspondence holds again. */
  lemma StepRefines(s: State, e: Eager, op: Op, b: Bounds)
    requires Refines(s, e, b) && (op.Put? ==> op.ref.capturedAt != 0)
    ensures Refines(Step(s, op, b).0, EagerStep(e, op, b).0, b)
    ensures Step(s, op, b).1 == EagerStep(e, op, b).1
  {
    hide Stale, Prune, Bounded, Timed, PruneAll, Insert, Find, EnforceLimits, Snapshot;
    StepKeepsInvariant(s, op, b);
    PruneAllTwice(s.clock, s.clock, s.threads, b);
    match op
    case Tick(at) =>
      PruneAllTwice(s.clock, MaxTime(s.clock, at), s.threads, b);
    case Put(thread, callId, ref) =>
      if thread != "" && callId != "" {
        var clock := MaxTime(s.clock, ref.capturedAt);
        PruneAllTwice(s.clock, clock, s.threads, b);
        PruneAllTwice(clock, clock, s.threads, b);
        PruneAllBounded(clock, s.threads, b);
        InsertRefines(clock, s.threads, thread, callId, ref, b);
        InsertRefines(clock, PruneAll(clock, s.threads, b), thread, callId, ref, b);
      }
    case Get(thread, callId) =>
      if thread != "" && callId != "" {
        FindRefines(s.clock, s.threads, thread, callId, b);
      }
    case _ =>
      RestartIsSweep(s, b);
  }

  /**
   Lazy sweeping is unobservable.  Over every run of ticks, records, lookups, snapshots and
   restarts whose records carry a capture time, the index that sweeps inactive threads at
   most once per interval gives exactly the answers of the one that prunes every thread on
   every step, cap pressure included.
   */
  lemma {:induction false} LazyIsEager(ops: seq<Op>, b: Bounds)
    requires forall i | 0 <= i < |ops| && ops[i].Put? :: ops[i].ref.capturedAt != 0
    ensures Run(ops, b).1 == EagerRun(ops, b).1
    ensures Refines(Run(ops, b).0, EagerRun(ops, b).0, b)
  {
    hide Bounded, Timed, PruneAll, Step, EagerStep, Refines;
    if ops == [] {
      StartRefines(b);
    } else {
      var n := |ops| - 1;
      LazyIsEager(ops[..n], b);
      StepRefines(Run(ops[..n], b).0, EagerRun(ops[..n], b).0, ops[n], b);
    }
  }

  lemma StartRefines(b: Bounds)
    ensures Refines(EMPTY, Eager(0, map[]), b)
  {
    hide Prune;
  }

  // ---- Each recorded call is matched at most once -------------------------------------

  /** What a caller put in, apart from the number the index gives it. */
  function Core(ref: Ref): Ref {
    ref.(occurrence := 0)
  }

  /** A call as a caller knows it. */
  datatype Key = Key(thread: string, callId: string, core: Ref)

  predicate OpenAs(e: Entry, key: Key) {
    Open(e, key.callId) && Core(e.ref) == key.core
  }

  function Unmatched(es: seq<Entry>, key: Key): nat {
    if es == [] then 0
    else Unmatched(es[..|es| - 1], key) + if OpenAs(es[|es| - 1], key) then 1 else 0
  }

  function Resident(threads: Threads, key: Key): nat {
    Unmatched(Entries(threads, key.thread), key)
  }

  lemma {:induction false} UnmatchedPrune(clock: Time, es: seq<Entry>, key: Key, b: Bounds)
    ensures Unmatched(Prune(clock, es, b), key) <= Unmatched(es, key)
  {
    hide Stale, OpenAs;
    if es != [] {
      var n := |es| - 1;
      UnmatchedPrune(clock, es[..n], key, b);
      var before := Prune(clock, es[..n], b);
      assert (before + [es[n]])[..|before|] == before && before + [] == before;
    }
  }

  lemma {:induction false} UnmatchedSuffix(es: seq<Entry>, k: nat, key: Key)
    requires k <= |es|
    ensures Unmatched(es[k..], key) <= Unmatched(es, key)
  {
    hide OpenAs;
    if k < |es| {
      var n := |es| - 1;
      UnmatchedSuffix(es[..n], k, key);
      assert es[k..][..n - k] == es[..n][k..];
    }
  }

  lemma {:induction false} UnmatchedMarked(es: seq<Entry>, i: nat, key: Key)
    requires i < |es|
    ensures Unmatched(es[i := es[i].(consumed := true)], key) + (if OpenAs(es[i], key) then 1 else 0)
         == Unmatched(es, key)
  {
    var n := |es| - 1;
    var marked := es[i := es[i].(consumed := true)];
    if i < n {
      UnmatchedMarked(es[..n], i, key);
      assert marked[..n] == es[..n][i := es[i].(consumed := true)];
    } else {
      assert marked[..n] == es[..n];
    }
  }

  lemma {:induction false} UnmatchedAppend(es: seq<Entry>, e: Entry, key: Key)
    ensures Unmatched(es + [e], key) == Unmatched(es, key) + if OpenAs(e, key) then 1 else 0
  {
    assert (es + [e])[..|es|] == es;
  }

  /** What is added to a thread is at most the call itself. */
  lemma {:induction false} AddedCounts(clock: Time, es: seq<Entry>, callId: string, ref: Ref, key: Key, b: Bounds)
    ensures var entries := Prune(clock, es, b);
            var e := Entry(callId, ref.(occurrence := NextOccurrence(entries, callId)), false);
            Unmatched(Last(Prune(clock, entries + [e], b), b.limit), key)
            <= Unmatched(es, key) + if key.callId == callId && key.core == Core(ref) then 1 else 0
  {
    hide Stale, NextOccurrence, Prune, Unmatched;
    var entries := Prune(clock, es, b);
    var e := Entry(callId, ref.(occurrence := NextOccurrence(entries, callId)), false);
    UnmatchedPrune(clock, es, key, b);
    UnmatchedAppend(entries, e, key);
    UnmatchedPrune(clock, entries + [e], key, b);
    var added := Prune(clock, entries + [e], b);
    if |added| > b.limit {
      UnmatchedSuffix(added, |added| - b.limit, key);
    }
  }

  lemma InsertCounts(clock: Time, threads: Threads, thread: string, callId: string, ref: Ref, key: Key, b: Bounds)
    ensures Resident(Insert(clock, threads, thread, callId, ref, b).0, key)
         <= Resident(threads, key) + if key == Key(thread, callId, Core(ref)) then 1 else 0
  {
    hide Stale, NextOccurrence, Prune, Unmatched, Last, Victim, IsVictim;
    AddedCounts(clock, Entries(threads, thread), callId, ref, key, b);
    assert Unmatched([], key) == 0 by {
      NothingResident(key);
    }
  }

  /** Pruning a thread loses calls; the one exact answer takes away exactly the call it returns. */
  lemma FindCounts(clock: Time, threads: Threads, thread: string, callId: string, key: Key, b: Bounds)
    ensures var (after, ref, found) := Find(clock, threads, thread, callId, b);
            Resident(after, key)
              + (if found.Exact? && key.thread == thread && key.callId == callId && key.core == Core(ref) then 1 else 0)
            <= Resident(threads, key)
  {
    hide Stale, Prune, OpenCount, FirstOpen;
    var es := Entries(threads, thread);
    var entries := Prune(clock, es, b);
    UnmatchedPrune(clock, es, key, b);
    OpenCountFirst(entries, callId);
    var i := FirstOpen(entries, callId);
    if i < |entries| {
      UnmatchedMarked(entries, i, key);
    }
  }

  lemma SweepCounts(s: State, key: Key, b: Bounds)
    ensures Resident(Sweep(s, b).threads, key) <= Resident(s.threads, key)
  {
    hide Prune;
    UnmatchedPrune(s.clock, Entries(s.threads, key.thread), key, b);
  }

  /** How often the key was recorded. */
  function Puts(ops: seq<Op>, key: Key): nat {
    if ops == [] then 0 else Puts(ops[..|ops| - 1], key) + PutOf(ops[|ops| - 1], key)
  }

  function PutOf(op: Op, key: Key): nat {
    if op.Put? && Key(op.thread, op.callId, Core(op.ref)) == key then 1 else 0
  }

  /** How often a lookup returned it as the exact origin. */
  function Matches(ops: seq<Op>, answers: seq<Answer>, key: Key): nat
    requires |ops| == |answers|
  {
    if ops == [] then 0
    else Matches(ops[..|ops| - 1], answers[..|ops| - 1], key) + MatchOf(ops[|ops| - 1], answers[|ops| - 1], key)
  }

  function MatchOf(op: Op, answer: Answer, key: Key): nat {
    if answer.Origin? && answer.found.Exact? && op.Get?
       && Key(op.thread, op.callId, Core(answer.ref)) == key then 1 else 0
  }

  lemma StepCounts(s: State, op: Op, key: Key, b: Bounds)
    requires Invariant(s, b)
    ensures Resident(Step(s, op, b).0.threads, key) + MatchOf(op, Step(s, op, b).1, key)
         <= Resident(s.threads, key) + PutOf(op, key)
  {
    hide Prune, Bounded, Insert, Find, PruneAll, EnforceLimits, Snapshot, Resident;
    match op
    case Put(thread, callId, ref) =>
      if thread != "" && callId != "" {
        var advanced := Advance(s, ref.capturedAt);
        var swept := if SweepDue(advanced) then Sweep(advanced, b) else advanced;
        SweepCounts(advanced, key, b);
        InsertCounts(swept.clock, swept.threads, thread, callId, ref, key, b);
      }
    case Get(thread, callId) =>
      FindCounts(s.clock, s.threads, thread, callId, key, b);
    case Restart =>
      RestartIsSweep(s, b);
      SweepCounts(s, key, b);
    case _ =>
  }

  /**
   Conservation: over every run, a call comes back as an exact match at most as often as it
   was recorded, on its own thread and id, restarts included.  A call recorded once is
   matched at most once.
   */
  lemma {:induction false} MatchedAtMostOnce(ops: seq<Op>, key: Key, b: Bounds)
    ensures |Run(ops, b).1| == |ops|
    ensures Resident(Run(ops, b).0.threads, key) + Matches(ops, Run(ops, b).1, key) <= Puts(ops, key)
  {
    hide Step, Resident, MatchOf, PutOf;
    if ops == [] {
      NothingResident(key);
    } else {
      var n := |ops| - 1;
      MatchedAtMostOnce(ops[..n], key, b);
      RunKeepsInvariant(ops[..n], b);
      StepCounts(Run(ops[..n], b).0, ops[n], key, b);
      assert Run(ops, b).1[..n] == Run(ops[..n], b).1;
    }
  }

  lemma NothingResident(key: Key)
    ensures Resident(map[], key) == 0
  {}

  // ---- Why capture times matter -------------------------------------------------------

  const TIGHT: Bounds := Bounds(8, 2, 1, 100)

  function One(at: Time): seq<Entry> {
    [Entry("c", Ref("r", "t", "tool", at, 1), false)]
  }

  /** Two threads, one of them recorded without a capture time, and a clock of 5. */
  const ALONE: Threads := map["a" := One(0)]

  const CROWDED: Threads := map["a" := One(0), "b" := One(5)]

  function Record3(thread: string, at: Time): Op {
    Put(thread, "c", One(at)[0].ref)
  }

  /** Three records, the first without a time, and then a lookup of the first. */
  const CROWDING: seq<Op> := [Record3("a", 0), Record3("b", 5), Record3("c", 10), Get("a", "c")]

  /** A call of a thread that has none yet. */
  lemma NewThread(clock: Time, threads: Threads, thread: string, at: Time)
    requires thread !in threads && thread != "" && (at == 0 || at >= clock - 1)
    ensures var grown := threads[thread := One(at)];
            Insert(clock, threads, thread, "c", One(at)[0].ref, TIGHT)
            == (if |grown| > 2 then Evict(grown) else grown, 1)
  {
    hide Evict, Prune;
    var e := One(at)[0];
    PruneFresh(clock, [], TIGHT);
    PruneFresh(clock, One(at), TIGHT);
    assert e == Entry("c", e.ref.(occurrence := NextOccurrence([], "c")), false);
    assert [] + [e] == One(at);
  }

  /** The lazy index evicts the first call to make room for the third. */
  lemma LazyForgets()
    ensures var s := Step(Step(Step(EMPTY, Record3("a", 0), TIGHT).0, Record3("b", 5), TIGHT).0, Record3("c", 10), TIGHT).0;
            Step(s, Get("a", "c"), TIGHT).1 == Origin(NO_REF, NoMatch)
  {
    hide Insert, Evict;
    assert PruneAll(0, map[], TIGHT) == map[];
    NewThread(0, map[], "a", 0);
    assert Step(EMPTY, Record3("a", 0), TIGHT).0 == State(0, 100, map["a" := One(0)]);
    NewThread(5, map["a" := One(0)], "b", 5);
    assert map["a" := One(0)]["b" := One(5)] == CROWDED && |CROWDED.Keys| == |{"a", "b"}| == 2;
    assert Step(State(0, 100, map["a" := One(0)]), Record3("b", 5), TIGHT).0 == State(5, 100, CROWDED);
    NewThread(10, CROWDED, "c", 10);
    CrowdedVictim();
    assert "a" !in Step(State(5, 100, CROWDED), Record3("c", 10), TIGHT).0.threads;
  }

  /** The eager one has dropped the second by then. */
  lemma EagerRemembers()
    ensures var e := EagerStep(EagerStep(EagerStep(Eager(0, map[]), Record3("a", 0), TIGHT).0, Record3("b", 5), TIGHT).0,
                               Record3("c", 10), TIGHT).0;
            EagerStep(e, Get("a", "c"), TIGHT).1 == Origin(One(0)[0].ref, Exact)
  {
    hide EagerStep, One, Record3;
    assert PruneAll(0, map[], TIGHT) == map[] by {
      NothingPruned();
    }
    Sizes();
    EagerPut(0, map[], map[], "a", 0);
    FirstStays(5, ALONE);
    EagerPut(0, ALONE, ALONE, "b", 5);
    CrowdedPruned();
    EagerPut(5, CROWDED, ALONE, "c", 10);
    FirstFound(ALONE["c" := One(10)]);
  }

  lemma NothingPruned()
    ensures PruneAll(0, map[], TIGHT) == map[]
  {}

  lemma Sizes()
    ensures map[]["a" := One(0)] == ALONE && |ALONE| == 1
    ensures ALONE["b" := One(5)] == CROWDED && |CROWDED| == 2
    ensures |ALONE["c" := One(10)]| == 2
  {
    hide One;
    assert CROWDED.Keys == {"a", "b"} && ALONE["c" := One(10)].Keys == {"a", "c"} && ALONE.Keys == {"a"};
  }

  lemma EagerPut(clock: Time, threads: Threads, pruned: Threads, thread: string, at: Time)
    requires thread !in pruned && thread != "" && (at == 0 || at >= clock) && clock >= 0
    requires PruneAll(at, threads, TIGHT) == pruned && (at == 0 ==> clock == 0)
    ensures var grown := pruned[thread := One(at)];
            |grown| <= 2 ==> EagerStep(Eager(clock, threads), Record3(thread, at), TIGHT).0 == Eager(at, grown)
  {
    hide Insert, Evict, PruneAll;
    NewThread(at, pruned, thread, at);
  }

  lemma FirstStays(clock: Time, threads: Threads)
    requires threads == ALONE
    ensures PruneAll(clock, threads, TIGHT) == threads
  {
    assert One(0)[..0] == [];
    assert Prune(clock, One(0), TIGHT) == One(0);
  }

  lemma FirstFound(threads: Threads)
    requires "a" in threads && threads["a"] == One(0)
    ensures EagerStep(Eager(10, threads), Get("a", "c"), TIGHT).1 == Origin(One(0)[0].ref, Exact)
  {
    assert One(0)[..0] == [];
    assert Prune(10, One(0), TIGHT) == One(0);
    assert OpenCount(One(0), "c") == 1 && FirstOpen(One(0), "c") == 0;
  }

  /**
   A record without a capture time is never stale and yet the first to be evicted, so under
   cap pressure the two indexes part: on this run the lazy one has forgotten the call that
   the eager one finds.
   */
  lemma ZeroTimesAreObservable()
    ensures |Run(CROWDING, TIGHT).1| == |EagerRun(CROWDING, TIGHT).1| == 4
    ensures Run(CROWDING, TIGHT).1[3] == Origin(NO_REF, NoMatch)
    ensures EagerRun(CROWDING, TIGHT).1[3] == Origin(One(0)[0].ref, Exact)
  {
    hide Step, EagerStep, Record3, One;
    assert CROWDING[..3][..2] == CROWDING[..2] && CROWDING[..2][..1] == CROWDING[..1] && CROWDING[..1][..0] == [];
    LazyForgets();
    EagerRemembers();
    assert Run([], TIGHT) == (EMPTY, []) && EagerRun([], TIGHT) == (Eager(0, map[]), []);
    assert Run(CROWDING[..1], TIGHT).0 == Step(EMPTY, Record3("a", 0), TIGHT).0;
    assert EagerRun(CROWDING[..1], TIGHT).0 == EagerStep(Eager(0, map[]), Record3("a", 0), TIGHT).0;
  }

  lemma CrowdedPruned()
    ensures PruneAll(10, CROWDED, TIGHT) == ALONE
  {
    assert One(0)[..0] == [] && One(5)[..0] == [];
    assert Prune(10, One(0), TIGHT) == One(0) && Prune(10, One(5), TIGHT) == [];
  }

  lemma CrowdedVictim()
    ensures var grown := CROWDED["c" := One(10)];
            |grown| == 3 && "a" !in Evict(grown)
  {
    var grown := CROWDED["c" := One(10)];
    assert grown.Keys == {"a", "b", "c"} && |grown.Keys| == 3;
    assert NonEmpty(grown) == grown;
    assert IsVictim(grown, "a");
    VictimUnique(grown, "a", Victim(grown));
  }
}
