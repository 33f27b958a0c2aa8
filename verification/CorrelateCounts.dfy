/**
 Which number a call gets, and what recording it costs others: internal/turn/correlate.go.
 */
module CorrelateCounts {
  import opened Order
  import opened Correlate
  import opened CorrelateLaws

  // ---- Numbers ----------------------------------------------------------------------------

  /** How many entries have the call id. */
  function CountOf(es: seq<Entry>, callId: string): nat {
    if es == [] then 0
    else CountOf(es[..|es| - 1], callId) + if es[|es| - 1].callId == callId then 1 else 0
  }

  /** How often a call of the id was put on the thread. */
  function PutCount(ops: seq<Op>, thread: string, callId: string): nat {
    if ops == [] then 0
    else
      var op := ops[|ops| - 1];
      PutCount(ops[..|ops| - 1], thread, callId) + if op.Put? && op.thread == thread && op.callId == callId then 1 else 0
  }

  /** Every number of the id is one of the first `n`. */
  ghost predicate NumbersTo(es: seq<Entry>, callId: string, n: nat) {
    forall e | e in es && e.callId == callId :: 1 <= e.ref.occurrence <= n
  }

  /** Numbers that increase from 1 on are at least as high as they are many. */
  lemma {:induction false} CountIsAtMost(es: seq<Entry>, callId: string)
    requires Ordered(es) && forall e | e in es && e.callId == callId :: e.ref.occurrence >= 1
    ensures CountOf(es, callId) < NextOccurrence(es, callId)
  {
    if es != [] {
      var n := |es| - 1;
      var e := es[n];
      assert es == es[..n] + [e];
      assert Ordered(es[..n]);
      CountIsAtMost(es[..n], callId);
      if e.callId == callId && NextOccurrence(es[..n], callId) > 1 {
        var x :| x in es[..n] && x.callId == callId && x.ref.occurrence == NextOccurrence(es[..n], callId) - 1;
        var k :| 0 <= k < n && es[k] == x;
        assert x.ref.occurrence < e.ref.occurrence;
      }
    }
  }

  lemma {:induction false} PruneNumbers(clock: Time, es: seq<Entry>, callId: string, n: nat, b: Bounds)
    requires NumbersTo(es, callId, n)
    ensures NumbersTo(Prune(clock, es, b), callId, n)
  {
    PruneMembers(clock, es, b);
  }

  /** All of the thread's numbers of the id are among the first `n`. */
  ghost predicate ThreadTo(threads: Threads, thread: string, callId: string, n: nat) {
    NumbersTo(Entries(threads, thread), callId, n)
  }

  lemma {:induction false} EvictTakes(threads: Threads, thread: string)
    ensures Entries(Evict(threads), thread) == Entries(threads, thread) || Entries(Evict(threads), thread) == []
    ensures thread in Evict(threads) ==> thread in threads && Evict(threads)[thread] == threads[thread]
  {
    hide Victim, Before;
  }

  lemma {:induction false} InsertNumbers(clock: Time, threads: Threads, u: string, x: string, ref: Ref,
                                         thread: string, callId: string, n: nat, b: Bounds)
    requires ThreadTo(threads, thread, callId, n) && u != "" && x != ""
    ensures var more := if u == thread && x == callId then n + 1 else n;
            ThreadTo(Insert(clock, threads, u, x, ref, b).0, thread, callId, more)
  {
    hide Stale, Prune, Evict, NextOccurrence;
    var es := Entries(threads, u);
    var entries := Prune(clock, es, b);
    var e := Entry(x, ref.(occurrence := NextOccurrence(entries, x)), false);
    var added := Prune(clock, entries + [e], b);
    PruneMembers(clock, es, b);
    PruneMembers(clock, entries + [e], b);
    var grown := threads[u := Last(added, b.limit)];
    EvictTakes(grown, thread);
    if u == thread {
      assert forall y | y in Last(added, b.limit) :: y in added;
      assert NumbersTo(Last(added, b.limit), callId, if x == callId then n + 1 else n);
    }
  }

  lemma {:induction false} FindNumbers(clock: Time, threads: Threads, u: string, x: string, thread: string, callId: string,
                                       n: nat, b: Bounds)
    requires ThreadTo(threads, thread, callId, n)
    ensures ThreadTo(Find(clock, threads, u, x, b).0, thread, callId, n)
  {
    hide Stale, Prune, OpenCount, FirstOpen;
    var entries := Prune(clock, Entries(threads, u), b);
    PruneMembers(clock, Entries(threads, u), b);
    OpenCountFirst(entries, x);
    var i := FirstOpen(entries, x);
    if u == thread && i < |entries| {
      var marked := entries[i := entries[i].(consumed := true)];
      forall e | e in marked && e.callId == callId
        ensures 1 <= e.ref.occurrence <= n
      {
        var k :| 0 <= k < |marked| && marked[k] == e;
        assert entries[k] in entries && entries[k].ref == e.ref && entries[k].callId == e.callId;
      }
    }
  }

  lemma {:induction false} SweepNumbers(s: State, thread: string, callId: string, n: nat, b: Bounds)
    requires ThreadTo(s.threads, thread, callId, n)
    ensures ThreadTo(Sweep(s, b).threads, thread, callId, n)
  {
    hide Prune;
    PruneNumbers(s.clock, Entries(s.threads, thread), callId, n, b);
  }

  lemma {:induction false} StepNumbers(s: State, op: Op, thread: string, callId: string, n: nat, b: Bounds)
    requires Invariant(s, b) && ThreadTo(s.threads, thread, callId, n)
    ensures var more := if op.Put? && op.thread == thread && op.callId == callId then n + 1 else n;
            ThreadTo(Step(s, op, b).0.threads, thread, callId, more)
  {
    hide Prune, Bounded, Insert, Find, PruneAll, EnforceLimits, Snapshot;
    match op
    case Put(u, x, ref) =>
      if u != "" && x != "" {
        var advanced := Advance(s, ref.capturedAt);
        var swept := if SweepDue(advanced) then Sweep(advanced, b) else advanced;
        SweepNumbers(advanced, thread, callId, n, b);
        InsertNumbers(swept.clock, swept.threads, u, x, ref, thread, callId, n, b);
      }
    case Get(u, x) =>
      FindNumbers(s.clock, s.threads, u, x, thread, callId, n, b);
    case Restart =>
      RestartIsSweep(s, b);
      SweepNumbers(s, thread, callId, n, b);
    case _ =>
  }

  lemma {:induction false} RunNumbers(ops: seq<Op>, thread: string, callId: string, b: Bounds)
    ensures ThreadTo(Run(ops, b).0.threads, thread, callId, PutCount(ops, thread, callId))
  {
    hide Step;
    if ops != [] {
      var n := |ops| - 1;
      RunNumbers(ops[..n], thread, callId, b);
      RunKeepsInvariant(ops[..n], b);
      StepNumbers(Run(ops[..n], b).0, ops[n], thread, callId, PutCount(ops[..n], thread, callId), b);
    }
  }

  /** What is left of a thread when a call is recorded on it. */
  function LeftOf(s: State, thread: string, ref: Ref, b: Bounds): seq<Entry> {
    Prune(MaxTime(s.clock, ref.capturedAt), Entries(s.threads, thread), b)
  }

  /** The call is older than the retention age by the time it is recorded. */
  predicate TooOld(s: State, ref: Ref, b: Bounds) {
    var clock := MaxTime(s.clock, ref.capturedAt);
    clock != 0 && ref.capturedAt != 0 && clock - ref.capturedAt > b.maxAge
  }

  lemma {:induction false} RecordAnswer(s: State, thread: string, callId: string, ref: Ref, b: Bounds)
    requires s.clock >= 0 && thread != "" && callId != ""
    ensures var left := LeftOf(s, thread, ref, b);
            Record(s, thread, callId, ref, b).1 == if left == [] && TooOld(s, ref, b) then 0 else NextOccurrence(left, callId)
  {
    hide Prune, NextOccurrence, Last, Evict;
    var advanced := Advance(s, ref.capturedAt);
    var left := LeftOf(s, thread, ref, b);
    EntriesAgree(advanced.clock, s.threads, thread, b);
    PruneMembers(advanced.clock, Entries(s.threads, thread), b);
    var e := Entry(callId, ref.(occurrence := NextOccurrence(left, callId)), false);
    PruneMembers(advanced.clock, left + [e], b);
    var added := Prune(advanced.clock, left + [e], b);
    assert Stale(advanced.clock, e, b) <==> TooOld(s, ref, b);
    assert e in left + [e] && forall x | x in left :: x in left + [e] && x in added;
    assert left != [] ==> left[0] in left;
    assert added != [] ==> added[0] in added;
  }

  /**
   The `k`th call of an id recorded on a thread that has lost none of them gets the number `k`,
   over any run with lookups, sweeps and restarts; on one that has lost some, it gets a number
   above those that are left and none above `k`.  Only a call that is too old, on a thread with
   nothing else, gets none.
   */
  lemma {:induction false} NumberedInOrder(ops: seq<Op>, thread: string, callId: string, ref: Ref, b: Bounds)
    requires thread != "" && callId != ""
    ensures var s := Run(ops, b).0;
            var left, before := LeftOf(s, thread, ref, b), PutCount(ops, thread, callId);
            var answer := Step(s, Put(thread, callId, ref), b).1;
            && answer.Numbered?
            && (if left == [] && TooOld(s, ref, b) then answer.occurrence == 0
                else CountOf(left, callId) < answer.occurrence <= before + 1)
  {
    hide Record, NextOccurrence, Prune, TooOld, ThreadTo, Run, PutCount, CountOf;
    var s := Run(ops, b).0;
    var left := LeftOf(s, thread, ref, b);
    RunKeepsInvariant(ops, b);
    RunNumbers(ops, thread, callId, b);
    RecordAnswer(s, thread, callId, ref, b);
    LeftNumbers(s, thread, callId, ref, PutCount(ops, thread, callId), b);
  }

  lemma {:induction false} LeftNumbers(s: State, thread: string, callId: string, ref: Ref, n: nat, b: Bounds)
    requires Invariant(s, b) && ThreadTo(s.threads, thread, callId, n)
    ensures var left := LeftOf(s, thread, ref, b);
            CountOf(left, callId) < NextOccurrence(left, callId) <= n + 1
  {
    hide Prune, NextOccurrence, Stale, CountOf;
    var es := Entries(s.threads, thread);
    var left := LeftOf(s, thread, ref, b);
    EntriesBounded(s.threads, thread, b);
    PruneNumbers(MaxTime(s.clock, ref.capturedAt), es, callId, n, b);
    PruneOrdered(MaxTime(s.clock, ref.capturedAt), es, b);
    CountIsAtMost(left, callId);
  }

  // ---- What recording costs others ----------------------------------------------------------

  lemma {:induction false} GrownSize(threads: Threads, keys: set<string>, thread: string, es: seq<Entry>)
    requires threads.Keys <= keys
    ensures |threads[thread := es]| <= |keys + {thread}|
  {
    assert threads[thread := es].Keys <= keys + {thread};
    SubsetSize(threads[thread := es].Keys, keys + {thread});
  }

  /** Below the cap on threads a recording touches no other thread but for what is too old. */
  lemma {:induction false} RecordCosts(s: State, thread: string, callId: string, ref: Ref, u: string, b: Bounds)
    requires Invariant(s, b) && thread != "" && callId != "" && u != thread
    requires |s.threads.Keys + {thread}| <= b.threadLimit
    ensures var t := Record(s, thread, callId, ref, b).0;
            Prune(t.clock, Entries(t.threads, u), b) == Prune(t.clock, Entries(s.threads, u), b)
  {
    hide Prune, NextOccurrence, Last, Evict;
    var advanced := Advance(s, ref.capturedAt);
    var swept := if SweepDue(advanced) then Sweep(advanced, b) else advanced;
    EntriesAgree(advanced.clock, s.threads, u, b);
    assert swept.threads.Keys <= s.threads.Keys;
    var left := Prune(swept.clock, Entries(swept.threads, thread), b);
    var e := Entry(callId, ref.(occurrence := NextOccurrence(left, callId)), false);
    GrownSize(swept.threads, s.threads.Keys, thread, Last(Prune(swept.clock, left + [e], b), b.limit));
  }

  /** Below the cap on entries a thread keeps all that is not too old, in order, and the call comes last. */
  lemma {:induction false} RecordAppends(s: State, thread: string, callId: string, ref: Ref, b: Bounds)
    requires Invariant(s, b) && thread != "" && callId != ""
    requires thread in Record(s, thread, callId, ref, b).0.threads
    requires !TooOld(s, ref, b) && |LeftOf(s, thread, ref, b)| < b.limit
    ensures var (t, n) := Record(s, thread, callId, ref, b);
            t.threads[thread] == LeftOf(s, thread, ref, b) + [Entry(callId, ref.(occurrence := n), false)]
  {
    hide Prune, NextOccurrence, Evict, Stale;
    var advanced := Advance(s, ref.capturedAt);
    var left := LeftOf(s, thread, ref, b);
    EntriesAgree(advanced.clock, s.threads, thread, b);
    var e := Entry(callId, ref.(occurrence := NextOccurrence(left, callId)), false);
    PruneMembers(advanced.clock, Entries(s.threads, thread), b);
    NotStale(s, ref, e, b);
    PruneFresh(advanced.clock, left + [e], b);
    EvictTakes((if SweepDue(advanced) then Sweep(advanced, b) else advanced).threads[thread := left + [e]], thread);
  }

  lemma NotStale(s: State, ref: Ref, e: Entry, b: Bounds)
    requires !TooOld(s, ref, b) && e.ref.capturedAt == ref.capturedAt
    ensures !Stale(MaxTime(s.clock, ref.capturedAt), e, b)
  {}

  /** The thread to evict: of every other thread some call is as new as any of its calls, or newer. */
  lemma {:induction false} VictimIsOldest(threads: Threads, v: string, u: string)
    requires NoEmpties(threads) && IsVictim(threads, v) && u in threads
    ensures exists f :: f in threads[u] && forall e | e in threads[v] :: e.ref.capturedAt <= f.ref.capturedAt
    ensures (forall f | f in threads[u] :: exists e :: e in threads[v] && e.ref.capturedAt >= f.ref.capturedAt) && u != v ==>
              Less(v, u)
  {
    hide Newest;
    var newest, other := Newest(threads[u]), Newest(threads[v]);
    NewestIsNewest(threads[u]);
    NewestIsNewest(threads[v]);
    var f :| f in threads[u] && f.ref.capturedAt == newest;
    assert u != v ==> Before(threads, v, u);
    assert forall e | e in threads[v] :: e.ref.capturedAt <= other <= newest;
  }
}
