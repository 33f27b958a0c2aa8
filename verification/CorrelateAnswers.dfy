/** What a lookup answers, in terms of the calls that are resident: internal/turn/correlate.go. */
module CorrelateAnswers {
  import opened Correlate
  import opened CorrelateLaws

  /** An origin that a tool output may still be attached to. */
  predicate Live(clock: Time, e: Entry, callId: string, b: Bounds) {
    && e.callId == callId && !e.consumed
    && (clock == 0 || e.ref.capturedAt == 0 || clock - e.ref.capturedAt <= b.maxAge)
  }

  /** That is one the scan takes, once old entries are gone. */
  lemma LiveIs(clock: Time, e: Entry, callId: string, b: Bounds)
    ensures Live(clock, e, callId, b) <==> Open(e, callId) && !Stale(clock, e, b)
  {}

  /** Entry `i` is, and no other. */
  predicate OnlyLive(clock: Time, es: seq<Entry>, i: nat, callId: string, b: Bounds) {
    i < |es| && Live(clock, es[i], callId, b) && forall j | 0 <= j < |es| && j != i :: !Live(clock, es[j], callId, b)
  }

  lemma CountStep(clock: Time, es: seq<Entry>, callId: string, b: Bounds)
    requires es != []
    ensures OpenCount(Prune(clock, es, b), callId)
         == OpenCount(Prune(clock, es[..|es| - 1], b), callId) + if Live(clock, es[|es| - 1], callId, b) then 1 else 0
  {
    var kept, e := Prune(clock, es[..|es| - 1], b), es[|es| - 1];
    assert (kept + [e])[..|kept|] == kept && kept + [] == kept;
  }

  ghost predicate NoneLive(clock: Time, es: seq<Entry>, callId: string, b: Bounds) {
    forall i | 0 <= i < |es| :: !Live(clock, es[i], callId, b)
  }

  ghost predicate OneLive(clock: Time, es: seq<Entry>, callId: string, b: Bounds) {
    exists i: nat :: OnlyLive(clock, es, i, callId, b)
  }

  lemma LastIsLive(clock: Time, es: seq<Entry>, callId: string, b: Bounds)
    requires es != [] && Live(clock, es[|es| - 1], callId, b)
    ensures !NoneLive(clock, es, callId, b)
    ensures OneLive(clock, es, callId, b) <==> NoneLive(clock, es[..|es| - 1], callId, b)
  {
    hide Live;
    var n := |es| - 1;
    if NoneLive(clock, es[..n], callId, b) {
      assert forall j | 0 <= j < n :: es[..n][j] == es[j];
      assert OnlyLive(clock, es, n, callId, b);
    }
  }

  lemma LastIsNotLive(clock: Time, es: seq<Entry>, callId: string, b: Bounds)
    requires es != [] && !Live(clock, es[|es| - 1], callId, b)
    ensures NoneLive(clock, es, callId, b) <==> NoneLive(clock, es[..|es| - 1], callId, b)
    ensures OneLive(clock, es, callId, b) <==> OneLive(clock, es[..|es| - 1], callId, b)
  {
    hide Live;
    var front := es[..|es| - 1];
    assert forall j | 0 <= j < |front| :: front[j] == es[j];
    if OneLive(clock, front, callId, b) {
      var i: nat :| OnlyLive(clock, front, i, callId, b);
      assert OnlyLive(clock, es, i, callId, b);
    }
    if OneLive(clock, es, callId, b) {
      var i: nat :| OnlyLive(clock, es, i, callId, b);
      assert OnlyLive(clock, front, i, callId, b);
    }
  }

  lemma {:induction false} CountsLive(clock: Time, es: seq<Entry>, callId: string, b: Bounds)
    ensures OpenCount(Prune(clock, es, b), callId) == 0 <==> NoneLive(clock, es, callId, b)
    ensures OpenCount(Prune(clock, es, b), callId) == 1 <==> OneLive(clock, es, callId, b)
  {
    if es != [] {
      hide Live, NoneLive, OneLive, Prune, OpenCount;
      CountsLive(clock, es[..|es| - 1], callId, b);
      CountStep(clock, es, callId, b);
      if Live(clock, es[|es| - 1], callId, b) {
        LastIsLive(clock, es, callId, b);
      } else {
        LastIsNotLive(clock, es, callId, b);
      }
    }
  }

  /** The only live entry is the one that the scan finds. */
  lemma {:induction false} FindsLive(clock: Time, es: seq<Entry>, callId: string, b: Bounds, i: nat)
    requires OnlyLive(clock, es, i, callId, b)
    ensures var entries := Prune(clock, es, b);
            FirstOpen(entries, callId) < |entries| && entries[FirstOpen(entries, callId)] == es[i]
  {
    hide Stale;
    var entries := Prune(clock, es, b);
    CountsLive(clock, es, callId, b);
    OpenCountFirst(entries, callId);
    PruneMembers(clock, es, b);
    var e := entries[FirstOpen(entries, callId)];
    assert e in es;
    var k: nat :| k < |es| && es[k] == e;
    LiveIs(clock, e, callId, b);
  }

  /**
   A lookup answers from its own thread only: exactly when one call of that id is there, not
   consumed and not stale, and then with that call.
   */
  lemma LookupAnswers(s: State, thread: string, callId: string, b: Bounds)
    requires thread != "" && callId != ""
    ensures var (after, ref, found) := Lookup(s, thread, callId, b);
            var es := Entries(s.threads, thread);
            && (found.NoMatch? <==> NoneLive(s.clock, es, callId, b))
            && (found.Exact? <==> OneLive(s.clock, es, callId, b))
            && (forall i: nat | i < |es| && OnlyLive(s.clock, es, i, callId, b) :: ref == es[i].ref)
            && (!found.Exact? ==> ref == NO_REF)
  {
    hide Live, Prune, OnlyLive, NoneLive;
    var es := Entries(s.threads, thread);
    CountsLive(s.clock, es, callId, b);
    forall i: nat | i < |es| && OnlyLive(s.clock, es, i, callId, b)
      ensures Lookup(s, thread, callId, b).1 == es[i].ref
    {
      FindsLive(s.clock, es, callId, b, i);
    }
  }

  lemma {:induction false} PruneStable(clock: Time, es: seq<Entry>, b: Bounds)
    ensures Prune(clock, Prune(clock, es, b), b) == Prune(clock, es, b)
  {
    PruneMembers(clock, es, b);
    PruneFresh(clock, Prune(clock, es, b), b);
  }

  /** A second output for the same call finds nothing. */
  lemma ConsumedIsGone(s: State, thread: string, callId: string, b: Bounds)
    requires Lookup(s, thread, callId, b).2.Exact?
    ensures Lookup(Lookup(s, thread, callId, b).0, thread, callId, b).2.NoMatch?
  {
    hide Stale, Prune, NextOccurrence;
    var entries := Prune(s.clock, Entries(s.threads, thread), b);
    var i := FirstOpen(entries, callId);
    OpenCountFirst(entries, callId);
    PruneStable(s.clock, Entries(s.threads, thread), b);
    CountsLive(s.clock, entries, callId, b);
    var k: nat :| OnlyLive(s.clock, entries, k, callId, b);
    FindsLive(s.clock, entries, callId, b, k);
    PruneMembers(s.clock, Entries(s.threads, thread), b);
    assert entries[i] in entries && Live(s.clock, entries[i], callId, b);
    assert i == k;
    var marked := entries[i := entries[i].(consumed := true)];
    assert Entries(Lookup(s, thread, callId, b).0.threads, thread) == marked;
    assert NoneLive(s.clock, marked, callId, b);
    LookupAnswers(Lookup(s, thread, callId, b).0, thread, callId, b);
  }

  /** What a recording leaves in its own thread, if that survives the cap. */
  lemma {:induction false} RecordedEntries(s: State, thread: string, callId: string, ref: Ref, b: Bounds)
    requires Invariant(s, b) && thread != "" && callId != ""
    requires thread in Record(s, thread, callId, ref, b).0.threads
    ensures var (t, n) := Record(s, thread, callId, ref, b);
            var entries := Prune(t.clock, Entries(s.threads, thread), b);
            var e := Entry(callId, ref.(occurrence := NextOccurrence(entries, callId)), false);
            && t.clock == MaxTime(s.clock, ref.capturedAt)
            && n == NextOccurrence(entries, callId)
            && t.threads[thread] == Last(Prune(t.clock, entries + [e], b), b.limit)
  {
    hide Prune, Stale, NextOccurrence, Last, Victim;
    var advanced := Advance(s, ref.capturedAt);
    EntriesAgree(advanced.clock, s.threads, thread, b);
  }

  /** A recorded call is what its output is attached to, when no other call of that id is open. */
  lemma RecordedIsFound(s: State, thread: string, callId: string, ref: Ref, b: Bounds)
    requires Invariant(s, b) && thread != "" && callId != ""
    requires thread in Record(s, thread, callId, ref, b).0.threads
    requires var clock := Record(s, thread, callId, ref, b).0.clock;
             && !Stale(clock, Entry(callId, ref, false), b)
             && forall e | e in Entries(s.threads, thread) :: !Live(clock, e, callId, b)
    ensures var (t, n) := Record(s, thread, callId, ref, b);
            var (after, found, match_) := Lookup(t, thread, callId, b);
            match_.Exact? && found == ref.(occurrence := n)
  {
    hide Record, Lookup, NextOccurrence;
    var (t, n) := Record(s, thread, callId, ref, b);
    RecordedEntries(s, thread, callId, ref, b);
    var es := Entries(s.threads, thread);
    var entries := Prune(t.clock, es, b);
    var e := Entry(callId, ref.(occurrence := n), false);
    var kept := t.threads[thread];
    OnlyTheLast(t.clock, es, e, callId, b);
    var last: nat := |kept| - 1;
    assert OnlyLive(t.clock, Entries(t.threads, thread), last, callId, b) && kept[last] == e;
    LookupAnswers(t, thread, callId, b);
  }

  lemma {:induction false} OnlyTheLast(clock: Time, es: seq<Entry>, e: Entry, callId: string, b: Bounds)
    requires Live(clock, e, callId, b) && forall x | x in es :: !Live(clock, x, callId, b)
    ensures var kept := Last(Prune(clock, Prune(clock, es, b) + [e], b), b.limit);
            kept != [] && OnlyLive(clock, kept, |kept| - 1, callId, b) && kept[|kept| - 1] == e
  {
    hide Stale, Live;
    LiveIs(clock, e, callId, b);
    var entries := Prune(clock, es, b);
    PruneStable(clock, es, b);
    PruneMembers(clock, es, b);
    assert (entries + [e])[..|entries|] == entries;
    var added := Prune(clock, entries + [e], b);
    assert added == entries + [e];
    var kept := Last(added, b.limit);
    forall j | 0 <= j < |kept| - 1
      ensures !Live(clock, kept[j], callId, b)
    {
      assert kept[j] in entries;
    }
  }
}
