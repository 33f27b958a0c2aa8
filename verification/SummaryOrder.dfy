/** In which order the jobs of a summary run come, and what a plan adds up to: internal/summary. */
module SummaryOrder {
  import opened Digests
  import opened SummaryCalls
  import opened SummaryRun

  // ---- What waits for what --------------------------------------------------------------------

  /** Every job that a started one needs is done. */
  ghost predicate InOrder(jobs: seq<Job>, work: seq<Work>) {
    |work| == |jobs| && forall j | 0 <= j < |jobs| && !work[j].Queued? :: NeedsMet(jobs, work, j)
  }

  lemma {:induction false} ChangeInOrder(jobs: seq<Job>, work: seq<Work>, j: nat, w: Work)
    requires InOrder(jobs, work) && j < |work| && !work[j].Done? && (work[j].Queued? ==> NeedsMet(jobs, work, j))
    ensures InOrder(jobs, work[j := w])
  {
    var next := work[j := w];
    forall i | 0 <= i < |jobs| && !next[i].Queued?
      ensures NeedsMet(jobs, next, i)
    {
      assert NeedsMet(jobs, work, i);
    }
  }

  lemma {:induction false} StepInOrder(jobs: seq<Job>, cap: nat, s: State, step: Step, t: State)
    requires InOrder(jobs, s.work) && Next(jobs, cap, s, step, t)
    ensures InOrder(jobs, t.work)
  {
    assert |s.work| == |jobs|;
    hide InOrder, NeedsMet, Passed, After;
    match step
    case Acquire(j) => ChangeInOrder(jobs, s.work, j, t.work[j]);
    case Ask(j) => ChangeInOrder(jobs, s.work, j, t.work[j]);
    case Return(j, _) => ChangeInOrder(jobs, s.work, j, t.work[j]);
    case Release(j) => ChangeInOrder(jobs, s.work, j, t.work[j]);
    case Skip(j) => ChangeInOrder(jobs, s.work, j, t.work[j]);
    case _ =>
  }

  lemma {:induction false} RunInOrder(jobs: seq<Job>, cap: nat, states: seq<State>, steps: seq<Step>)
    requires Run(jobs, cap, states, steps)
    ensures InOrder(jobs, states[|steps|].work)
    decreases |steps|
  {
    hide Next, InOrder;
    if steps == [] {
      NothingStarted(jobs);
    } else {
      var n := |steps| - 1;
      RunInOrder(jobs, cap, states[..n + 1], steps[..n]);
      StepInOrder(jobs, cap, states[n], steps[n], states[n + 1]);
    }
  }

  lemma NothingStarted(jobs: seq<Job>)
    ensures InOrder(jobs, Begin(jobs).work)
  {}

  /** Where the jobs of a session are among all of them. */
  function BaseOf(sessions: seq<Session>, i: nat): nat
    requires i <= |sessions|
  {
    if i == 0 then 0 else BaseOf(sessions, i - 1) + |sessions[i - 1].kids| + (if |sessions[i - 1].kids| > 0 then 2 else 1)
  }

  /** The jobs of one session: a job for each sub-agent, one for the root, and one that folds them if there are any. */
  ghost predicate Holds(jobs: seq<Job>, base: nat, s: Session) {
    var n := |s.kids|;
    && base + n + (if n > 0 then 2 else 1) <= |jobs|
    && (forall k | 0 <= k < n :: jobs[base + k] == Job(Kid, s.kids[k], {}, false))
    && jobs[base + n].kind == Root && jobs[base + n].digest == s.root
    && jobs[base + n].needs == Indexes(base, base + n) && jobs[base + n].last == (n == 0)
    && (n > 0 ==> jobs[base + n + 1] == Job(Fold, NO_DIGEST, {base + n}, true))
  }

  lemma {:induction false} HoldsLonger(jobs: seq<Job>, more: seq<Job>, base: nat, s: Session)
    requires Holds(jobs, base, s)
    ensures Holds(jobs + more, base, s)
  {
    hide Indexes;
    assert forall k | 0 <= k < |jobs| :: (jobs + more)[k] == jobs[k];
  }

  lemma {:induction false} HoldsLast(before: seq<Job>, s: Session)
    ensures Holds(before + JobsOf(s, |before|), |before|, s)
  {
    hide Indexes;
    var n, more := |s.kids|, JobsOf(s, |before|);
    var all: seq<Job> := before + more;
    assert all[|before| + n] == more[n] && (n > 0 ==> all[|before| + n + 1] == more[n + 1]);
    forall k | 0 <= k < n
      ensures all[|before| + k] == Job(Kid, s.kids[k], {}, false)
    {
      assert all[|before| + k] == more[k];
    }
  }

  lemma {:induction false} JobsHold(sessions: seq<Session>, i: nat)
    requires i < |sessions|
    ensures Holds(Jobs(sessions), BaseOf(sessions, i), sessions[i])
    decreases |sessions|
  {
    hide Holds, JobsOf;
    var n := |sessions| - 1;
    var before := Jobs(sessions[..n]);
    if i < n {
      BaseOfFront(sessions, n, i);
      JobsHold(sessions[..n], i);
      HoldsLonger(before, JobsOf(sessions[n], |before|), BaseOf(sessions, i), sessions[i]);
    } else {
      SizeIs(sessions[..n]);
      BaseOfFront(sessions, n, n);
      HoldsLast(before, sessions[n]);
    }
  }

  lemma {:induction false} BaseOfFront(sessions: seq<Session>, n: nat, i: nat)
    requires i <= n <= |sessions|
    ensures BaseOf(sessions[..n], i) == BaseOf(sessions, i)
  {
    if i > 0 {
      BaseOfFront(sessions, n, i - 1);
    }
  }

  lemma {:induction false} SizeIs(sessions: seq<Session>)
    ensures |Jobs(sessions)| == BaseOf(sessions, |sessions|)
  {
    if sessions != [] {
      var n := |sessions| - 1;
      SizeIs(sessions[..n]);
      BaseOfFront(sessions, n, n);
    }
  }

  /**
   At any point of any run: no call is made for a session's own thread before all its sub-agents
   are done, and none to fold them in before its own thread is.
   */
  lemma {:induction false} SubAgentsComeFirst(sessions: seq<Session>, cap: nat, states: seq<State>, steps: seq<Step>, i: nat)
    requires Run(Jobs(sessions), cap, states, steps) && i < |sessions|
    ensures var work, base, n := states[|steps|].work, BaseOf(sessions, i), |sessions[i].kids|;
            && base + n < |work|
            && (!work[base + n].Queued? ==> forall k | base <= k < base + n :: work[k].Done?)
            && (n > 0 ==> base + n + 1 < |work| && (!work[base + n + 1].Queued? ==> work[base + n].Done?))
  {
    hide Jobs, Next;
    RunInOrder(Jobs(sessions), cap, states, steps);
    JobsHold(sessions, i);
    var work, base, n := states[|steps|].work, BaseOf(sessions, i), |sessions[i].kids|;
    forall k | base <= k < base + n && !work[base + n].Queued?
      ensures work[k].Done?
    {
      assert NeedsMet(Jobs(sessions), work, base + n) && k in Jobs(sessions)[base + n].needs;
    }
    if n > 0 && !work[base + n + 1].Queued? {
      assert NeedsMet(Jobs(sessions), work, base + n + 1) && base + n in Jobs(sessions)[base + n + 1].needs;
    }
  }

  /** A session with nothing to say and no sub-agents is given up, and so is the fold of one whose own summary failed. */
  lemma {:induction false} GivenUpExactlyWhen(sessions: seq<Session>, cap: nat, s: State, j: nat, t: State, i: nat)
    requires i < |sessions| && |s.work| == |Jobs(sessions)| && BaseOf(sessions, i) <= j < BaseOf(sessions, i + 1)
    requires Next(Jobs(sessions), cap, s, Skip(j), t) || Next(Jobs(sessions), cap, s, Acquire(j), t)
    ensures var base, n := BaseOf(sessions, i), |sessions[i].kids|;
            && base + n < |s.work|
            && (t.work[j] == Done(Failure) <==>
                  || (j == base + n && n == 0 && sessions[i].root.chars == 0)
                  || (j == base + n + 1 && s.work[base + n] == Done(Failure)))
  {
    hide Jobs, Indexes, First;
    JobsHold(sessions, i);
    var jobs, base, n := Jobs(sessions), BaseOf(sessions, i), |sessions[i].kids|;
    if j < base + n {
      assert jobs[base + (j - base)] == Job(Kid, sessions[i].kids[j - base], {}, false);
    } else if j == base + n && n > 0 {
      assert base in Indexes(base, base + n);
    } else if j == base + n + 1 {
      assert jobs[j].needs == {base + n};
    } else {
      IndexesEmpty(base);
    }
  }

  lemma {:induction false} IndexesEmpty(base: nat)
    ensures Indexes(base, base) == {}
  {}

  /** The job whose text is the session's summary. */
  function FinalOf(sessions: seq<Session>, i: nat): nat
    requires i < |sessions|
  {
    BaseOf(sessions, i) + |sessions[i].kids| + if |sessions[i].kids| > 0 then 1 else 0
  }

  lemma {:induction false} LastIsFinal(sessions: seq<Session>, j: nat) returns (i: nat)
    requires j < |Jobs(sessions)| && Jobs(sessions)[j].last
    ensures i < |sessions| && j == FinalOf(sessions, i)
  {
    hide Indexes;
    var n := |sessions| - 1;
    var before := Jobs(sessions[..n]);
    SizeIs(sessions[..n]);
    BaseOfFront(sessions, n, n);
    if j < |before| {
      assert Jobs(sessions)[j] == before[j];
      i := LastIsFinal(sessions[..n], j);
      BaseOfFront(sessions, n, i);
    } else {
      i := n;
      assert Jobs(sessions)[j] == JobsOf(sessions[n], |before|)[j - |before|];
    }
  }

  /** The roll-up is made exactly when nobody interrupted the run and some session has a summary. */
  lemma {:induction false} RollsUpExactlyWhen(sessions: seq<Session>, cap: nat, s: State, t: State)
    requires |s.work| == |Jobs(sessions)| && Next(Jobs(sessions), cap, s, Roll, t)
    ensures forall i | 0 <= i < |sessions| :: FinalOf(sessions, i) < |s.work|
    ensures t.rollup.Rolling? <==> !s.cancelled && exists i :: 0 <= i < |sessions| && s.work[FinalOf(sessions, i)] == Done(Prose)
  {
    hide Jobs, Holds, FinalOf;
    forall i | 0 <= i < |sessions|
      ensures FinalOf(sessions, i) < |s.work| && Jobs(sessions)[FinalOf(sessions, i)].last
    {
      FinalIsLast(sessions, i);
    }
    if AnySummary(Jobs(sessions), s.work) {
      var j :| 0 <= j < |s.work| && Jobs(sessions)[j].last && s.work[j] == Done(Prose);
      var i := LastIsFinal(sessions, j);
      assert s.work[FinalOf(sessions, i)] == Done(Prose);
    }
  }

  lemma {:induction false} FinalIsLast(sessions: seq<Session>, i: nat)
    requires i < |sessions|
    ensures FinalOf(sessions, i) < |Jobs(sessions)| && Jobs(sessions)[FinalOf(sessions, i)].last
  {
    hide Jobs;
    JobsHold(sessions, i);
  }

  // ---- What a plan adds up to -------------------------------------------------------------------

  function UnitChars(units: seq<PlanUnit>): nat {
    if units == [] then 0 else units[0].chars + UnitChars(units[1..])
  }

  function RowChars(rows: seq<PlanSession>): nat {
    if rows == [] then 0 else rows[0].root.chars + UnitChars(rows[0].subagents) + RowChars(rows[1..])
  }

  lemma {:induction false} UnitCharsAppend(units: seq<PlanUnit>, u: PlanUnit)
    ensures UnitChars(units + [u]) == UnitChars(units) + u.chars
  {
    if units == [] {
      assert [u][1..] == [];
    } else {
      assert (units + [u])[1..] == units[1..] + [u];
      UnitCharsAppend(units[1..], u);
    }
  }

  lemma {:induction false} RowCharsAppend(rows: seq<PlanSession>, row: PlanSession)
    ensures RowChars(rows + [row]) == RowChars(rows) + row.root.chars + UnitChars(row.subagents)
  {
    if rows == [] {
      assert [row][1..] == [];
    } else {
      assert (rows + [row])[1..] == rows[1..] + [row];
      RowCharsAppend(rows[1..], row);
    }
  }

  lemma {:induction false} KidsAddUp(kids: seq<Digest>, units: seq<PlanUnit>)
    requires |units| == |kids| && forall k | 0 <= k < |kids| :: units[k].chars == kids[k].chars
    ensures KidChars(kids) == UnitChars(units)
  {
    if kids != [] {
      var n := |kids| - 1;
      KidsAddUp(kids[..n], units[..n]);
      UnitCharsAppend(units[..n], units[n]);
      assert units == units[..n] + [units[n]];
    }
  }

  /** Each row says how large its digests are and in how many chunks they come. */
  lemma RowsAre(sessions: seq<Session>, i: nat)
    requires i < |sessions|
    ensures var row, s := PlanOf(sessions).sessions[i], sessions[i];
            && |PlanOf(sessions).sessions| == |sessions|
            && row.root == PlanUnit(s.root.chars, |s.root.chunks|) && |row.subagents| == |s.kids|
            && forall k | 0 <= k < |s.kids| :: row.subagents[k] == PlanUnit(s.kids[k].chars, |s.kids[k].chunks|)
  {}

  /** The rows of a plan add up to its total. */
  lemma {:induction false} RowsAddUp(sessions: seq<Session>)
    ensures PlanOf(sessions).chars == RowChars(PlanOf(sessions).sessions)
  {
    hide UnitOf;
    if sessions != [] {
      var n := |sessions| - 1;
      RowsAddUp(sessions[..n]);
      var rows := PlanOf(sessions).sessions;
      assert rows == PlanOf(sessions[..n]).sessions + [rows[n]];
      RowCharsAppend(rows[..n], rows[n]);
      RowsAre(sessions, n);
      KidsAddUp(sessions[n].kids, rows[n].subagents);
    }
  }
}
