/**
 A summary run: internal/summary/summary.go and plan.go.  Sessions and their sub-agents are
 summarised by goroutines that share one semaphore; the estimate says beforehand how many
 model calls that will take.
 */
module SummaryRun {
  import opened Digests
  import opened SummaryCalls

  /** A selected session: its own digest and those of its sub-agents. */
  datatype Session = Session(root: Digest, kids: seq<Digest>)

  // ---- The jobs of a run --------------------------------------------------------------

  datatype Kind = Kid | Root | Fold

  /**
   One stretch of work done under one permit: a digest to summarise or, for a fold, a single
   call.  `needs` are the jobs it waits for, before it asks for the permit; `last` marks the
   job whose text is its session's summary.
   */
  datatype Job = Job(kind: Kind, digest: Digest, needs: set<nat>, last: bool)

  const NO_DIGEST: Digest := Digest([], 0, 0)

  /** The first call a job makes. */
  function First(j: Job): Stage {
    if j.kind.Fold? then Sole else Enter(j.digest)
  }

  /** What the estimate counts for it. */
  function Cost(j: Job): nat {
    if j.kind.Fold? then 1 else CallsFor(j.digest)
  }

  lemma FirstCosts(j: Job)
    ensures ToCome(j.digest, First(j)) == Cost(j)
  {
    EnterCosts(j.digest);
  }

  function Indexes(from: nat, to: nat): (r: set<nat>)
    ensures forall k: nat :: k in r <==> from <= k < to
  {
    if to <= from then {} else Indexes(from, to - 1) + {to - 1}
  }

  /** Sub-agents first, then the root, then the pass that folds them together if there are any. */
  function JobsOf(s: Session, base: nat): seq<Job> {
    var n := |s.kids|;
    seq(n, i requires 0 <= i < n => Job(Kid, s.kids[i], {}, false))
    + [Job(Root, s.root, Indexes(base, base + n), n == 0)]
    + if n > 0 then [Job(Fold, NO_DIGEST, {base + n}, true)] else []
  }

  function Jobs(sessions: seq<Session>): seq<Job> {
    if sessions == [] then []
    else
      var before := Jobs(sessions[..|sessions| - 1]);
      before + JobsOf(sessions[|sessions| - 1], |before|)
  }

  /** A root with nothing to say and no sub-agents makes no call at all. */
  predicate Hollow(j: Job) {
    j.kind.Root? && j.digest.chars == 0 && j.needs == {}
  }

  function Total(jobs: seq<Job>): nat {
    if jobs == [] then 0 else Total(jobs[..|jobs| - 1]) + Cost(jobs[|jobs| - 1])
  }

  /** Every job only waits for earlier ones. */
  ghost predicate Ordered(jobs: seq<Job>) {
    forall j, k: nat | 0 <= j < |jobs| && k in jobs[j].needs :: k < j
  }

  lemma {:induction false} JobsOrdered(sessions: seq<Session>)
    ensures Ordered(Jobs(sessions))
  {
    if sessions != [] {
      var n := |sessions| - 1;
      hide Indexes;
      JobsOrdered(sessions[..n]);
      var before := Jobs(sessions[..n]);
      var more := JobsOf(sessions[n], |before|);
      var all: seq<Job> := before + more;
      forall j, k: nat | 0 <= j < |all| && k in all[j].needs
        ensures k < j
      {
        if j < |before| {
          assert k in before[j].needs;
        }
      }
    }
  }

  lemma {:induction false} TotalAppend(a: seq<Job>, b: seq<Job>)
    ensures Total(a + b) == Total(a) + Total(b)
    decreases |b|
  {
    if b == [] {
      assert a + b == a;
    } else {
      assert (a + b)[..|a + b| - 1] == a + b[..|b| - 1];
      TotalAppend(a, b[..|b| - 1]);
    }
  }

  // ---- The estimate -------------------------------------------------------------------

  datatype PlanUnit = PlanUnit(chars: nat, passes: nat)

  datatype PlanSession = PlanSession(root: PlanUnit, subagents: seq<PlanUnit>)

  datatype Plan = Plan(chars: nat, calls: nat, sessions: seq<PlanSession>)

  function UnitOf(d: Digest): PlanUnit {
    PlanUnit(d.chars, d.Passes())
  }

  /** What the plan says of one session. */
  function RowOf(s: Session): PlanSession {
    PlanSession(UnitOf(s.root), seq(|s.kids|, i requires 0 <= i < |s.kids| => UnitOf(s.kids[i])))
  }

  function CharsOf(s: Session): nat {
    s.root.chars + KidChars(s.kids)
  }

  function KidChars(kids: seq<Digest>): nat {
    if kids == [] then 0 else KidChars(kids[..|kids| - 1]) + kids[|kids| - 1].chars
  }

  function AllChars(sessions: seq<Session>): nat {
    if sessions == [] then 0 else AllChars(sessions[..|sessions| - 1]) + CharsOf(sessions[|sessions| - 1])
  }

  lemma {:induction false} KidTotal(kids: seq<Digest>)
    requires kids != []
    ensures var n := |kids|;
            var jobs := seq(n, i requires 0 <= i < n => Job(Kid, kids[i], {}, false));
            var fewer := seq(n - 1, i requires 0 <= i < n - 1 => Job(Kid, kids[i], {}, false));
            Total(jobs) == Total(fewer) + CallsFor(kids[n - 1])
  {
    var n := |kids|;
    var jobs := seq(n, i requires 0 <= i < n => Job(Kid, kids[i], {}, false));
    assert jobs[..n - 1] == seq(n - 1, i requires 0 <= i < n - 1 => Job(Kid, kids[i], {}, false));
  }

  function KidCalls(kids: seq<Digest>): nat {
    if kids == [] then 0 else KidCalls(kids[..|kids| - 1]) + CallsFor(kids[|kids| - 1])
  }

  lemma {:induction false} KidCallsAreTotal(kids: seq<Digest>)
    ensures Total(seq(|kids|, i requires 0 <= i < |kids| => Job(Kid, kids[i], {}, false))) == KidCalls(kids)
  {
    if kids != [] {
      var n := |kids|;
      KidTotal(kids);
      KidCallsAreTotal(kids[..n - 1]);
      assert seq(n - 1, i requires 0 <= i < n - 1 => Job(Kid, kids[..n - 1][i], {}, false))
          == seq(n - 1, i requires 0 <= i < n - 1 => Job(Kid, kids[i], {}, false));
    }
  }

  lemma SessionTotal(s: Session, base: nat)
    ensures Total(JobsOf(s, base)) == CallsFor(s.root) + KidCalls(s.kids) + if |s.kids| > 0 then 1 else 0
  {
    var n := |s.kids|;
    var kids := seq(n, i requires 0 <= i < n => Job(Kid, s.kids[i], {}, false));
    var root := [Job(Root, s.root, Indexes(base, base + n), n == 0)];
    var fold := if n > 0 then [Job(Fold, NO_DIGEST, {base + n}, true)] else [];
    KidCallsAreTotal(s.kids);
    TotalAppend(kids + root, fold);
    TotalAppend(kids, root);
  }

  lemma NoJobs()
    ensures Total([]) == 0
  {}

  lemma OneMoreSession(sessions: seq<Session>, i: nat)
    requires i < |sessions|
    ensures Total(Jobs(sessions[..i + 1]))
         == Total(Jobs(sessions[..i])) + CallsFor(sessions[i].root) + KidCalls(sessions[i].kids)
            + if |sessions[i].kids| > 0 then 1 else 0
  {
    hide JobsOf, KidCalls, CallsFor;
    assert sessions[..i + 1][..i] == sessions[..i];
    var before := Jobs(sessions[..i]);
    SessionTotal(sessions[i], |before|);
    TotalAppend(before, JobsOf(sessions[i], |before|));
  }

  /** What the jobs of a run and its roll-up come to, and a row for each session. */
  function PlanOf(sessions: seq<Session>): Plan {
    Plan(AllChars(sessions), Total(Jobs(sessions)) + 1,
         seq(|sessions|, i requires 0 <= i < |sessions| => RowOf(sessions[i])))
  }

  /** Accounts for every call a run may make, walking the same subtree. */
  method Estimate(sessions: seq<Session>) returns (p: Plan)
    ensures p == PlanOf(sessions)
  {
    hide CallsFor, JobsOf, Total;
    var rows: seq<PlanSession> := [];
    var chars, calls := 0, 0;
    assert Total([]) == 0 by {
      NoJobs();
    }
    for i := 0 to |sessions|
      invariant calls == Total(Jobs(sessions[..i])) && chars == AllChars(sessions[..i])
      invariant |rows| == i && forall k :: 0 <= k < i ==> rows[k] == RowOf(sessions[k])
    {
      var s := sessions[i];
      assert sessions[..i + 1][..i] == sessions[..i];
      chars := chars + s.root.chars;
      calls := calls + CallsFor(s.root);
      var moreChars, moreCalls, units := EstimateKids(s.kids);
      chars, calls := chars + moreChars, calls + moreCalls;
      if |s.kids| > 0 {
        calls := calls + 1;
      }
      rows := rows + [PlanSession(UnitOf(s.root), units)];
      OneMoreSession(sessions, i);
    }
    assert sessions[..|sessions|] == sessions;
    p := Plan(chars, calls + 1, rows);
  }

  /** The share of a session's sub-agents. */
  method EstimateKids(kids: seq<Digest>) returns (chars: nat, calls: nat, units: seq<PlanUnit>)
    ensures chars == KidChars(kids) && calls == KidCalls(kids)
    ensures |units| == |kids| && forall k | 0 <= k < |kids| :: units[k] == UnitOf(kids[k])
  {
    hide CallsFor;
    chars, calls, units := 0, 0, [];
    for k := 0 to |kids|
      invariant chars == KidChars(kids[..k]) && calls == KidCalls(kids[..k])
      invariant |units| == k && forall m | 0 <= m < k :: units[m] == UnitOf(kids[m])
    {
      assert kids[..k + 1][..k] == kids[..k];
      chars := chars + kids[k].chars;
      calls := calls + CallsFor(kids[k]);
      units := units + [UnitOf(kids[k])];
    }
    assert kids[..|kids|] == kids;
  }

  // ---- The run ------------------------------------------------------------------------

  /**
   Where a job stands.  Only a running job holds a permit; `stage` is the call it is at, and
   `busy` says that this call is in flight.
   */
  datatype Work = Queued | Running(stage: Stage, busy: bool) | Done(result: Outcome)

  datatype Rollup = Waiting | Rolling | Ended

  /** `held` is the occupancy of the semaphore; `clean` says that every call so far returned prose. */
  datatype State = State(work: seq<Work>, held: nat, calls: nat, rollup: Rollup, cancelled: bool, clean: bool)

  datatype Step =
    | Acquire(j: nat)
    | Ask(j: nat)
    | Return(j: nat, outcome: Outcome)
    | Release(j: nat)
    | Skip(j: nat)
    | Cancel
    | Roll
    | RollReturn(outcome: Outcome)

  function Begin(jobs: seq<Job>): State {
    State(seq(|jobs|, i => Queued), 0, 0, Waiting, false, true)
  }

  ghost predicate NeedsMet(jobs: seq<Job>, work: seq<Work>, j: nat)
    requires |work| == |jobs| && j < |jobs|
  {
    forall k | k in jobs[j].needs :: k < |work| && work[k].Done?
  }

  /** The fold is not attempted for a session whose own summary failed, nor a root with nothing in it. */
  ghost predicate Passed(jobs: seq<Job>, work: seq<Work>, j: nat)
    requires |work| == |jobs| && j < |jobs|
  {
    Hollow(jobs[j]) || (jobs[j].kind.Fold? && exists k :: k in jobs[j].needs && k < |work| && work[k] == Done(Failure))
  }

  predicate AllDone(work: seq<Work>) {
    forall j | 0 <= j < |work| :: work[j].Done?
  }

  /** Some session produced a summary. */
  predicate AnySummary(jobs: seq<Job>, work: seq<Work>)
    requires |work| == |jobs|
  {
    exists j | 0 <= j < |work| :: jobs[j].last && work[j] == Done(Prose)
  }

  /** One step of one goroutine, if it can be taken. */
  ghost predicate Next(jobs: seq<Job>, cap: nat, s: State, step: Step, t: State)
    requires |s.work| == |jobs|
  {
    match step
    case Acquire(j) =>
      && j < |jobs| && s.work[j].Queued? && NeedsMet(jobs, s.work, j) && !Passed(jobs, s.work, j) && s.held < cap
      && t == s.(work := s.work[j := Running(First(jobs[j]), false)], held := s.held + 1)
    case Ask(j) =>
      && j < |jobs| && s.work[j].Running? && !s.work[j].busy && !s.work[j].stage.Over?
      && t == s.(work := s.work[j := s.work[j].(busy := true)])
    case Return(j, outcome) =>
      && j < |jobs| && s.work[j].Running? && s.work[j].busy && !s.work[j].stage.Over?
      && t == s.(work := s.work[j := Running(After(jobs[j].digest, s.work[j].stage, outcome), false)],
                 calls := s.calls + 1, clean := s.clean && outcome.Prose?)
    case Release(j) =>
      && j < |jobs| && s.work[j].Running? && !s.work[j].busy && s.work[j].stage.Over? && s.held > 0
      && t == s.(work := s.work[j := Done(s.work[j].stage.result)], held := s.held - 1)
    case Skip(j) =>
      && j < |jobs| && s.work[j].Queued? && NeedsMet(jobs, s.work, j) && Passed(jobs, s.work, j)
      && t == s.(work := s.work[j := Done(Failure)])
    case Cancel => t == s.(cancelled := true)
    case Roll =>
      && s.rollup.Waiting? && AllDone(s.work)
      && t == s.(rollup := if s.cancelled || !AnySummary(jobs, s.work) then Ended else Rolling)
    case RollReturn(outcome) =>
      && s.rollup.Rolling?
      && t == s.(rollup := Ended, calls := s.calls + 1, clean := s.clean && outcome.Prose?)
  }

  // ---- Counting -----------------------------------------------------------------------

  function Holding(w: Work): nat {
    if w.Running? then 1 else 0
  }

  function InFlightOf(w: Work): nat {
    if w.Running? && w.busy then 1 else 0
  }

  function LeftOf(j: Job, w: Work): nat {
    match w
    case Queued => ToCome(j.digest, First(j))
    case Running(stage, _) => ToCome(j.digest, stage)
    case Done(_) => 0
  }

  function Held(work: seq<Work>): nat {
    if work == [] then 0 else Held(work[..|work| - 1]) + Holding(work[|work| - 1])
  }

  function InFlight(work: seq<Work>): nat {
    if work == [] then 0 else InFlight(work[..|work| - 1]) + InFlightOf(work[|work| - 1])
  }

  /** The calls the jobs may still make. */
  function Left(jobs: seq<Job>, work: seq<Work>): nat
    requires |work| == |jobs|
  {
    if work == [] then 0
    else Left(jobs[..|jobs| - 1], work[..|work| - 1]) + LeftOf(jobs[|jobs| - 1], work[|work| - 1])
  }

  lemma {:induction false} UpdateCounts(jobs: seq<Job>, work: seq<Work>, j: nat, w: Work)
    requires |work| == |jobs| && j < |work|
    ensures Held(work[j := w]) + Holding(work[j]) == Held(work) + Holding(w)
    ensures Left(jobs, work[j := w]) + LeftOf(jobs[j], work[j]) == Left(jobs, work) + LeftOf(jobs[j], w)
  {
    hide Holding, LeftOf;
    var n := |work| - 1;
    var next := work[j := w];
    if j < n {
      UpdateCounts(jobs[..n], work[..n], j, w);
      assert next[..n] == work[..n][j := w];
    } else {
      assert next[..n] == work[..n];
    }
  }

  lemma {:induction false} FlightsAreHeld(work: seq<Work>)
    ensures InFlight(work) <= Held(work)
  {
    if work != [] {
      FlightsAreHeld(work[..|work| - 1]);
    }
  }

  lemma {:induction false} NoneHeld(work: seq<Work>)
    ensures Held(work) == 0 <==> forall j | 0 <= j < |work| :: !work[j].Running?
  {
    if work != [] {
      var n := |work| - 1;
      NoneHeld(work[..n]);
      assert forall j | 0 <= j < n :: work[..n][j] == work[j];
    }
  }

  lemma {:induction false} NothingLeft(jobs: seq<Job>, work: seq<Work>)
    requires |work| == |jobs| && AllDone(work)
    ensures Left(jobs, work) == 0
  {
    if work != [] {
      NothingLeft(jobs[..|jobs| - 1], work[..|work| - 1]);
    }
  }

  lemma {:induction false} AllLeft(jobs: seq<Job>)
    ensures Left(jobs, Begin(jobs).work) == Total(jobs) && Held(Begin(jobs).work) == 0
  {
    if jobs != [] {
      var n := |jobs| - 1;
      AllLeft(jobs[..n]);
      FirstCosts(jobs[n]);
      assert Begin(jobs).work[..n] == Begin(jobs[..n]).work;
    }
  }

  // ---- What every step keeps ----------------------------------------------------------

  /** A fold waits for a root that is not hollow, and some job per session is its last. */
  ghost predicate Sensible(jobs: seq<Job>) {
    && Ordered(jobs)
    && FoldsOk(jobs)
  }

  ghost predicate FoldsOk(jobs: seq<Job>) {
    forall j | 0 <= j < |jobs| && jobs[j].kind.Fold? :: FoldOk(jobs, j)
  }

  ghost predicate FoldOk(jobs: seq<Job>, j: nat)
    requires j < |jobs|
  {
    forall k: nat | k in jobs[j].needs :: k < |jobs| && jobs[k].kind.Root? && jobs[k].needs != {}
  }

  /** A job at a call it can come to. */
  predicate Stands(j: Job, w: Work) {
    w.Running? ==>
      && (First(j).Over? ==> w.stage == First(j))
      && (w.busy ==> !w.stage.Over?)
  }

  /** While every call has come back with prose, each job's result follows from what it has to say. */
  predicate Steady(j: Job, w: Work) {
    match w
    case Queued => true
    case Running(stage, _) => !Hollow(j) && (stage.Over? ==> stage.result == if First(j).Over? then Blank else Prose)
    case Done(result) => result == if Hollow(j) then Failure else if First(j).Over? then Blank else Prose
  }

  /** Calls made, calls that may still be made, and the roll-up. */
  function Spent(jobs: seq<Job>, s: State): nat
    requires |s.work| == |jobs|
  {
    s.calls + Left(jobs, s.work) + if s.rollup.Ended? then 0 else 1
  }

  /** At least one session has content or sub-agents. */
  ghost predicate HasContent(jobs: seq<Job>) {
    exists j | 0 <= j < |jobs| :: jobs[j].last && !First(jobs[j]).Over?
  }

  ghost predicate Inv(jobs: seq<Job>, cap: nat, s: State) {
    && |s.work| == |jobs|
    && s.held == Held(s.work) <= cap
    && (!s.rollup.Waiting? ==> AllDone(s.work))
    && (forall j | 0 <= j < |jobs| :: Stands(jobs[j], s.work[j]))
    && Spent(jobs, s) <= Total(jobs) + 1
    && (s.clean ==> forall j | 0 <= j < |jobs| :: Steady(jobs[j], s.work[j]))
    && (s.clean && !s.cancelled && HasContent(jobs) ==> Spent(jobs, s) == Total(jobs) + 1)
  }

  lemma BeginInv(jobs: seq<Job>, cap: nat)
    ensures Inv(jobs, cap, Begin(jobs))
  {
    hide Total, Left, Held;
    AllLeft(jobs);
  }

  /** A step of one job, seen from that job alone. */
  lemma JobKeeps(jobs: seq<Job>, cap: nat, s: State, t: State, j: nat, w: Work)
    requires Inv(jobs, cap, s) && j < |jobs| && s.rollup == t.rollup && s.cancelled == t.cancelled
    requires t.work == s.work[j := w] && !s.work[j].Done?
    requires t.held + Holding(s.work[j]) == s.held + Holding(w) && t.held <= cap
    requires Stands(jobs[j], w)
    requires t.calls + LeftOf(jobs[j], w) <= s.calls + LeftOf(jobs[j], s.work[j])
    requires t.clean ==> s.clean && Steady(jobs[j], w)
    requires t.clean ==> t.calls + LeftOf(jobs[j], w) == s.calls + LeftOf(jobs[j], s.work[j])
    ensures Inv(jobs, cap, t)
  {
    hide Total, Left, Held, Steady, Holding, LeftOf, Stands;
    UpdateCounts(jobs, s.work, j, w);
  }

  /** While nothing failed, a fold finds its session's own summary. */
  lemma CleanFoldGoesOn(jobs: seq<Job>, s: State, j: nat)
    requires |s.work| == |jobs| && FoldsOk(jobs) && j < |jobs|
    requires s.clean ==> forall k | 0 <= k < |jobs| :: Steady(jobs[k], s.work[k])
    ensures s.clean && jobs[j].kind.Fold? ==> !Passed(jobs, s.work, j)
  {
    if s.clean && jobs[j].kind.Fold? {
      assert FoldOk(jobs, j);
      forall k: nat | k in jobs[j].needs && k < |jobs|
        ensures s.work[k] != Done(Failure)
      {
        assert Steady(jobs[k], s.work[k]);
      }
    }
  }

  lemma StepKeeps(jobs: seq<Job>, cap: nat, s: State, step: Step, t: State)
    requires Sensible(jobs) && Inv(jobs, cap, s) && Next(jobs, cap, s, step, t)
    ensures Inv(jobs, cap, t)
  {
    hide Total, Left, Held, Inv, Ordered;
    InvFacts(jobs, cap, s);
    match step
    case Acquire(j) => JobKeeps(jobs, cap, s, t, j, t.work[j]);
    case Ask(j) => JobKeeps(jobs, cap, s, t, j, t.work[j]);
    case Return(j, outcome) =>
      AfterCosts(jobs[j].digest, s.work[j].stage, outcome);
      JobKeeps(jobs, cap, s, t, j, t.work[j]);
    case Release(j) => JobKeeps(jobs, cap, s, t, j, t.work[j]);
    case Skip(j) =>
      CleanFoldGoesOn(jobs, s, j);
      JobKeeps(jobs, cap, s, t, j, t.work[j]);
    case Cancel => CancelKeeps(jobs, cap, s, t);
    case Roll => RollKeeps(jobs, cap, s, t);
    case RollReturn(outcome) => RollReturnKeeps(jobs, cap, s, t);
  }

  lemma InvFacts(jobs: seq<Job>, cap: nat, s: State)
    requires Inv(jobs, cap, s)
    ensures |s.work| == |jobs| && s.held <= cap
    ensures forall j | 0 <= j < |jobs| :: Stands(jobs[j], s.work[j])
    ensures s.clean ==> forall j | 0 <= j < |jobs| :: Steady(jobs[j], s.work[j])
  {
    hide Total, Left, Held;
  }

  lemma CancelKeeps(jobs: seq<Job>, cap: nat, s: State, t: State)
    requires Inv(jobs, cap, s) && t == s.(cancelled := true)
    ensures Inv(jobs, cap, t)
  {
    hide Total, Left, Held, Steady;
  }

  lemma RollKeeps(jobs: seq<Job>, cap: nat, s: State, t: State)
    requires Inv(jobs, cap, s) && s.rollup.Waiting? && AllDone(s.work)
    requires t == s.(rollup := if s.cancelled || !AnySummary(jobs, s.work) then Ended else Rolling)
    ensures Inv(jobs, cap, t)
  {
    hide Total, Left, Held;
    if s.clean && HasContent(jobs) {
      var j :| 0 <= j < |jobs| && jobs[j].last && !First(jobs[j]).Over?;
      assert Steady(jobs[j], s.work[j]);
      assert s.work[j] == Done(Prose);
    }
  }

  lemma RollReturnKeeps(jobs: seq<Job>, cap: nat, s: State, t: State)
    requires Inv(jobs, cap, s) && s.rollup.Rolling?
    requires t.work == s.work && t.held == s.held && t.rollup.Ended? && t.calls == s.calls + 1 && t.cancelled == s.cancelled
    requires t.clean ==> s.clean
    ensures Inv(jobs, cap, t)
  {
    hide Total, Left, Held, Steady;
  }

  // ---- Over every interleaving --------------------------------------------------------

  /** A run: states linked by steps of any goroutines, in any order. */
  ghost predicate Run(jobs: seq<Job>, cap: nat, states: seq<State>, steps: seq<Step>) {
    && |states| == |steps| + 1
    && states[0] == Begin(jobs)
    && forall i | 0 <= i < |steps| :: |states[i].work| == |jobs| && Next(jobs, cap, states[i], steps[i], states[i + 1])
  }

  lemma {:induction false} RunKeeps(jobs: seq<Job>, cap: nat, states: seq<State>, steps: seq<Step>)
    requires Sensible(jobs) && Run(jobs, cap, states, steps)
    ensures Inv(jobs, cap, states[|steps|])
    decreases |steps|
  {
    hide Inv, Next, Sensible;
    if steps == [] {
      BeginInv(jobs, cap);
    } else {
      var n := |steps| - 1;
      RunKeeps(jobs, cap, states[..n + 1], steps[..n]);
      StepKeeps(jobs, cap, states[n], steps[n], states[n + 1]);
    }
  }

  lemma {:induction false} SessionJobsSensible(sessions: seq<Session>)
    ensures Sensible(Jobs(sessions))
  {
    hide Jobs;
    JobsOrdered(sessions);
    FoldsFollowRoots(sessions);
  }

  lemma {:induction false} FoldsFollowRoots(sessions: seq<Session>)
    ensures FoldsOk(Jobs(sessions))
  {
    hide FoldsOk, JobsOf;
    if sessions == [] {
      NoFolds();
    } else {
      var n := |sessions| - 1;
      FoldsFollowRoots(sessions[..n]);
      FoldsAppend(Jobs(sessions[..n]), sessions[n]);
    }
  }

  lemma NoFolds()
    ensures FoldsOk([])
  {}

  lemma FoldsAppend(before: seq<Job>, s: Session)
    requires FoldsOk(before)
    ensures FoldsOk(before + JobsOf(s, |before|))
  {
    hide CallsFor;
    var more := JobsOf(s, |before|);
    var all: seq<Job> := before + more;
    forall j | 0 <= j < |all| && all[j].kind.Fold?
      ensures FoldOk(all, j)
    {
      if j < |before| {
        assert before[j].kind.Fold? && FoldOk(before, j);
        assert forall k: nat | k in all[j].needs :: all[k] == before[k];
      } else {
        var root := |before| + |s.kids|;
        assert all[j].needs == {root} && all[root] == more[|s.kids|];
        assert |before| in all[root].needs;
      }
    }
  }

  /**
   At most `cap` model calls are in flight, whatever the interleaving; the roll-up is made
   alone.
   */
  lemma {:induction false} WithinConcurrency(sessions: seq<Session>, cap: nat, states: seq<State>, steps: seq<Step>)
    requires Run(Jobs(sessions), cap, states, steps)
    ensures var s := states[|steps|];
            InFlight(s.work) <= s.held <= cap && (s.rollup.Rolling? ==> InFlight(s.work) == 0)
  {
    hide Next, Sensible, Jobs, Total, Left, InFlight, Held, Steady;
    SessionJobsSensible(sessions);
    RunKeeps(Jobs(sessions), cap, states, steps);
    var s := states[|steps|];
    FlightsAreHeld(s.work);
    NoneHeld(s.work);
  }

  /** The run never makes more calls than the estimate, for any sessions and any pattern of failures. */
  lemma {:induction false} NeverOverEstimate(sessions: seq<Session>, cap: nat, states: seq<State>, steps: seq<Step>)
    requires Run(Jobs(sessions), cap, states, steps)
    ensures states[|steps|].calls <= PlanOf(sessions).calls
  {
    hide Next, Sensible, Jobs, Total, Left, InFlight, Held, Steady;
    SessionJobsSensible(sessions);
    RunKeeps(Jobs(sessions), cap, states, steps);
  }

  /**
   And exactly as many when every call returned prose, nothing was cancelled and some session
   has content or sub-agents.
   */
  lemma {:induction false} EstimateIsExact(sessions: seq<Session>, cap: nat, states: seq<State>, steps: seq<Step>)
    requires Run(Jobs(sessions), cap, states, steps)
    requires var s := states[|steps|]; s.rollup.Ended? && s.clean && !s.cancelled
    requires exists i | 0 <= i < |sessions| :: sessions[i].root.chunks != [] || sessions[i].kids != []
    ensures states[|steps|].calls == PlanOf(sessions).calls
  {
    hide Next, Sensible, Jobs, Total, Left, InFlight, Held, Steady;
    SessionJobsSensible(sessions);
    RunKeeps(Jobs(sessions), cap, states, steps);
    var i :| 0 <= i < |sessions| && (sessions[i].root.chunks != [] || sessions[i].kids != []);
    ContentHasBudget(sessions, i);
    NothingLeft(Jobs(sessions), states[|steps|].work);
  }

  lemma {:induction false} ContentHasBudget(sessions: seq<Session>, i: nat)
    requires i < |sessions| && (sessions[i].root.chunks != [] || sessions[i].kids != [])
    ensures HasContent(Jobs(sessions))
    decreases |sessions|
  {
    var n := |sessions| - 1;
    var before := Jobs(sessions[..n]);
    var more := JobsOf(sessions[n], |before|);
    var all: seq<Job> := before + more;
    assert all == Jobs(sessions);
    if i < n {
      ContentHasBudget(sessions[..n], i);
      var j :| 0 <= j < |before| && before[j].last && !First(before[j]).Over?;
      assert all[j] == before[j];
    } else {
      var last := all[|all| - 1];
      assert last == more[|more| - 1];
      assert last.last && !First(last).Over?;
    }
  }

  /** No goroutine waits for another while it holds a permit: it can always go on by itself. */
  lemma {:induction false} HolderNeverWaits(sessions: seq<Session>, cap: nat, states: seq<State>, steps: seq<Step>, j: nat)
    requires Run(Jobs(sessions), cap, states, steps)
    requires j < |states[|steps|].work| && states[|steps|].work[j].Running?
    ensures |states[|steps|].work| == |Jobs(sessions)|
    ensures var s := states[|steps|];
            exists t, step | step in {Ask(j), Return(j, Prose), Release(j)} :: Next(Jobs(sessions), cap, s, step, t)
  {
    hide Sensible, Jobs, Total, Left, InFlight, Held, Steady;
    SessionJobsSensible(sessions);
    RunKeeps(Jobs(sessions), cap, states, steps);
    Goes(Jobs(sessions), cap, states[|steps|], j);
  }

  lemma Goes(jobs: seq<Job>, cap: nat, s: State, j: nat)
    requires Inv(jobs, cap, s) && j < |jobs| && s.work[j].Running?
    ensures exists t, step | step in {Ask(j), Return(j, Prose), Release(j)} :: Next(jobs, cap, s, step, t)
  {
    hide Total, Left, Held, Steady, HasContent;
    var w := s.work[j];
    if w.busy {
      assert Stands(jobs[j], w);
      var t := s.(work := s.work[j := Running(After(jobs[j].digest, w.stage, Prose), false)], calls := s.calls + 1,
                  clean := s.clean && true);
      assert Next(jobs, cap, s, Return(j, Prose), t);
    } else if !w.stage.Over? {
      var t := s.(work := s.work[j := w.(busy := true)]);
      assert Next(jobs, cap, s, Ask(j), t);
    } else {
      NoneHeld(s.work);
      var t := s.(work := s.work[j := Done(w.stage.result)], held := s.held - 1);
      assert Next(jobs, cap, s, Release(j), t);
    }
  }

  /** Until the run has ended, somebody can take a step. */
  lemma {:induction false} NeverStuck(sessions: seq<Session>, cap: nat, states: seq<State>, steps: seq<Step>)
    requires cap > 0 && Run(Jobs(sessions), cap, states, steps) && !states[|steps|].rollup.Ended?
    ensures |states[|steps|].work| == |Jobs(sessions)|
    ensures exists t, step | step != Cancel :: Next(Jobs(sessions), cap, states[|steps|], step, t)
  {
    hide Sensible, Jobs, Total, Left, InFlight, Held, Steady;
    SessionJobsSensible(sessions);
    RunKeeps(Jobs(sessions), cap, states, steps);
    SomeoneGoes(Jobs(sessions), cap, states[|steps|]);
  }

  lemma SomeoneGoes(jobs: seq<Job>, cap: nat, s: State)
    requires cap > 0 && Sensible(jobs) && Inv(jobs, cap, s) && !s.rollup.Ended?
    ensures exists t, step | step != Cancel :: Next(jobs, cap, s, step, t)
  {
    hide Total, Left, Held, Steady, HasContent;
    NoneHeld(s.work);
    if j :| 0 <= j < |jobs| && s.work[j].Running? {
      Goes(jobs, cap, s, j);
    } else if !AllDone(s.work) {
      var j := FirstQueued(s.work);
      assert NeedsMet(jobs, s.work, j);
      if Passed(jobs, s.work, j) {
        assert Next(jobs, cap, s, Skip(j), s.(work := s.work[j := Done(Failure)]));
      } else {
        assert Next(jobs, cap, s, Acquire(j), s.(work := s.work[j := Running(First(jobs[j]), false)], held := s.held + 1));
      }
    } else if s.rollup.Waiting? {
      assert Next(jobs, cap, s, Roll, s.(rollup := if s.cancelled || !AnySummary(jobs, s.work) then Ended else Rolling));
    } else {
      assert Next(jobs, cap, s, RollReturn(Prose), s.(rollup := Ended, calls := s.calls + 1, clean := s.clean && true));
    }
  }

  lemma FirstQueued(work: seq<Work>) returns (j: nat)
    requires !AllDone(work) && forall k | 0 <= k < |work| :: !work[k].Running?
    ensures j < |work| && work[j].Queued? && forall k | 0 <= k < j :: work[k].Done?
  {
    j := 0;
    while j < |work| && work[j].Done?
      invariant j <= |work| && forall k | 0 <= k < j :: work[k].Done?
    {
      j := j + 1;
    }
  }

  // ---- Every run ends -----------------------------------------------------------------

  function EffortOf(j: Job, w: Work): nat {
    match w
    case Queued => 2 * ToCome(j.digest, First(j)) + 3
    case Running(stage, busy) => 2 * ToCome(j.digest, stage) + if busy then 1 else 2
    case Done(_) => 0
  }

  function Effort(jobs: seq<Job>, work: seq<Work>): nat
    requires |work| == |jobs|
  {
    if work == [] then 0
    else Effort(jobs[..|jobs| - 1], work[..|work| - 1]) + EffortOf(jobs[|jobs| - 1], work[|work| - 1])
  }

  function RollEffort(r: Rollup): nat {
    match r case Waiting => 2 case Rolling => 1 case Ended => 0
  }

  lemma {:induction false} UpdateEffort(jobs: seq<Job>, work: seq<Work>, j: nat, w: Work)
    requires |work| == |jobs| && j < |work|
    ensures Effort(jobs, work[j := w]) + EffortOf(jobs[j], work[j]) == Effort(jobs, work) + EffortOf(jobs[j], w)
  {
    hide EffortOf;
    var n := |work| - 1;
    var next := work[j := w];
    if j < n {
      UpdateEffort(jobs[..n], work[..n], j, w);
      assert next[..n] == work[..n][j := w];
    } else {
      assert next[..n] == work[..n];
    }
  }

  /** Every step but an interrupt brings the run closer to its end, so each run ends if each call returns. */
  lemma {:induction false} StepsRunOut(jobs: seq<Job>, cap: nat, s: State, step: Step, t: State)
    requires |s.work| == |jobs| && Next(jobs, cap, s, step, t) && !step.Cancel?
    ensures |t.work| == |jobs|
    ensures Effort(jobs, t.work) + RollEffort(t.rollup) < Effort(jobs, s.work) + RollEffort(s.rollup)
  {
    hide Effort;
    match step
    case Acquire(j) => UpdateEffort(jobs, s.work, j, t.work[j]);
    case Ask(j) => UpdateEffort(jobs, s.work, j, t.work[j]);
    case Return(j, outcome) =>
      AfterCosts(jobs[j].digest, s.work[j].stage, outcome);
      UpdateEffort(jobs, s.work, j, t.work[j]);
    case Release(j) => UpdateEffort(jobs, s.work, j, t.work[j]);
    case Skip(j) => UpdateEffort(jobs, s.work, j, t.work[j]);
    case _ =>
  }

  /** The steps of a run that are not interrupts. */
  function Moves(steps: seq<Step>): nat {
    if steps == [] then 0 else Moves(steps[..|steps| - 1]) + if steps[|steps| - 1].Cancel? then 0 else 1
  }

  lemma {:induction false} AllEffort(jobs: seq<Job>)
    ensures Effort(jobs, Begin(jobs).work) == 2 * Total(jobs) + 3 * |jobs|
  {
    if jobs != [] {
      var n := |jobs| - 1;
      AllEffort(jobs[..n]);
      FirstCosts(jobs[n]);
      assert Begin(jobs).work[..n] == Begin(jobs[..n]).work;
    }
  }

  lemma {:induction false} MovesAreBounded(jobs: seq<Job>, cap: nat, states: seq<State>, steps: seq<Step>)
    requires Run(jobs, cap, states, steps)
    ensures |states[|steps|].work| == |jobs|
    ensures Moves(steps) + Effort(jobs, states[|steps|].work) + RollEffort(states[|steps|].rollup)
            <= Effort(jobs, Begin(jobs).work) + 2
    decreases |steps|
  {
    hide Next, Effort;
    if steps != [] {
      var n := |steps| - 1;
      MovesAreBounded(jobs, cap, states[..n + 1], steps[..n]);
      if steps[n].Cancel? {
        CancelMovesNothing(jobs, cap, states[n], states[n + 1]);
      } else {
        StepsRunOut(jobs, cap, states[n], steps[n], states[n + 1]);
      }
    }
  }

  lemma CancelMovesNothing(jobs: seq<Job>, cap: nat, s: State, t: State)
    requires |s.work| == |jobs| && Next(jobs, cap, s, Cancel, t)
    ensures t.work == s.work && t.rollup == s.rollup
  {}

  /**
   Every run ends: it makes only so many steps, interrupts aside, and one that can make no more
   has reached its end.
   */
  lemma {:induction false} RunsEnd(sessions: seq<Session>, cap: nat, states: seq<State>, steps: seq<Step>)
    requires cap > 0 && Run(Jobs(sessions), cap, states, steps)
    ensures Moves(steps) <= 2 * Total(Jobs(sessions)) + 3 * |Jobs(sessions)| + 2
    ensures |states[|steps|].work| == |Jobs(sessions)|
    ensures !(exists t, step | step != Cancel :: Next(Jobs(sessions), cap, states[|steps|], step, t)) ==>
              states[|steps|].rollup.Ended?
  {
    hide Next, Jobs, Total, Effort, Moves;
    MovesAreBounded(Jobs(sessions), cap, states, steps);
    AllEffort(Jobs(sessions));
    if !states[|steps|].rollup.Ended? {
      NeverStuck(sessions, cap, states, steps);
    }
  }
}
