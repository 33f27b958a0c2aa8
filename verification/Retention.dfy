/** Which consumed files are removed, and when a rule selects one: internal/tail/watcher.go. */
module Retention {
  import opened Codec
  import opened TailModel
  import opened Wrappers

  /**
   The retention rules of one pass.  `aged` says of a file, with what has been written to it,
   that its time stamp is before the configured margin.
   */
  datatype Policy = Policy(
    retainDays: nat, deleteAfter: bool, dayOf: string -> Option<int>, today: int, aged: (nat, nat) -> bool)
  {
    /** No rule is set, so nothing is ever removed. */
    predicate Off() {
      retainDays == 0 && !deleteAfter
    }

    /** The day in the name is before the retained calendar window, which counts today. */
    predicate Expired(name: string) {
      retainDays > 0 && dayOf(name).Some? && dayOf(name).value < today - (retainDays - 1)
    }

    /** The file that the name stands for has an old time stamp. */
    predicate Old(name: string, w: World) {
      name in w.dir && w.dir[name] < |w.files| && aged(w.dir[name], |w.files[w.dir[name]].content|)
    }

    predicate Selects(name: string, w: World) {
      Expired(name) || (deleteAfter && Old(name, w))
    }

    /**
     The names to be removed: consumed to their recorded size, selected by a rule when they were
     looked at, and not the last.  `looked` is the directory at the time of each look.
     */
    ghost function Due(names: seq<string>, states: map<string, FileState>, looked: seq<World>): set<string> {
      DueAmong(names[..Max(|names| - 1, 0)], states, looked)
    }

    ghost function DueAmong(names: seq<string>, states: map<string, FileState>, looked: seq<World>): set<string> {
      set i | 0 <= i < |names| && i < |looked| && Consumed(states, names[i]) && Selects(names[i], looked[i]) :: names[i]
    }
  }

  /** Of a day and those before it, as many are kept as the rule says, that day included. */
  lemma KeptDays(p: Policy, name: string, day: int)
    requires p.dayOf(name) == Some(day) && day <= p.today
    ensures p.retainDays > 0 ==> (!p.Expired(name) <==> 0 <= p.today - day < p.retainDays)
    ensures p.retainDays == 0 ==> !p.Expired(name)
    ensures p.retainDays == 1 ==> (!p.Expired(name) <==> day == p.today)
  {}

  lemma DueGrows(p: Policy, names: seq<string>, i: nat, states: map<string, FileState>, looked: seq<World>, w: World)
    requires i < |names| && |looked| == i
    ensures p.DueAmong(names[..i + 1], states, looked + [w])
         == p.DueAmong(names[..i], states, looked)
            + if Consumed(states, names[i]) && p.Selects(names[i], w) then {names[i]} else {}
  {
    var was, now := p.DueAmong(names[..i], states, looked), p.DueAmong(names[..i + 1], states, looked + [w]);
    forall n | n in was
      ensures n in now
    {
      var k :| 0 <= k < i && names[..i][k] == n && Consumed(states, n) && p.Selects(n, looked[k]);
      assert names[..i + 1][k] == n && (looked + [w])[k] == looked[k];
    }
    forall n | n in now
      ensures n in was || (n == names[i] && Consumed(states, n) && p.Selects(n, w))
    {
      var k :| 0 <= k < i + 1 && names[..i + 1][k] == n && Consumed(states, n) && p.Selects(n, (looked + [w])[k]);
      assert k < i ==> names[..i][k] == n && looked[k] == (looked + [w])[k];
    }
    assert names[..i + 1][i] == names[i] && (looked + [w])[i] == w;
  }

  lemma NothingDueYet(p: Policy, names: seq<string>, states: map<string, FileState>)
    ensures p.Due(names, states, []) == p.DueAmong(names[..0], states, []) == {}
  {}

  /** What is due is consumed, and is not the last name. */
  lemma DueIs(p: Policy, names: seq<string>, states: map<string, FileState>, looked: seq<World>)
    ensures forall n | n in p.Due(names, states, looked) ::
              n in names && n in names[..|names| - 1] && n in states && Consumed(states, n) && !states[n].deleted
  {}

  /** The states of some files, those of `removed` marked as deleted. */
  predicate Marked(was: map<string, FileState>, now: map<string, FileState>, removed: set<string>) {
    now.Keys == was.Keys && forall n | n in now :: now[n] == if n in removed then was[n].(deleted := true) else was[n]
  }

  /** One more name is looked at; one that was removed is not consumed any more, so it is tried only once. */
  lemma OneMoreName(p: Policy, names: seq<string>, i: nat, was: map<string, FileState>, before: map<string, FileState>,
                    now: map<string, FileState>, looked: seq<World>, w: World, removed: set<string>, dropped: bool)
    requires i < |names| && |looked| == i && Marked(was, before, removed) && removed <= p.DueAmong(names[..i], was, looked)
    requires dropped ==> Consumed(before, names[i]) && p.Selects(names[i], w)
    requires now == if dropped then before[names[i] := before[names[i]].(deleted := true)] else before
    ensures var more := removed + if dropped then {names[i]} else {};
            && Marked(was, now, more) && more <= p.DueAmong(names[..i + 1], was, looked + [w])
    ensures p.DueAmong(names[..i + 1], was, looked + [w])
         == p.DueAmong(names[..i], was, looked)
            + if Consumed(before, names[i]) && p.Selects(names[i], w) then {names[i]} else {}
  {
    hide Policy.DueAmong, Policy.Selects;
    DueGrows(p, names, i, was, looked, w);
  }

  // ---- At which point of a run ----------------------------------------------------------------

  ghost predicate WorldIs(steps: seq<Label>, w: World, c: Config) {
    var s := Exec(START, steps, c);
    s.Some? && s.value.world == w
  }

  /** The files and names were like this at some point of a run, no sooner than its step `from`. */
  ghost predicate WasWorld(trace: seq<Label>, from: nat, w: World, c: Config) {
    exists k: nat | from <= k <= |trace| :: WorldIs(trace[..k], w, c)
  }

  lemma {:induction false} WorldNow(trace: seq<Label>, from: nat, s: Sys, c: Config)
    requires from <= |trace| && Exec(START, trace, c) == Some(s)
    ensures WasWorld(trace, from, s.world, c)
  {
    hide Exec;
    assert trace[..|trace|] == trace;
    assert WorldIs(trace[..|trace|], s.world, c);
  }

  lemma {:induction false} WorldsStand(trace: seq<Label>, longer: seq<Label>, from: nat, looked: seq<World>, c: Config)
    requires trace <= longer && forall i | 0 <= i < |looked| :: WasWorld(trace, from, looked[i], c)
    ensures forall i | 0 <= i < |looked| :: WasWorld(longer, from, looked[i], c)
  {
    hide WorldIs;
    forall i | 0 <= i < |looked|
      ensures WasWorld(longer, from, looked[i], c)
    {
      var k: nat :| from <= k <= |trace| && WorldIs(trace[..k], looked[i], c);
      assert longer[..k] == trace[..k];
    }
  }

  lemma {:induction false} WorldsLater(trace: seq<Label>, from: nat, later: nat, looked: seq<World>, c: Config)
    requires from <= later && forall i | 0 <= i < |looked| :: WasWorld(trace, later, looked[i], c)
    ensures forall i | 0 <= i < |looked| :: WasWorld(trace, from, looked[i], c)
  {
    hide WorldIs;
  }
}
