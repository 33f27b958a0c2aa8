/**
 Where reading goes on: internal/tail/watcher.go and checkpoint.go.  A file that is still the
 same is read from where it was left, so nothing of it is read or delivered twice.
 */
module TailResume {
  import opened Codec
  import opened Archive
  import opened TailModel
  import opened TailLaws
  import opened TailFiles
  import opened TailPass
  import opened Wrappers

  /**
   The recorded state belongs to this content: it is no shorter than what was consumed, and its
   head, of 512 bytes or all there is, is the recorded one unless one of the two is empty.
   */
  predicate Recognised(st: FileState, content: Bytes) {
    && st.offset <= |content|
    && (st.fingerprint == [] || content == [] || st.fingerprint == content[..Min(512, |content|)])
  }

  /** A recognised file goes on, any other starts over. */
  lemma ResumesExactlyWhen(st: FileState, content: Bytes)
    ensures Resume(st, content) == if Recognised(st, content) then st.(fingerprint := content[..Min(512, |content|)])
                                   else FileState(0, 0, content[..Min(512, |content|)], false)
  {}

  /**
   If the recorded head is the start of a file that still holds all that was consumed, the file is
   recognised if and only if that head is full, or is all of the file, or is nothing.
   */
  lemma RecognisedExactlyWhen(st: FileState, content: Bytes)
    requires st.fingerprint <= content && |st.fingerprint| <= 512 && st.offset <= |content|
    ensures Recognised(st, content) <==> |st.fingerprint| in {0, 512} || |st.fingerprint| == |content|
  {
    assert st.fingerprint == content[..|st.fingerprint|];
    if |content| <= 512 {
      assert content[..Min(512, |content|)] == content;
    }
  }

  /** A file that was short when it was opened and has grown since is taken for another, however far it was read. */
  lemma ShortHeadStartsOver(st: FileState, was: Bytes, more: Bytes, offset: nat)
    requires 0 < |was| < 512 && more != []
    ensures var read := Resume(st, was).(offset := offset);
            !Recognised(read, was + more) && Resume(read, was + more).offset == 0
  {
    ResumesExactlyWhen(st, was);
    ResumesExactlyWhen(Resume(st, was).(offset := offset), was + more);
    assert |(was + more)[..Min(512, |was + more|)]| > |was|;
  }

  /** The pass began where the recorded state left off, if the file as it was found is recognised. */
  ghost predicate Began(w: World, p: Pass, st: FileState) {
    p.ino < |w.files| && p.size <= |w.files[p.ino].content|
    && p.from == if Recognised(st, w.files[p.ino].content[..p.size]) then st.offset else 0
  }

  lemma BeganStands(w: World, v: World, p: Pass, st: FileState)
    requires Began(w, p, st) && Grows(w, v)
    ensures Began(v, p, st)
  {
    FileGrows(w, v, p.ino);
    assert v.files[p.ino].content[..p.size] == w.files[p.ino].content[..p.size];
  }

  lemma {:induction false} AllBeganStand(w: World, v: World, passes: map<string, Pass>, files: map<string, FileState>)
    requires Grows(w, v) && forall n | n in passes :: Began(w, passes[n], StateOf(files, n))
    ensures forall n | n in passes :: Began(v, passes[n], StateOf(files, n))
  {
    hide Began, Grows, StateOf;
    forall n | n in passes
      ensures Began(v, passes[n], StateOf(files, n))
    {
      BeganStands(w, v, passes[n], StateOf(files, n));
    }
  }

  // ---- From one pass to the next ----------------------------------------------------------------

  predicate Reads(m: Memory, name: string) {
    m.reading.Some? && m.reading.value.name == name
  }

  /** Nobody dies, and nobody takes the name away or gives it to another file. */
  predicate Leaves(l: Label, name: string) {
    !l.Crash? && !l.Restart? && !Touches(l, name)
  }

  ghost predicate LeavesAll(trace: seq<Label>, a: nat, b: nat, name: string)
    requires a <= b <= |trace|
  {
    forall k | a <= k < b :: Leaves(trace[k], name)
  }

  /** What a process knows of a name, and the file it stands for. */
  ghost predicate Knows(s: Sys, name: string, i: nat, st: FileState) {
    && s.mem.Some? && !Reads(s.mem.value, name)
    && name in s.mem.value.files && s.mem.value.files[name] == st && !st.deleted
    && name in s.world.dir && s.world.dir[name] == i && i < |s.world.files|
  }

  lemma KnowsStep(s: Sys, l: Label, t: Sys, name: string, i: nat, st: FileState, c: Config)
    requires Next(s, l, c) == Some(t) && Knows(s, name, i, st) && Leaves(l, name) && l != Begin(name)
    ensures Knows(t, name, i, st) && s.world.files[i].content <= t.world.files[i].content
  {
    hide DecodeAll, Resume, DistinctHeads;
  }

  /** Until it is opened again, nothing changes what is known of it. */
  lemma {:induction false} KnowsOn(trace: seq<Label>, a: nat, b: nat, name: string, i: nat, st: FileState, c: Config)
    requires a <= b <= |trace| && LeavesAll(trace, a, b, name) && forall k | a <= k < b :: trace[k] != Begin(name)
    requires Exec(START, trace[..a], c).Some? && Knows(Exec(START, trace[..a], c).value, name, i, st)
    requires Exec(START, trace[..b], c).Some?
    ensures var s, t := Exec(START, trace[..a], c).value, Exec(START, trace[..b], c).value;
            Knows(t, name, i, st) && s.world.files[i].content <= t.world.files[i].content
    decreases b
  {
    hide Next, Exec;
    if a < b {
      StepOf(trace, b - 1, c);
      KnowsOn(trace, a, b - 1, name, i, st, c);
      var s, t := Exec(START, trace[..b - 1], c).value, Exec(START, trace[..b], c).value;
      KnowsStep(s, trace[b - 1], t, name, i, st, c);
    }
  }

  /** How a file is opened: nothing to do, or at which byte reading starts. */
  ghost predicate OpensAt(t: Sys, u: Sys, name: string, i: nat, from: nat) {
    && t.mem.Some? && u.mem.Some? && i < |t.world.files|
    && u.log == t.log && u.mem.value.reducer == t.mem.value.reducer
    && if from == |t.world.files[i].content| then u.mem.value.reading == t.mem.value.reading
       else && u.mem.value.reading.Some?
            && var r := u.mem.value.reading.value;
               r.name == name && r.ino == i && r.st.offset == r.pos == from && r.buf == []
  }

  /** A file that was reclaimed is not opened again. */
  lemma DeletedIsLeft(s: Sys, t: Sys, name: string, c: Config)
    requires Next(s, Begin(name), c) == Some(t) && s.mem.Some? && StateOf(s.mem.value.files, name).deleted
    ensures t == s
  {}

  lemma OpensRecognised(t: Sys, u: Sys, name: string, i: nat, st: FileState, c: Config)
    requires Next(t, Begin(name), c) == Some(u) && Knows(t, name, i, st)
    ensures var content := t.world.files[i].content;
            OpensAt(t, u, name, i, if Recognised(st, content) then st.offset else 0)
  {
    ResumesExactlyWhen(st, t.world.files[i].content);
  }

  /**
   Between two openings by one process, with the name left alone: the second starts exactly where
   the first ended, if the file is recognised, and otherwise at its beginning.  With nothing
   appended to a consumed file nothing is read.
   */
  lemma {:induction false} GoesOnWhereItEnded(trace: seq<Label>, a: nat, b: nat, name: string, i: nat, st: FileState, c: Config)
    requires a <= b < |trace| && LeavesAll(trace, a, b, name) && forall k | a <= k < b :: trace[k] != Begin(name)
    requires trace[b] == Begin(name) && Exec(START, trace, c).Some?
    requires Exec(START, trace[..a], c).Some? && Knows(Exec(START, trace[..a], c).value, name, i, st)
    ensures Exec(START, trace[..b], c).Some? && Exec(START, trace[..b + 1], c).Some?
    ensures var t, u := Exec(START, trace[..b], c).value, Exec(START, trace[..b + 1], c).value;
            && i < |t.world.files|
            && OpensAt(t, u, name, i, if Recognised(st, t.world.files[i].content) then st.offset else 0)
  {
    hide Next, Exec;
    PrefixRuns(trace, b, c);
    PrefixRuns(trace, b + 1, c);
    StepOf(trace, b, c);
    KnowsOn(trace, a, b, name, i, st, c);
    OpensRecognised(Exec(START, trace[..b], c).value, Exec(START, trace[..b + 1], c).value, name, i, st, c);
  }

  /** A process starts with what the last checkpoint says. */
  lemma RestartRemembers(s: Sys, t: Sys, c: Config)
    requires Next(s, Restart, c) == Some(t)
    ensures t.mem.Some? && t.mem.value.reading.None? && t.world == s.world && t.disk == s.disk && t.log == s.log
    ensures s.disk.Some? ==>
              && t.mem.value.files == s.disk.value.content.files
              && t.mem.value.reducer == Restored(s.disk.value.content.reducer)
    ensures s.disk.None? ==> t.mem.value.files == map[] && t.mem.value.reducer == Restored(Fresh)
  {}

  /** The tombstone of a reclaimed file lasts through the third day after the one in its name. */
  lemma TombstoneLasts(files: map<string, FileState>, name: string, today: int, c: Config)
    ensures var left := PruneTombstones(files, today, c);
            && (name in left <==> name in files && (!files[name].deleted || c.dayOf(name).None? || today <= c.dayOf(name).value + 3))
            && (name in left ==> left[name] == files[name])
  {}

  /** So after a crash, too, reading goes on where the checkpoint says. */
  lemma {:induction false} RestartGoesOn(trace: seq<Label>, a: nat, b: nat, name: string, i: nat, st: FileState, c: Config)
    requires a < b < |trace| && trace[a] == Restart && trace[b] == Begin(name) && Exec(START, trace, c).Some?
    requires LeavesAll(trace, a + 1, b, name) && forall k | a < k < b :: trace[k] != Begin(name)
    requires Exec(START, trace[..a], c).Some?
    requires var s := Exec(START, trace[..a], c).value;
             && s.disk.Some? && name in s.disk.value.content.files && s.disk.value.content.files[name] == st && !st.deleted
             && name in s.world.dir && s.world.dir[name] == i && i < |s.world.files|
    ensures Exec(START, trace[..b], c).Some? && Exec(START, trace[..b + 1], c).Some?
    ensures var t, u := Exec(START, trace[..b], c).value, Exec(START, trace[..b + 1], c).value;
            && i < |t.world.files|
            && OpensAt(t, u, name, i, if Recognised(st, t.world.files[i].content) then st.offset else 0)
  {
    hide Next, Exec;
    PrefixRuns(trace, a + 1, c);
    StepOf(trace, a, c);
    RestartRemembers(Exec(START, trace[..a], c).value, Exec(START, trace[..a + 1], c).value, c);
    GoesOnWhereItEnded(trace, a + 1, b, name, i, st, c);
  }

  // ---- Nothing twice ----------------------------------------------------------------------------

  /** How far a name has been delivered. */
  function OffsetOf(m: Memory, name: string): nat {
    if Reads(m, name) then m.reading.value.st.offset else StateOf(m.files, name).offset
  }

  /** The name stands for a file with a full head, and what is recorded of it carries that head or none. */
  ghost predicate Headed(s: Sys, name: string, i: nat) {
    && s.mem.Some? && name in s.world.dir && s.world.dir[name] == i && i < |s.world.files|
    && var content, st := s.world.files[i].content, StateOf(s.mem.value.files, name);
       && |content| >= 512 && st.offset <= |content| && !st.deleted
       && (st.fingerprint == content[..512] || (st.fingerprint == [] && st.offset == 0))
       && (Reads(s.mem.value, name) ==>
             var r := s.mem.value.reading.value;
             r.ino == i && r.st.fingerprint == content[..512] && r.st.offset == st.offset && !r.st.deleted)
  }

  lemma ReadingOthers(s: Sys, l: Label, t: Sys, name: string, i: nat, c: Config)
    requires Next(s, l, c) == Some(t) && Headed(s, name, i) && Leaves(l, name)
    requires !Reads(s.mem.value, name) && l != Begin(name)
    ensures Headed(t, name, i) && OffsetOf(t.mem.value, name) == OffsetOf(s.mem.value, name)
    ensures !Reads(t.mem.value, name)
  {
    hide DecodeAll, Resume, DistinctHeads;
    KeepsHead(s, l, t, i, c);
  }

  /** A full head stays what it is. */
  lemma KeepsHead(s: Sys, l: Label, t: Sys, i: nat, c: Config)
    requires Next(s, l, c) == Some(t) && i < |s.world.files| && |s.world.files[i].content| >= 512
    ensures i < |t.world.files| && |t.world.files[i].content| >= |s.world.files[i].content|
    ensures t.world.files[i].content[..512] == s.world.files[i].content[..512]
  {
    hide DecodeAll, Resume, DistinctHeads;
  }

  lemma OpeningIt(s: Sys, t: Sys, name: string, i: nat, c: Config)
    requires Next(s, Begin(name), c) == Some(t) && Headed(s, name, i)
    ensures Headed(t, name, i) && OffsetOf(t.mem.value, name) == OffsetOf(s.mem.value, name)
  {
    ResumesExactlyWhen(StateOf(s.mem.value.files, name), s.world.files[i].content);
    hide Resume;
  }

  /** The step hands a batch of the name's file to the sink, and the sink takes it. */
  ghost predicate Delivers(s: Sys, l: Label, t: Sys, name: string, i: nat, from: nat, to: nat) {
    && s.mem.Some? && t.mem.Some? && Reads(s.mem.value, name) && Reads(t.mem.value, name) && i < |s.world.files|
    && from < to <= |s.world.files[i].content|
    && t.log == s.log + {Delivery(s.world.files[i].content[..to], from)}
    && t.mem.value.reducer == Fed(s.mem.value.reducer, Delivery(s.world.files[i].content[..to], from))
  }

  lemma {:induction false} ReadingIt(s: Sys, l: Label, t: Sys, name: string, i: nat, c: Config)
    requires Next(s, l, c) == Some(t) && Headed(s, name, i) && Leaves(l, name) && Reads(s.mem.value, name)
    ensures Headed(t, name, i)
    ensures OffsetOf(s.mem.value, name) <= OffsetOf(t.mem.value, name)
    ensures OffsetOf(s.mem.value, name) < OffsetOf(t.mem.value, name) ==>
              Delivers(s, l, t, name, i, OffsetOf(s.mem.value, name), OffsetOf(t.mem.value, name))
  {
    hide DecodeAll, Resume, DistinctHeads;
    KeepsHead(s, l, t, i, c);
  }

  lemma {:induction false} FedIsMore(r: Reducer, d: Delivery)
    ensures r != Fed(r, d)
  {
    if r.Fed? {
      FedIsMore(r.before, r.batch);
    }
  }

  /** What is handed over is what lies between the offsets. */
  lemma {:induction false} DeliveredBetween(s: Sys, l: Label, t: Sys, name: string, i: nat, from: nat, to: nat, c: Config)
    requires Next(s, l, c) == Some(t) && Headed(s, name, i) && Leaves(l, name) && Delivers(s, l, t, name, i, from, to)
    ensures from == OffsetOf(s.mem.value, name) && to == OffsetOf(t.mem.value, name)
  {
    hide DecodeAll, Resume, DistinctHeads;
    var content := s.world.files[i].content;
    FedIsMore(s.mem.value.reducer, Delivery(content[..to], from));
    assert l.Chunk?;
    assert |content[..to]| == to;
  }

  lemma {:induction false} HeadedStep(s: Sys, l: Label, t: Sys, name: string, i: nat, c: Config)
    requires Next(s, l, c) == Some(t) && Headed(s, name, i) && Leaves(l, name)
    ensures Headed(t, name, i) && OffsetOf(s.mem.value, name) <= OffsetOf(t.mem.value, name)
  {
    hide Next, Headed;
    assert s.mem.Some? by {
      HeadedIsUp(s, name, i);
    }
    if Reads(s.mem.value, name) {
      ReadingIt(s, l, t, name, i, c);
    } else if l == Begin(name) {
      OpeningIt(s, t, name, i, c);
    } else {
      ReadingOthers(s, l, t, name, i, c);
    }
  }

  lemma HeadedIsUp(s: Sys, name: string, i: nat)
    requires Headed(s, name, i)
    ensures s.mem.Some?
  {}

  /** While the name is left alone and the process lives, its offset never goes back. */
  lemma {:induction false} NeverGoesBack(trace: seq<Label>, a: nat, b: nat, name: string, i: nat, c: Config)
    requires a <= b <= |trace| && LeavesAll(trace, a, b, name)
    requires Exec(START, trace[..a], c).Some? && Headed(Exec(START, trace[..a], c).value, name, i)
    requires Exec(START, trace[..b], c).Some?
    ensures var s, t := Exec(START, trace[..a], c).value, Exec(START, trace[..b], c).value;
            && Headed(t, name, i) && s.mem.Some? && t.mem.Some?
            && OffsetOf(s.mem.value, name) <= OffsetOf(t.mem.value, name)
    decreases b
  {
    hide Next, Exec, Headed;
    HeadedIsUp(Exec(START, trace[..a], c).value, name, i);
    if a < b {
      StepOf(trace, b - 1, c);
      NeverGoesBack(trace, a, b - 1, name, i, c);
      HeadedStep(Exec(START, trace[..b - 1], c).value, trace[b - 1], Exec(START, trace[..b], c).value, name, i, c);
    }
    HeadedIsUp(Exec(START, trace[..b], c).value, name, i);
  }

  /** Step `k` of a run hands over bytes `from..to` of the file. */
  ghost predicate DeliversAt(trace: seq<Label>, k: nat, name: string, i: nat, from: nat, to: nat, c: Config) {
    && k < |trace|
    && var s, t := Exec(START, trace[..k], c), Exec(START, trace[..k + 1], c);
       s.Some? && t.Some? && Delivers(s.value, trace[k], t.value, name, i, from, to)
  }

  /**
   While a process lives and a name with a full head is left alone, no byte of the file is
   delivered twice: each batch begins no sooner than those before it ended, whatever was
   appended, refused or cut short in between.
   */
  lemma {:induction false} NothingTwice(trace: seq<Label>, a: nat, x: nat, y: nat, b: nat, name: string, i: nat,
                                        from: nat, to: nat, later: nat, end: nat, c: Config)
    requires a <= x < y < b <= |trace| && LeavesAll(trace, a, b, name) && Exec(START, trace[..b], c).Some?
    requires Exec(START, trace[..a], c).Some? && Headed(Exec(START, trace[..a], c).value, name, i)
    requires DeliversAt(trace, x, name, i, from, to, c) && DeliversAt(trace, y, name, i, later, end, c)
    ensures to <= later
  {
    hide Next, Exec, Headed;
    ReachesStep(trace, a, x, b, name, i, c);
    ReachesStep(trace, a, y, b, name, i, c);
    DeliveredRange(trace, x, name, i, from, to, c);
    DeliveredRange(trace, y, name, i, later, end, c);
    NeverGoesBack(trace, x + 1, y, name, i, c);
  }

  lemma {:induction false} ReachesStep(trace: seq<Label>, a: nat, k: nat, b: nat, name: string, i: nat, c: Config)
    requires a <= k < b <= |trace| && LeavesAll(trace, a, b, name) && Exec(START, trace[..b], c).Some?
    requires Exec(START, trace[..a], c).Some? && Headed(Exec(START, trace[..a], c).value, name, i)
    ensures Exec(START, trace[..k], c).Some? && Headed(Exec(START, trace[..k], c).value, name, i)
    ensures Exec(START, trace[..k + 1], c).Some? && Headed(Exec(START, trace[..k + 1], c).value, name, i)
    ensures Leaves(trace[k], name)
  {
    hide Exec, Headed;
    PrefixRuns(trace[..b], k, c);
    PrefixRuns(trace[..b], k + 1, c);
    assert trace[..b][..k] == trace[..k] && trace[..b][..k + 1] == trace[..k + 1];
    NeverGoesBack(trace, a, k, name, i, c);
    NeverGoesBack(trace, a, k + 1, name, i, c);
  }

  lemma {:induction false} DeliveredRange(trace: seq<Label>, k: nat, name: string, i: nat, from: nat, to: nat, c: Config)
    requires DeliversAt(trace, k, name, i, from, to, c) && Leaves(trace[k], name)
    requires Headed(Exec(START, trace[..k], c).value, name, i)
    ensures var s, t := Exec(START, trace[..k], c).value, Exec(START, trace[..k + 1], c).value;
            from == OffsetOf(s.mem.value, name) && to == OffsetOf(t.mem.value, name)
  {
    hide Next, Exec, Headed;
    StepOf(trace, k, c);
    DeliveredBetween(Exec(START, trace[..k], c).value, trace[k], Exec(START, trace[..k + 1], c).value, name, i, from, to, c);
  }
}
