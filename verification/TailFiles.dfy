/**
 Which file a name stands for: internal/tail/watcher.go.  Files are read and removed by name,
 and a name can be given to another file in between.
 */
module TailFiles {
  import opened Codec
  import opened Archive
  import opened TailModel
  import opened TailLaws
  import opened TailReads
  import opened Retention
  import opened Order
  import opened Writer
  import opened Wrappers

  /** After the first `k` steps of a run the name stands for file `i`. */
  ghost predicate StandsFor(trace: seq<Label>, k: nat, name: string, i: nat, c: Config) {
    k <= |trace|
    && var s := Exec(START, trace[..k], c);
       s.Some? && name in s.value.world.dir && s.value.world.dir[name] == i
  }

  /** Takes the name away from a file, or gives it to one. */
  predicate Touches(l: Label, name: string) {
    (l.Create? && l.name == name) || (l.MoveAway? && l.name == name) || (l.Reclaim? && l.path == name)
  }

  predicate Untouched(labels: seq<Label>, name: string) {
    forall i | 0 <= i < |labels| :: !Touches(labels[i], name)
  }

  /** Nobody makes a file of that name. */
  predicate NotCreated(labels: seq<Label>, name: string) {
    forall i | 0 <= i < |labels| :: !(labels[i].Create? && labels[i].name == name)
  }

  lemma OneLabelMore(trace: seq<Label>, a: nat, b: nat, name: string)
    requires a < b <= |trace|
    ensures Untouched(trace[a..b], name) <==> Untouched(trace[a..b - 1], name) && !Touches(trace[b - 1], name)
    ensures NotCreated(trace[a..b], name) <==>
              NotCreated(trace[a..b - 1], name) && !(trace[b - 1].Create? && trace[b - 1].name == name)
  {
    hide Touches;
    var long, short := trace[a..b], trace[a..b - 1];
    assert long[|short|] == trace[b - 1];
    assert forall i | 0 <= i < |short| :: long[i] == short[i];
  }

  lemma DirStep(s: Sys, l: Label, t: Sys, name: string, c: Config)
    requires Next(s, l, c) == Some(t)
    ensures |s.world.files| <= |t.world.files|
    ensures if l.Create? && l.name == name then
              name !in s.world.dir && name in t.world.dir && t.world.dir[name] == |s.world.files|
            else if Touches(l, name) then name !in t.world.dir
            else (name in t.world.dir <==> name in s.world.dir)
                 && (name in s.world.dir ==> t.world.dir[name] == s.world.dir[name])
  {
    hide DecodeAll, Resume, PruneTombstones, DistinctHeads;
  }

  lemma {:induction false} PrefixRuns(trace: seq<Label>, k: nat, c: Config)
    requires k <= |trace| && Exec(START, trace, c).Some?
    ensures Exec(START, trace[..k], c).Some?
    decreases |trace|
  {
    hide Next;
    if k < |trace| {
      PrefixRuns(trace[..|trace| - 1], k, c);
      assert trace[..|trace| - 1][..k] == trace[..k];
    } else {
      assert trace[..k] == trace;
    }
  }

  lemma {:induction false} StepOf(trace: seq<Label>, k: nat, c: Config)
    requires k < |trace| && Exec(START, trace[..k + 1], c).Some?
    ensures Exec(START, trace[..k], c).Some?
    ensures Next(Exec(START, trace[..k], c).value, trace[k], c) == Exec(START, trace[..k + 1], c)
  {
    hide Next;
    assert trace[..k + 1][..k] == trace[..k];
  }

  /** What has become of a name that stood for file `i`. */
  lemma {:induction false} Fate(trace: seq<Label>, a: nat, b: nat, name: string, i: nat, c: Config)
    requires a <= b <= |trace| && StandsFor(trace, a, name, i, c) && Exec(START, trace[..b], c).Some?
    ensures var s := Exec(START, trace[..b], c).value;
            && |Exec(START, trace[..a], c).value.world.files| <= |s.world.files|
            && (Untouched(trace[a..b], name) ==> StandsFor(trace, b, name, i, c))
            && (!Untouched(trace[a..b], name) && name in s.world.dir ==>
                  s.world.dir[name] >= |Exec(START, trace[..a], c).value.world.files|)
            && (NotCreated(trace[a..b], name) && name in s.world.dir ==> s.world.dir[name] == i)
    decreases b
  {
    hide Next, Exec;
    if a < b {
      OneLabelMore(trace, a, b, name);
      hide Untouched, NotCreated;
      StepOf(trace, b - 1, c);
      Fate(trace, a, b - 1, name, i, c);
      var s, t := Exec(START, trace[..b - 1], c).value, Exec(START, trace[..b], c).value;
      DirStep(s, trace[b - 1], t, name, c);
    }
  }

  /** A name nobody creates stays away. */
  lemma {:induction false} StaysAway(trace: seq<Label>, a: nat, b: nat, name: string, c: Config)
    requires a <= b <= |trace| && Exec(START, trace[..a], c).Some? && Exec(START, trace[..b], c).Some?
    requires name !in Exec(START, trace[..a], c).value.world.dir && NotCreated(trace[a..b], name)
    ensures name !in Exec(START, trace[..b], c).value.world.dir
    decreases b
  {
    hide Next, Exec;
    if a < b {
      OneLabelMore(trace, a, b, name);
      hide NotCreated;
      StepOf(trace, b - 1, c);
      StaysAway(trace, a, b - 1, name, c);
      DirStep(Exec(START, trace[..b - 1], c).value, trace[b - 1], Exec(START, trace[..b], c).value, name, c);
    }
  }

  lemma {:induction false} FilesGrow(trace: seq<Label>, a: nat, b: nat, c: Config)
    requires a <= b <= |trace| && Exec(START, trace[..a], c).Some? && Exec(START, trace[..b], c).Some?
    ensures |Exec(START, trace[..a], c).value.world.files| <= |Exec(START, trace[..b], c).value.world.files|
    decreases b
  {
    hide Next, Exec;
    if a < b {
      StepOf(trace, b - 1, c);
      FilesGrow(trace, a, b - 1, c);
      DirStep(Exec(START, trace[..b - 1], c).value, trace[b - 1], Exec(START, trace[..b], c).value, "", c);
    }
  }

  /** A name that was away stands for a file made since, if for any. */
  lemma {:induction false} BackIsNew(trace: seq<Label>, a: nat, b: nat, name: string, c: Config)
    requires a <= b <= |trace| && Exec(START, trace[..a], c).Some? && Exec(START, trace[..b], c).Some?
    requires name !in Exec(START, trace[..a], c).value.world.dir
    ensures var s := Exec(START, trace[..b], c).value;
            name in s.world.dir ==> s.world.dir[name] >= |Exec(START, trace[..a], c).value.world.files|
    decreases b
  {
    hide Next, Exec;
    if a < b {
      StepOf(trace, b - 1, c);
      BackIsNew(trace, a, b - 1, name, c);
      FilesGrow(trace, a, b - 1, c);
      DirStep(Exec(START, trace[..b - 1], c).value, trace[b - 1], Exec(START, trace[..b], c).value, name, c);
    }
  }

  /** The file was made no sooner than step `from`. */
  ghost predicate MadeSince(trace: seq<Label>, from: nat, i: nat, c: Config) {
    from <= |trace|
    && var s := Exec(START, trace[..from], c);
       s.Some? && i >= |s.value.world.files|
  }

  /**
   At two points of any run a name stands for the same file if and only if nobody moved away,
   reclaimed or created a file of that name in between.
   */
  lemma SameFileExactlyWhen(trace: seq<Label>, a: nat, b: nat, name: string, i: nat, j: nat, c: Config)
    requires a <= b <= |trace| && StandsFor(trace, a, name, i, c) && StandsFor(trace, b, name, j, c)
    ensures i == j <==> Untouched(trace[a..b], name)
    ensures NotCreated(trace[a..b], name) ==> i == j
  {
    hide Next, Exec, Untouched, NotCreated, Invariant;
    Fate(trace, a, b, name, i, c);
    var s := Exec(START, trace[..a], c).value;
    assert Reachable(s, c);
    ReachableOk(s, c);
    DirSound(s, c);
  }

  // ---- Two runs -------------------------------------------------------------------------

  /** One more step of a run. */
  lemma {:induction false} Extend(trace: seq<Label>, l: Label, before: Sys, c: Config)
    requires Exec(START, trace, c) == Some(before)
    ensures Exec(START, trace + [l], c) == Next(before, l, c)
  {
    hide Next;
    assert (trace + [l])[..|trace|] == trace;
  }

  function JustMade(name: string, content: Bytes): World {
    World([File(name, content)], map[name := 0])
  }

  function Opened(content: Bytes): FileState {
    NEW_FILE.(fingerprint := Fingerprint(content))
  }

  /** A file is made, a process starts and opens it. */
  lemma OpenedFile(content: Bytes, c: Config) returns (s: Sys)
    requires content != []
    ensures Exec(START, [Create("a", content), Restart, Begin("a")], c) == Some(s)
    ensures s == Sys(JustMade("a", content), None,
                     Some(Memory(map[], Fresh, Restored(Fresh), None,
                                 Some(Reading("a", 0, Opened(content), |content|, [], 0)))), {})
  {
    hide DecodeAll;
    var made := START.(world := JustMade("a", content));
    var up := made.(mem := Some(Loaded(None)));
    assert START.world.files + [File("a", content)] == made.world.files;
    assert Next(START, Create("a", content), c) == Some(made);
    assert Next(made, Restart, c) == Some(up);
    s := Next(up, Begin("a"), c).value;
    hide Next, Exec;
    var one := [] + [Create("a", content)];
    ExecNothing(c);
    Extend([], Create("a", content), START, c);
    Extend(one, Restart, made, c);
    Extend(one + [Restart], Begin("a"), up, c);
    assert one + [Restart] + [Begin("a")] == [Create("a", content), Restart, Begin("a")];
  }

  lemma {:induction false} ExecNothing(c: Config)
    ensures Exec(START, [], c) == Some(START)
  {}

  /** Two names of which the newer has no content yet. */
  function OldAndNew(m: Bytes): World {
    World([File("a", m), File("b", [])], map["a" := 0, "b" := 1])
  }

  /** Both are made, a process starts and opens the older. */
  lemma {:induction false} TwoMade(m: Bytes, c: Config) returns (s: Sys)
    requires m != []
    ensures Exec(START, [Create("a", m), Create("b", []), Restart, Begin("a")], c) == Some(s)
    ensures s == Sys(OldAndNew(m), None,
                     Some(Memory(map[], Fresh, Restored(Fresh), None, Some(Reading("a", 0, Opened(m), |m|, [], 0)))), {})
  {
    hide DecodeAll;
    var one := START.(world := JustMade("a", m));
    var two := START.(world := OldAndNew(m));
    var up := two.(mem := Some(Loaded(None)));
    assert START.world.files + [File("a", m)] == one.world.files;
    assert one.world.files + [File("b", [])] == two.world.files;
    assert Next(START, Create("a", m), c) == Some(one) && Next(one, Create("b", []), c) == Some(two);
    assert Next(two, Restart, c) == Some(up);
    s := Next(up, Begin("a"), c).value;
    hide Next, Exec;
    ExecNothing(c);
    Extend([], Create("a", m), START, c);
    assert [] + [Create("a", m)] == [Create("a", m)];
    Extend([Create("a", m)], Create("b", []), one, c);
    assert [Create("a", m)] + [Create("b", [])] == [Create("a", m), Create("b", [])];
    Extend([Create("a", m), Create("b", [])], Restart, two, c);
    assert [Create("a", m), Create("b", [])] + [Restart] == [Create("a", m), Create("b", []), Restart];
    Extend([Create("a", m), Create("b", []), Restart], Begin("a"), up, c);
    assert [Create("a", m), Create("b", []), Restart] + [Begin("a")]
        == [Create("a", m), Create("b", []), Restart, Begin("a")];
  }

  /** Two files are made, a process starts, and its first pass reads both. */
  function PassOver(m: Bytes): seq<Label> {
    [Create("a", m), Create("b", []), Restart, Begin("a"), Chunk(|m|, 0, true), Finish, Begin("b")]
  }

  /** The older is read whole and closed; of the newer there is nothing to read. */
  lemma {:induction false} BothRead(m: Bytes, c: Config) returns (s: Sys)
    requires m != [] && Whole(m, c.maxMember)
    ensures Exec(START, PassOver(m), c) == Some(s)
    ensures s.world == OldAndNew(m) && s.disk.None? && s.log == {Delivery(m, 0)}
    ensures s.mem.Some? && s.mem.value.reading.None?
    ensures s.mem.value.files == map["a" := Opened(m).(offset := |m|, size := |m|), "b" := NEW_FILE]
  {
    hide DecodeAll;
    var before := TwoMade(m, c);
    var r := before.mem.value.reading.value;
    assert r.buf + m[0..|m|] == m && m[..|m|] == m;
    var read := ReadChunk(before, before.mem.value, r, |m|, 0, true, c);
    assert Next(before, Chunk(|m|, 0, true), c) == read;
    var closed := Next(read.value, Finish, c);
    assert closed.value.mem.value.files == map["a" := Opened(m).(offset := |m|, size := |m|)];
    s := Next(closed.value, Begin("b"), c).value;
    hide Next, Exec, ReadChunk;
    var four := [Create("a", m), Create("b", []), Restart, Begin("a")];
    Extend(four, Chunk(|m|, 0, true), before, c);
    Extend(four + [Chunk(|m|, 0, true)], Finish, read.value, c);
    Extend(four + [Chunk(|m|, 0, true)] + [Finish], Begin("b"), closed.value, c);
    assert four + [Chunk(|m|, 0, true)] + [Finish] + [Begin("b")] == PassOver(m);
  }

  /** After both were read the older name is given to another file. */
  lemma {:induction false} Recreated(m: Bytes, other: Bytes, c: Config) returns (s: Sys)
    requires m != [] && Whole(m, c.maxMember)
    requires |m| < FINGERPRINT_BYTES || |other| < FINGERPRINT_BYTES || Fingerprint(m) != Fingerprint(other)
    ensures Exec(START, PassOver(m) + [MoveAway("a"), Create("a", other)], c) == Some(s)
    ensures s.world == World([File("a", m), File("b", []), File("a", other)], map["a" := 2, "b" := 1])
    ensures s.log == {Delivery(m, 0)} && s.mem.Some? && s.mem.value.reading.None?
    ensures s.mem.value.files == map["a" := Opened(m).(offset := |m|, size := |m|), "b" := NEW_FILE]
  {
    hide DecodeAll, Fingerprint;
    var read := BothRead(m, c);
    var moved := read.(world := World(read.world.files, map["b" := 1]));
    s := read.(world := World([File("a", m), File("b", []), File("a", other)], map["a" := 2, "b" := 1]));
    assert read.world.dir - {"a"} == moved.world.dir;
    assert Next(read, MoveAway("a"), c) == Some(moved);
    assert moved.world.files + [File("a", other)] == s.world.files;
    assert moved.world.dir["a" := 2] == s.world.dir;
    assert Next(moved, Create("a", other), c) == Some(s);
    hide Next, Exec;
    Extend(PassOver(m), MoveAway("a"), read, c);
    Extend(PassOver(m) + [MoveAway("a")], Create("a", other), moved, c);
    assert PassOver(m) + [MoveAway("a")] + [Create("a", other)] == PassOver(m) + [MoveAway("a"), Create("a", other)];
  }

  lemma OlderIsDue(p: Policy, states: map<string, FileState>, w: World)
    ensures "a" in p.Due(["a", "b"], states, [w]) <==> Consumed(states, "a") && p.Selects("a", w)
  {
    hide Consumed, Policy.Selects;
    assert ["a", "b"][..1] == ["a"];
    assert Consumed(states, ["a"][0]) && p.Selects(["a"][0], [w][0]) <==> Consumed(states, "a") && p.Selects("a", w);
  }

  /**
   A name that is given to another file after its own was read: the other file is due if and
   only if the day in the name has expired or the other file looks old, and then it is removed,
   whatever is in it, though nothing of it was ever opened.
   */
  lemma {:induction false} RecreatedFileIsRemovedUnread(m: Bytes, other: Bytes, p: Policy, c: Config) returns (s: Sys, t: Sys)
    requires m != [] && Whole(m, c.maxMember)
    requires |m| < FINGERPRINT_BYTES || |other| < FINGERPRINT_BYTES || Fingerprint(m) != Fingerprint(other)
    ensures Exec(START, PassOver(m) + [MoveAway("a"), Create("a", other)], c) == Some(s)
    ensures s.world.dir == map["a" := 2, "b" := 1] && |s.world.files| == 3 && s.world.files[2] == File("a", other)
    ensures s.mem.Some? && Less("a", "b")
    ensures "a" in p.Due(["a", "b"], s.mem.value.files, [s.world])
       <==> p.Expired("a") || (p.deleteAfter && p.aged(2, |other|))
    ensures Next(s, Reclaim("a"), c) == Some(t) && "a" !in t.world.dir && t.log == {Delivery(m, 0)}
  {
    hide DecodeAll, Fingerprint;
    s := Recreated(m, other, c);
    t := Next(s, Reclaim("a"), c).value;
    OlderIsDue(p, s.mem.value.files, s.world);
  }

  /**
   Sound members with ten bytes of junk after them, read in one go: none is delivered, neither
   by this pass nor by the next, although all of them decode.
   */
  lemma SoundMembersAreHeldBack(batches: seq<Batch>, c: Config) returns (s: Sys, t: Sys)
    requires batches != [] && Writable(batches, c.maxMember)
    ensures var file := Writer.File(batches, c.maxMember);
            var content := file + JUNK;
            var pass := [Begin("a"), Chunk(|content|, 1, true)];
            && SoundEnd(content, 0, c.maxMember) == |file| > 0
            && Exec(START, [Create("a", content), Restart] + pass, c) == Some(s)
            && Exec(START, [Create("a", content), Restart] + pass + pass, c) == Some(t)
            && s.log == t.log == {} && s.mem.Some? && t.mem.Some?
            && "a" in s.mem.value.files && s.mem.value.files["a"].offset == 0
            && "a" in t.mem.value.files && t.mem.value.files["a"].offset == 0
  {
    hide DecodeAll, Exec, Member;
    var file := Writer.File(batches, c.maxMember);
    var content := file + JUNK;
    FileBack(batches, JUNK, c.maxMember);
    JunkFails(c.maxMember);
    assert content[0..] == content && |content| > 0;
    assert |file| > 0;
    hide Writer.File;
    var before := OpenedFile(content, c);
    var st := Opened(content).(size := |content|);
    s := FailedChunk(before, content, st, map[], c);
    var again := ReopenedFailed(s, content, st, c);
    t := FailedChunk(again, content, st, s.mem.value.files, c);
    hide Next;
    var three := [Create("a", content), Restart, Begin("a")];
    var pass := [Begin("a"), Chunk(|content|, 1, true)];
    var first := [Create("a", content), Restart] + pass;
    Extend(three, Chunk(|content|, 1, true), before, c);
    assert three + [Chunk(|content|, 1, true)] == first;
    Extend(first, Begin("a"), s, c);
    Extend(first + [Begin("a")], Chunk(|content|, 1, true), again, c);
    assert first + [Begin("a")] + [Chunk(|content|, 1, true)] == first + pass;
  }

  /** A chunk that fails closes the file where it was. */
  lemma FailedChunk(s: Sys, content: Bytes, st: FileState, files: map<string, FileState>, c: Config) returns (t: Sys)
    requires content != [] && DecodeAll(content, c.maxMember).failed
    requires s.world == JustMade("a", content) && s.mem.Some? && s.mem.value.files == files
    requires st.size == |content| && st.offset == 0
    requires s.mem.value.reading.Some?
    requires var r := s.mem.value.reading.value;
             r.name == "a" && r.ino == 0 && r.st.(size := |content|) == st && r.statSize == |content| && r.buf == [] && r.pos == 0
    ensures Next(s, Chunk(|content|, 1, true), c) == Some(t)
    ensures t == s.(mem := Some(s.mem.value.(files := files["a" := st], reading := None)))
  {
    hide DecodeAll;
    assert [] + content[0..|content|] == content;
    t := s.(mem := Some(s.mem.value.(files := files["a" := st], reading := None)));
  }

  lemma ReopenedFailed(s: Sys, content: Bytes, st: FileState, c: Config) returns (t: Sys)
    requires content != [] && st == Opened(content).(size := |content|)
    requires s.world == JustMade("a", content) && s.mem.Some? && s.mem.value.reading.None?
    requires "a" in s.mem.value.files && s.mem.value.files["a"] == st
    ensures Next(s, Begin("a"), c) == Some(t)
    ensures t == s.(mem := Some(s.mem.value.(reading := Some(Reading("a", 0, st, |content|, [], 0)))))
  {
    t := s.(mem := Some(s.mem.value.(reading := Some(Reading("a", 0, st, |content|, [], 0)))));
  }
}
