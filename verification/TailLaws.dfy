/**
 What holds over every run of the tailing system: internal/tail.  Offsets are member
 boundaries of the file they are applied to, everything below them went through the reducer
 and was accepted, on disk as well as in memory; and skipping a write never leaves stale
 content behind.
 */
module TailLaws {
  import opened Codec
  import opened Archive
  import opened TailModel
  import opened Wrappers

  /** Sound members and nothing else. */
  predicate Whole(d: Bytes, max: nat) {
    var r := DecodeAll(d, max);
    r.consumed == |d| && !r.failed
  }

  predicate Boundary(content: Bytes, o: nat, c: Config): (on: bool)
    ensures on ==> o <= |content|
  {
    o <= |content| && Whole(content[..o], c.maxMember)
  }

  /** Byte `p` was in an accepted batch of a file that is the same up to the end of that batch. */
  ghost predicate CoveredAt(batches: set<Delivery>, below: Bytes, p: nat) {
    exists d :: d in batches && d.from <= p < |d.prefix| && d.prefix <= below
  }

  /** Every byte of `below` was. */
  ghost predicate Covered(batches: set<Delivery>, below: Bytes) {
    forall p | 0 <= p < |below| :: CoveredAt(batches, below, p)
  }

  /** A recorded state is true of file `i`: its offset is a boundary of it and all below was delivered. */
  ghost predicate BackedBy(w: World, batches: set<Delivery>, i: nat, name: string, st: FileState, c: Config) {
    && i < |w.files| && w.files[i].name == name
    && Boundary(w.files[i].content, st.offset, c)
    && Covered(batches, w.files[i].content[..st.offset])
    && st.fingerprint <= w.files[i].content && |st.fingerprint| <= FINGERPRINT_BYTES
    && (st.fingerprint == [] ==> st.offset == 0)
  }

  ghost predicate Backed(w: World, batches: set<Delivery>, files: map<string, FileState>, c: Config) {
    forall name | name in files :: exists i: nat :: BackedBy(w, batches, i, name, files[name], c)
  }

  ghost predicate ReadingBacked(w: World, batches: set<Delivery>, r: Reading, c: Config) {
    && BackedBy(w, batches, r.ino, r.name, r.st, c)
    && r.st.fingerprint != []
    && r.st.offset <= r.pos <= |w.files[r.ino].content|
    && r.buf == w.files[r.ino].content[r.st.offset..r.pos]
  }

  ghost predicate WorldOk(w: World) {
    && DistinctHeads(w.files)
    && forall n | n in w.dir :: w.dir[n] < |w.files| && w.files[w.dir[n]].name == n
  }

  /** What was delivered, of what this reducer has been through. */
  function Accepted(s: Sys, r: Reducer): set<Delivery> {
    s.log * r.Seen()
  }

  ghost predicate MemoryOk(s: Sys, m: Memory, c: Config) {
    && Backed(s.world, Accepted(s, m.reducer), m.files, c)
    && (m.reading.Some? ==> ReadingBacked(s.world, Accepted(s, m.reducer), m.reading.value, c))
    && (m.lastSaved.Some? ==> s.disk.Some? && s.disk.value.content == m.lastSaved.value)
  }

  ghost predicate DiskOk(s: Sys, c: Config) {
    s.disk.Some? ==>
      Backed(s.world, Accepted(s, s.disk.value.content.reducer), s.disk.value.content.files, c)
  }

  ghost predicate Invariant(s: Sys, c: Config) {
    WorldOk(s.world) && DiskOk(s, c) && (s.mem.Some? ==> MemoryOk(s, s.mem.value, c))
  }

  // ---- Boundaries ---------------------------------------------------------------------

  /** The bytes decoding consumes decode, on their own, to the same members and nothing more. */
  lemma {:induction false} ConsumedIsWhole(d: Bytes, max: nat)
    ensures var r := DecodeAll(d, max);
            DecodeAll(d[..r.consumed], max) == Decoded(r.text, r.consumed, r.members, false)
    ensures Whole(d[..DecodeAll(d, max).consumed], max)
    decreases |d|
  {
    hide DecodeOne, DecodeAll;
    DecodeStep(d, max);
    var o, r := DecodeOne(d, max), DecodeAll(d, max);
    DecodeStep(d[..r.consumed], max);
    if o.Complete? {
      ConsumedIsWhole(d[o.used..], max);
      MemberIsItsBytes(d, r.consumed, max);
      assert d[..r.consumed][o.used..] == d[o.used..][..r.consumed - o.used];
    }
  }

  lemma WholeThenWhole(a: Bytes, b: Bytes, max: nat)
    requires Whole(a, max) && Whole(b, max)
    ensures Whole(a + b, max)
  {
    hide DecodeOne, DecodeAll;
    DecodeInTwo(a, b, max);
    assert a[|a|..] + b == b;
  }

  /** Decoding on from a boundary leads to a boundary. */
  lemma {:induction false} BoundaryAdvances(content: Bytes, o: nat, buf: Bytes, c: Config)
    requires Boundary(content, o, c) && o + |buf| <= |content| && buf == content[o..o + |buf|]
    ensures Boundary(content, o + DecodeAll(buf, c.maxMember).consumed, c)
  {
    hide DecodeOne, DecodeAll, Whole;
    var k := DecodeAll(buf, c.maxMember).consumed;
    ConsumedIsWhole(buf, c.maxMember);
    WholeThenWhole(content[..o], buf[..k], c.maxMember);
    assert content[..o] + buf[..k] == content[..o + k];
  }

  lemma BoundaryAtZero(content: Bytes, c: Config)
    ensures Boundary(content, 0, c)
  {
    hide DecodeOne;
    assert content[..0] == [];
  }

  // ---- Growth never hurts -------------------------------------------------------------

  lemma CoveredGrows(a: set<Delivery>, b: set<Delivery>, below: Bytes)
    requires Covered(a, below) && a <= b
    ensures Covered(b, below)
  {
    forall p | 0 <= p < |below|
      ensures CoveredAt(b, below, p)
    {
      assert CoveredAt(a, below, p);
    }
  }

  /** One more batch, delivered from where the last one ended. */
  lemma CoveredAdvances(a: set<Delivery>, b: set<Delivery>, below: Bytes, longer: Bytes)
    requires Covered(a, below) && a <= b && below <= longer && Delivery(longer, |below|) in b
    ensures Covered(b, longer)
  {
    forall p | 0 <= p < |longer|
      ensures CoveredAt(b, longer, p)
    {
      if p < |below| {
        assert CoveredAt(a, below, p);
        var d :| d in a && d.from <= p < |d.prefix| && d.prefix <= below;
        assert d in b && d.prefix <= longer;
      } else {
        var d := Delivery(longer, |below|);
        assert d in b && d.from <= p < |d.prefix|;
      }
    }
  }

  ghost predicate Grows(w: World, v: World) {
    |w.files| <= |v.files| && forall i | 0 <= i < |w.files| ::
      w.files[i].name == v.files[i].name && w.files[i].content <= v.files[i].content
  }

  lemma BackedByGrows(w: World, v: World, a: set<Delivery>, b: set<Delivery>, i: nat, name: string, st: FileState, c: Config)
    requires BackedBy(w, a, i, name, st, c) && Grows(w, v) && a <= b
    ensures BackedBy(v, b, i, name, st, c)
  {
    hide DecodeAll, Covered;
    var short, long := w.files[i].content, v.files[i].content;
    assert short[..st.offset] == long[..st.offset];
    CoveredGrows(a, b, short[..st.offset]);
  }

  lemma BackedGrows(w: World, v: World, a: set<Delivery>, b: set<Delivery>, files: map<string, FileState>, c: Config)
    requires Backed(w, a, files, c) && Grows(w, v) && a <= b
    ensures Backed(v, b, files, c)
  {
    hide BackedBy, Grows;
    forall name | name in files
      ensures exists i: nat :: BackedBy(v, b, i, name, files[name], c)
    {
      var i: nat :| BackedBy(w, a, i, name, files[name], c);
      BackedByGrows(w, v, a, b, i, name, files[name], c);
    }
  }

  // ---- Resuming -----------------------------------------------------------------------

  lemma NewFileBacked(w: World, batches: set<Delivery>, j: nat, fp: Bytes, c: Config)
    requires j < |w.files| && fp <= w.files[j].content && |fp| <= FINGERPRINT_BYTES
    ensures BackedBy(w, batches, j, w.files[j].name, NEW_FILE.(fingerprint := fp), c)
  {
    BoundaryAtZero(w.files[j].content, c);
  }

  /** When the head and the size agree, the bytes below the offset are those that were delivered. */
  lemma SameBelowOffset(w: World, i: nat, j: nat, st: FileState)
    requires WorldOk(w) && i < |w.files| && j < |w.files| && w.files[i].name == w.files[j].name
    requires st.fingerprint <= w.files[i].content && |st.fingerprint| <= FINGERPRINT_BYTES
    requires st.offset <= |w.files[i].content| && st.offset <= |w.files[j].content|
    requires st.fingerprint == Fingerprint(w.files[j].content)
    ensures w.files[i].content[..st.offset] == w.files[j].content[..st.offset]
  {
    var a, b := w.files[i].content, w.files[j].content;
    if |st.fingerprint| == FINGERPRINT_BYTES {
      assert Fingerprint(a) == st.fingerprint;
      assert i == j;
    } else {
      assert st.fingerprint == b;
      assert a[..st.offset] == st.fingerprint[..st.offset];
    }
  }

  /** Whatever the checkpoint says of a name, it resumes where all before was delivered. */
  lemma ResumeBacked(w: World, batches: set<Delivery>, files: map<string, FileState>, j: nat, c: Config)
    requires WorldOk(w) && j < |w.files| && Backed(w, batches, files, c)
    ensures var content := w.files[j].content;
            var st := Resume(StateOf(files, w.files[j].name), content);
            BackedBy(w, batches, j, w.files[j].name, st, c)
            && (st.fingerprint == [] ==> |content| == st.offset)
  {
    hide DecodeAll, Boundary, Covered, CoveredAt, DistinctHeads;
    var name, content := w.files[j].name, w.files[j].content;
    var st := StateOf(files, name);
    var resumed := Resume(st, content);
    NewFileBacked(w, batches, j, Fingerprint(content), c);
    if name in files && resumed == st.(fingerprint := Fingerprint(content)) && st.offset > 0 {
      var i: nat :| BackedBy(w, batches, i, name, st, c);
      SameBelowOffset(w, i, j, st);
      SameBoundary(w.files[i].content, content, st.offset, c);
    }
  }

  lemma SameBoundary(a: Bytes, b: Bytes, o: nat, c: Config)
    requires Boundary(a, o, c) && o <= |b| && a[..o] == b[..o]
    ensures Boundary(b, o, c)
  {
    hide Whole;
  }

  // ---- Every step ---------------------------------------------------------------------

  lemma RecordBacked(w: World, batches: set<Delivery>, files: map<string, FileState>, name: string, st: FileState, i: nat, c: Config)
    requires Backed(w, batches, files, c) && BackedBy(w, batches, i, name, st, c)
    ensures Backed(w, batches, files[name := st], c)
  {
    hide BackedBy;
  }

  lemma SystemGrows(s: Sys, t: Sys, m: Memory, c: Config)
    requires MemoryOk(s, m, c) && Grows(s.world, t.world) && s.log <= t.log && s.disk == t.disk
    ensures MemoryOk(t, m, c)
  {
    hide Boundary, Covered, Backed;
    BackedGrows(s.world, t.world, Accepted(s, m.reducer), Accepted(t, m.reducer), m.files, c);
    if m.reading.Some? {
      var r := m.reading.value;
      BackedByGrows(s.world, t.world, Accepted(s, m.reducer), Accepted(t, m.reducer), r.ino, r.name, r.st, c);
    }
  }

  /** More of the world and more deliveries keep what is on disk true. */
  lemma DiskGrows(s: Sys, t: Sys, c: Config)
    requires DiskOk(s, c) && Grows(s.world, t.world) && s.log <= t.log && s.disk == t.disk
    ensures DiskOk(t, c)
  {
    hide BackedBy, Backed, Grows;
    if s.disk.Some? {
      var content := s.disk.value.content;
      BackedGrows(s.world, t.world, Accepted(s, content.reducer), Accepted(t, content.reducer), content.files, c);
    }
  }

  lemma SameGrows(w: World, v: World)
    requires w.files == v.files
    ensures Grows(w, v)
  {}

  /** Nothing anyone else does to the directory can make a recorded offset wrong. */
  lemma WriterKeeps(s: Sys, l: Label, c: Config)
    requires Invariant(s, c) && (l.Create? || l.Append? || l.MoveAway?)
    ensures var t := ByWriter(s, l); t.Some? ==> Invariant(t.value, c)
  {
    hide BackedBy, Backed, DistinctHeads, MemoryOk, DiskOk;
    var t := ByWriter(s, l);
    if t.Some? {
      assert Grows(s.world, t.value.world);
      DiskGrows(s, t.value, c);
      if s.mem.Some? {
        SystemGrows(s, t.value, s.mem.value, c);
      }
    }
  }

  /** Opening a file puts the reader on a boundary with everything before it delivered. */
  lemma OpenKeeps(s: Sys, m: Memory, path: string, c: Config)
    requires Invariant(s, c) && s.mem == Some(m) && m.reading.None?
    ensures var t := Open(s, m, path); t.Some? ==> Invariant(t.value, c)
  {
    hide Boundary, Covered, Backed, DistinctHeads, Resume;
    if path in s.world.dir && !StateOf(m.files, path).deleted {
      var ino := s.world.dir[path];
      var content := s.world.files[ino].content;
      var st := Resume(StateOf(m.files, path), content);
      ResumeBacked(s.world, Accepted(s, m.reducer), m.files, ino, c);
      RecordBacked(s.world, Accepted(s, m.reducer), m.files, path, st, ino, c);
      assert content[st.offset..st.offset] == [];
    }
  }

  lemma CloseKeeps(s: Sys, m: Memory, r: Reading, c: Config)
    requires Invariant(s, c) && s.mem == Some(m) && m.reading == Some(r)
    ensures Invariant(s.(mem := Some(Close(m, r))), c)
  {
    hide Boundary, Covered, Backed, DistinctHeads;
    RecordBacked(s.world, Accepted(s, m.reducer), m.files, r.name, r.st.(size := r.statSize), r.ino, c);
  }

  /** The member-boundary arithmetic of one chunk. */
  lemma ChunkAdvances(w: World, r: Reading, n: nat, before: set<Delivery>, after: set<Delivery>, c: Config)
    requires ReadingBacked(w, before, r, c) && before <= after
    requires r.pos + n <= |w.files[r.ino].content|
    requires var content := w.files[r.ino].content;
             var res := DecodeAll(r.buf + content[r.pos..r.pos + n], c.maxMember);
             var end := r.st.offset + res.consumed;
             end <= |content| && Delivery(content[..end], r.st.offset) in after
    ensures var content := w.files[r.ino].content;
            var buf := r.buf + content[r.pos..r.pos + n];
            var res := DecodeAll(buf, c.maxMember);
            var st := r.st.(offset := r.st.offset + res.consumed);
            BackedBy(w, after, r.ino, r.name, st, c)
            && buf[res.consumed..] == content[st.offset..r.pos + n]
  {
    hide Whole, DecodeOne, DecodeAll, Covered;
    var content := w.files[r.ino].content;
    var buf := r.buf + content[r.pos..r.pos + n];
    assert buf == content[r.st.offset..r.pos + n];
    var k := DecodeAll(buf, c.maxMember).consumed;
    BoundaryAdvances(content, r.st.offset, buf, c);
    CoveredAdvances(before, after, content[..r.st.offset], content[..r.st.offset + k]);
  }

  /** Bytes are passed only after their turns were accepted. */
  lemma ChunkKeeps(s: Sys, m: Memory, r: Reading, n: nat, turns: nat, accepted: bool, c: Config)
    requires Invariant(s, c) && s.mem == Some(m) && m.reading == Some(r)
    ensures var t := ReadChunk(s, m, r, n, turns, accepted, c); t.Some? ==> Invariant(t.value, c)
  {
    hide Boundary, Covered, Backed, DistinctHeads, DecodeAll, DiskOk, MemoryOk;
    MemoryParts(s, m, c);
    var t := ReadChunk(s, m, r, n, turns, accepted, c);
    var content := s.world.files[r.ino].content;
    if t.Some? {
      var buf := r.buf + content[r.pos..r.pos + n];
      var res := DecodeAll(buf, c.maxMember);
      if res.failed {
        CloseKeeps(s, m, r, c);
      } else if res.consumed == 0 {
        assert buf == content[r.st.offset..r.pos + n];
        DiskSame(s, t.value, c);
        MemoryFrom(t.value, t.value.mem.value, m, c);
      } else {
        BatchKeeps(s, m, r, n, turns, accepted, c);
      }
    }
  }

  lemma BatchKeeps(s: Sys, m: Memory, r: Reading, n: nat, turns: nat, accepted: bool, c: Config)
    requires Invariant(s, c) && s.mem == Some(m) && m.reading == Some(r)
    requires ReadChunk(s, m, r, n, turns, accepted, c).Some?
    requires var res := DecodeAll(r.buf + s.world.files[r.ino].content[r.pos..r.pos + n], c.maxMember);
             !res.failed && res.consumed > 0
    ensures Invariant(ReadChunk(s, m, r, n, turns, accepted, c).value, c)
  {
    hide Boundary, Covered, Backed, DistinctHeads, DecodeAll, DiskOk, MemoryOk, Grows;
    MemoryParts(s, m, c);
    SameGrows(s.world, s.world);
    var content := s.world.files[r.ino].content;
    var end := r.st.offset + DecodeAll(r.buf + content[r.pos..r.pos + n], c.maxMember).consumed;
    var batch := Delivery(content[..end], r.st.offset);
    var fed := m.(reducer := Fed(m.reducer, batch));
    var u := ReadChunk(s, m, r, n, turns, accepted, c).value;
    DiskGrows(s, u, c);
    var before, after := Accepted(s, m.reducer), Accepted(u, fed.reducer);
    BackedGrows(s.world, u.world, before, after, m.files, c);
    if !(turns > 0 && !accepted) {
      ChunkAdvances(s.world, r, n, before, after, c);
      RecordBacked(u.world, after, m.files, r.name, r.st.(offset := end), r.ino, c);
    }
    MemoryFrom(u, u.mem.value, m, c);
  }

  lemma MemoryParts(s: Sys, m: Memory, c: Config)
    requires MemoryOk(s, m, c)
    ensures Backed(s.world, Accepted(s, m.reducer), m.files, c)
    ensures m.reading.Some? ==> ReadingBacked(s.world, Accepted(s, m.reducer), m.reading.value, c)
    ensures m.lastSaved.Some? ==> s.disk.Some? && s.disk.value.content == m.lastSaved.value
  {}

  lemma MemoryFrom(s: Sys, m: Memory, was: Memory, c: Config)
    requires Backed(s.world, Accepted(s, m.reducer), m.files, c)
    requires m.reading.Some? ==> ReadingBacked(s.world, Accepted(s, m.reducer), m.reading.value, c)
    requires m.lastSaved == was.lastSaved
    requires was.lastSaved.Some? ==> s.disk.Some? && s.disk.value.content == was.lastSaved.value
    ensures MemoryOk(s, m, c)
  {}

  lemma PruneBacked(w: World, batches: set<Delivery>, files: map<string, FileState>, today: int, c: Config)
    requires Backed(w, batches, files, c)
    ensures Backed(w, batches, PruneTombstones(files, today, c), c)
  {
    hide BackedBy;
  }

  /** A save leaves disk and memory agreeing, whether or not it had to write; a failed one changes no disk. */
  lemma SaveKeeps(s: Sys, m: Memory, today: int, now: int, written: bool, c: Config)
    requires Invariant(s, c) && s.mem == Some(m) && m.reading.None?
    ensures Invariant(SaveTo(s, m, today, now, written, c), c)
    ensures var t := SaveTo(s, m, today, now, written, c);
            var content := Content(t.mem.value.files, t.mem.value.saved);
            (written || m.lastSaved == Some(content)) ==> t.disk.Some? && t.disk.value.content == content
    ensures !written ==> SaveTo(s, m, today, now, written, c).disk == s.disk
  {
    hide Backed;
    PruneBacked(s.world, Accepted(s, m.reducer), m.files, today, c);
  }

  lemma ReclaimKeeps(s: Sys, m: Memory, path: string, c: Config)
    requires Invariant(s, c) && s.mem == Some(m) && m.reading.None? && path in m.files
    ensures Invariant(s.(mem := Some(m.(files := m.files[path := m.files[path].(deleted := true)])),
                         world := World(s.world.files, s.world.dir - {path})), c)
  {
    hide Boundary, Covered, DistinctHeads, DiskOk;
    var w := World(s.world.files, s.world.dir - {path});
    SameGrows(s.world, w);
    DiskGrows(s, s.(world := w), c);
    assert DiskOk(s.(world := w), c);
    BackedGrows(s.world, w, Accepted(s, m.reducer), Accepted(s, m.reducer), m.files, c);
    var i: nat :| BackedBy(w, Accepted(s, m.reducer), i, path, m.files[path], c);
    var marked := m.files[path].(deleted := true);
    assert BackedBy(w, Accepted(s, m.reducer), i, path, marked, c);
    RecordBacked(w, Accepted(s, m.reducer), m.files, path, marked, i, c);
    DiskSame(s.(world := w), s.(mem := Some(m.(files := m.files[path := marked])), world := w), c);
  }

  lemma DiskSame(s: Sys, t: Sys, c: Config)
    requires DiskOk(s, c) && s.world == t.world && s.log == t.log && s.disk == t.disk
    ensures DiskOk(t, c)
  {
    hide Backed;
  }

  lemma RestartKeeps(s: Sys, c: Config)
    requires Invariant(s, c)
    ensures Invariant(s.(mem := Some(Loaded(s.disk))), c)
  {
    hide BackedBy;
  }

  /** Every step of anyone keeps the invariant. */
  lemma StepKeeps(s: Sys, l: Label, c: Config)
    requires Invariant(s, c)
    ensures var t := Next(s, l, c); t.Some? ==> Invariant(t.value, c)
  {
    hide MemoryOk, DiskOk, WorldOk, Invariant, Open, ReadChunk, SaveTo, Close, Loaded;
    match l
    case Create(_, _) => WriterKeeps(s, l, c);
    case Append(_, _) => WriterKeeps(s, l, c);
    case MoveAway(_) => WriterKeeps(s, l, c);
    case Crash => CrashKeeps(s, c);
    case Restart => RestartKeeps(s, c);
    case _ =>
      if s.mem.Some? {
        WatcherKeeps(s, l, c);
      }
  }

  lemma CrashKeeps(s: Sys, c: Config)
    requires Invariant(s, c)
    ensures Invariant(s.(mem := None), c)
    ensures s.mem.Some? ==> Invariant(s.(mem := Some(s.mem.value.(reading := None))), c)
    ensures s.mem.Some? && s.mem.value.reading.None? ==>
              Invariant(s.(mem := Some(s.mem.value.(reducer := Evicted(s.mem.value.reducer)))), c)
  {
    hide Backed, ReadingBacked;
  }

  lemma WatcherKeeps(s: Sys, l: Label, c: Config)
    requires Invariant(s, c) && s.mem.Some?
    ensures var t := ByWatcher(s, l, c); t.Some? ==> Invariant(t.value, c)
  {
    hide MemoryOk, DiskOk, WorldOk, Invariant, Open, ReadChunk, SaveTo, Close;
    var m := s.mem.value;
    CrashKeeps(s, c);
    if m.reading.Some? {
      match l
      case Chunk(n, turns, accepted) => ChunkKeeps(s, m, m.reading.value, n, turns, accepted, c);
      case Finish => CloseKeeps(s, m, m.reading.value, c);
      case _ =>
    } else {
      match l
      case Begin(path) =>
        DirSound(s, c);
        OpenKeeps(s, m, path, c);
      case Save(today, now, written) => SaveKeeps(s, m, today, now, written, c);
      case Reclaim(path) =>
        if path in m.files {
          ReclaimKeeps(s, m, path, c);
        }
      case _ =>
    }
  }

  lemma DirSound(s: Sys, c: Config)
    requires Invariant(s, c)
    ensures forall n | n in s.world.dir :: s.world.dir[n] < |s.world.files| && s.world.files[s.world.dir[n]].name == n
  {}

  // ---- Over every run -----------------------------------------------------------------

  lemma {:induction false} RunsKeep(s: Sys, labels: seq<Label>, c: Config)
    requires Invariant(s, c)
    ensures var t := Exec(s, labels, c); t.Some? ==> Invariant(t.value, c)
  {
    hide Invariant, Next;
    if labels != [] {
      var n := |labels| - 1;
      RunsKeep(s, labels[..n], c);
      var before := Exec(s, labels[..n], c);
      if before.Some? {
        StepKeeps(before.value, labels[n], c);
      }
    }
  }

  lemma StartOk(c: Config)
    ensures Invariant(START, c)
  {}

  lemma ReachableOk(s: Sys, c: Config)
    requires Reachable(s, c)
    ensures Invariant(s, c)
  {
    hide Invariant, Next;
    var labels :| Exec(START, labels, c) == Some(s);
    StartOk(c);
    RunsKeep(START, labels, c);
  }

  /**
   Nothing is skipped.  In any state that any run reaches, with whatever was appended, moved
   away, recreated, crashed and restarted on the way, opening a file resumes it at a member
   boundary, and every byte before that point went through the reducer and had its turns
   accepted.
   */
  lemma NeverSkips(s: Sys, path: string, c: Config)
    requires Reachable(s, c) && s.mem.Some? && path in s.world.dir
    ensures s.world.dir[path] < |s.world.files|
    ensures var content := s.world.files[s.world.dir[path]].content;
            var from := Resume(StateOf(s.mem.value.files, path), content).offset;
            Boundary(content, from, c) && Covered(Accepted(s, s.mem.value.reducer), content[..from])
  {
    hide Boundary, Covered, Resume;
    ReachableOk(s, c);
    ResumeBacked(s.world, Accepted(s, s.mem.value.reducer), s.mem.value.files, s.world.dir[path], c);
  }

  /** The same of a process that has just been restarted: the checkpoint never runs ahead of the reducer it holds. */
  lemma RestartNeverSkips(s: Sys, path: string, c: Config)
    requires Reachable(s, c) && s.disk.Some? && path in s.world.dir
    ensures s.world.dir[path] < |s.world.files|
    ensures var content := s.world.files[s.world.dir[path]].content;
            var saved := s.disk.value.content;
            var from := Resume(StateOf(saved.files, path), content).offset;
            Boundary(content, from, c) && Covered(Accepted(s, saved.reducer), content[..from])
  {
    hide Boundary, Covered, Resume;
    ReachableOk(s, c);
    var saved := s.disk.value.content;
    ResumeBacked(s.world, Accepted(s, saved.reducer), saved.files, s.world.dir[path], c);
  }

  /** What a save skipped or wrote is what is on disk, in every state that any run reaches. */
  lemma SkippedWritesAreNotStale(s: Sys, c: Config)
    requires Reachable(s, c) && s.mem.Some? && s.mem.value.lastSaved.Some?
    ensures s.disk.Some? && s.disk.value.content == s.mem.value.lastSaved.value
  {
    ReachableOk(s, c);
    hide Backed;
  }

  /**
   A name may be reclaimed only if some file that bore it was delivered: whole members up to
   the recorded size, all of them accepted.  Whether that is the file the name stands for now
   is another question.
   */
  lemma ReclaimableWasDelivered(s: Sys, path: string, c: Config)
    requires Reachable(s, c) && s.mem.Some? && Consumed(s.mem.value.files, path)
    ensures var st := s.mem.value.files[path];
            exists i: nat :: i < |s.world.files| && s.world.files[i].name == path
              && st.size <= st.offset <= |s.world.files[i].content|
              && Boundary(s.world.files[i].content, st.offset, c)
              && Covered(Accepted(s, s.mem.value.reducer), s.world.files[i].content[..st.offset])
  {
    hide Boundary, Covered;
    ReachableOk(s, c);
    var i: nat :| BackedBy(s.world, Accepted(s, s.mem.value.reducer), i, path, s.mem.value.files[path], c);
  }
}
