/**
 Crash-safe tailing as a system of atomic steps: internal/tail.  Archive files grow, are
 moved away and are recreated under the same name by someone else, while the watcher reads,
 delivers, saves, reclaims, crashes and restarts.
 */
module TailModel {
  import opened Codec
  import opened Archive
  import opened Wrappers

  // ---- The directory ------------------------------------------------------------------

  /** One file that was ever created, with what has been written to it so far. */
  datatype File = File(name: string, content: Bytes)

  /** Every file there has been, and which of them each name stands for now. */
  datatype World = World(files: seq<File>, dir: map<string, nat>)

  /** The length of an identifying head. */
  const FINGERPRINT_BYTES: nat := 512

  /** The identifying head; a shorter file is identified by all it has.  Digests are not modelled. */
  function Fingerprint(content: Bytes): (f: Bytes)
    ensures f <= content
  {
    content[..Min(FINGERPRINT_BYTES, |content|)]
  }

  /** Two files of one name differ in their full heads. */
  ghost predicate DistinctHeads(files: seq<File>) {
    forall i, j | 0 <= i < |files| && 0 <= j < |files| && i != j && files[i].name == files[j].name
               && |files[i].content| >= FINGERPRINT_BYTES && |files[j].content| >= FINGERPRINT_BYTES ::
      Fingerprint(files[i].content) != Fingerprint(files[j].content)
  }

  // ---- The watcher --------------------------------------------------------------------

  /**
   A batch of members put through the reducer: those in `prefix[from..]`, where `prefix` is
   all of the file up to the end of the batch.
   */
  datatype Delivery = Delivery(prefix: Bytes, from: nat)

  /**
   The reducer, as the history of what was done to it.  It stands for any deterministic
   machine driven by the same calls.
   */
  datatype Reducer =
    | Fresh
    | Fed(before: Reducer, batch: Delivery)
    | Evicted(before: Reducer)
    | Restored(from: Reducer)
  {
    /** Every batch this reducer, or one it was restored from, has been through. */
    function Seen(): set<Delivery> {
      match this
      case Fresh => {}
      case Fed(before, batch) => before.Seen() + {batch}
      case Evicted(before) => before.Seen()
      case Restored(from) => from.Seen()
    }
  }

  datatype FileState = FileState(offset: nat, size: nat, fingerprint: Bytes, deleted: bool)

  const NEW_FILE := FileState(0, 0, [], false)

  /** What the checkpoint means; `Updated` is kept apart from it. */
  datatype Content = Content(files: map<string, FileState>, reducer: Reducer)
  datatype Checkpoint = Checkpoint(content: Content, updated: int)

  /** A file being read: the state to record, the size it had when it was opened, and the undecoded bytes. */
  datatype Reading = Reading(name: string, ino: nat, st: FileState, statSize: nat, buf: Bytes, pos: nat)

  /** What a crash loses.  `lastSaved` stands for the sum of the content last written. */
  datatype Memory = Memory(
    files: map<string, FileState>,
    saved: Reducer,
    reducer: Reducer,
    lastSaved: Option<Content>,
    reading: Option<Reading>)

  /** The whole system; `log` is every batch whose turns the sink accepted. */
  datatype Sys = Sys(world: World, disk: Option<Checkpoint>, mem: Option<Memory>, log: set<Delivery>)

  /** The cap on a member, and which day an archive name stands for. */
  datatype Config = Config(maxMember: nat, dayOf: string -> Option<int>)

  const START := Sys(World([], map[]), None, None, {})

  function StateOf(files: map<string, FileState>, name: string): FileState {
    if name in files then files[name] else NEW_FILE
  }

  // ---- What the watcher decides -------------------------------------------------------

  /**
   Where to resume a file.  A changed head means another file under the same name, a size
   below the offset a truncated one; either starts over.
   */
  function Resume(st: FileState, content: Bytes): FileState {
    var fp := Fingerprint(content);
    var kept :=
      if st.fingerprint != [] && fp != [] && fp != st.fingerprint then NEW_FILE
      else if |content| < st.offset then NEW_FILE
      else st;
    kept.(fingerprint := fp)
  }

  /** Tombstones are kept for three calendar days after the day in the name. */
  function PruneTombstones(files: map<string, FileState>, today: int, c: Config): map<string, FileState> {
    map n | n in files && !(files[n].deleted && c.dayOf(n).Some? && c.dayOf(n).value < today - 3) :: files[n]
  }

  /** A file whose every byte seen at its last stat was consumed, and that has not been reclaimed. */
  predicate Consumed(files: map<string, FileState>, name: string) {
    name in files && !files[name].deleted && files[name].offset >= files[name].size && files[name].size != 0
  }

  // ---- Steps --------------------------------------------------------------------------

  datatype Label =
    // Someone else, writing archives.
    | Create(name: string, content: Bytes)
    | Append(ino: nat, more: Bytes)
    | MoveAway(name: string)
    // The watcher, reading one file.
    | Begin(path: string)
    | Chunk(n: nat, turns: nat, accepted: bool)
    | Finish
    | Abort
    // The watcher, between files.
    | Evict
    | Save(today: int, now: int, written: bool)
    | Reclaim(path: string)
    // The process.
    | Crash
    | Restart

  /** Writers never make two files of one name whose full heads agree. */
  ghost function Wrote(s: Sys, files: seq<File>, dir: map<string, nat>): Option<Sys> {
    if DistinctHeads(files) then Some(s.(world := World(files, dir))) else None
  }

  ghost function ByWriter(s: Sys, l: Label): Option<Sys>
    requires l.Create? || l.Append? || l.MoveAway?
  {
    var w := s.world;
    match l
    case Create(name, content) =>
      if name in w.dir then None
      else Wrote(s, w.files + [File(name, content)], w.dir[name := |w.files|])
    case Append(ino, more) =>
      if ino >= |w.files| then None
      else Wrote(s, w.files[ino := File(w.files[ino].name, w.files[ino].content + more)], w.dir)
    case MoveAway(name) => Some(s.(world := World(w.files, w.dir - {name})))
  }

  /** Opening one file: where its reading will start, or nothing to do. */
  function Open(s: Sys, m: Memory, path: string): Option<Sys>
    requires path in s.world.dir ==> s.world.dir[path] < |s.world.files|
  {
    if path !in s.world.dir || StateOf(m.files, path).deleted then Some(s)
    else
      var ino := s.world.dir[path];
      var content := s.world.files[ino].content;
      var st := Resume(StateOf(m.files, path), content);
      if |content| == st.offset then Some(s.(mem := Some(m.(files := m.files[path := st]))))
      else Some(s.(mem := Some(m.(reading := Some(Reading(path, ino, st, |content|, [], st.offset))))))
  }

  /** Leaving one file with what was read of it. */
  function Close(m: Memory, r: Reading): Memory {
    m.(files := m.files[r.name := r.st.(size := r.statSize)], reading := None)
  }

  /** One read, decode, reduce and emit.  Bytes are passed only once the sink took their turns. */
  function ReadChunk(s: Sys, m: Memory, r: Reading, n: nat, turns: nat, accepted: bool, c: Config): Option<Sys>
    requires r.ino < |s.world.files|
  {
    var content := s.world.files[r.ino].content;
    if n == 0 || r.pos + n > |content| then None
    else
      var buf := r.buf + content[r.pos..r.pos + n];
      var res := DecodeAll(buf, c.maxMember);
      if res.failed then Some(s.(mem := Some(Close(m, r))))
      else if res.consumed == 0 then
        Some(s.(mem := Some(m.(reading := Some(r.(buf := buf, pos := r.pos + n))))))
      else
        var end := r.st.offset + res.consumed;
        if end > |content| then None
        else
          var batch := Delivery(content[..end], r.st.offset);
          var fed := m.(reducer := Fed(m.reducer, batch));
          if turns > 0 && !accepted then Some(s.(mem := Some(fed.(reading := None))))
          else
            var st := r.st.(offset := end);
            var reading := r.(st := st, buf := buf[res.consumed..], pos := r.pos + n);
            Some(s.(mem := Some(fed.(files := m.files[r.name := st], reading := Some(reading))),
                    log := s.log + {batch}))
  }

  /** Saving; a checkpoint equal to the one last written is not written again. */
  function SaveTo(s: Sys, m: Memory, today: int, now: int, written: bool, c: Config): Sys {
    var pruned := m.(files := PruneTombstones(m.files, today, c), saved := m.reducer);
    var content := Content(pruned.files, pruned.saved);
    if m.lastSaved == Some(content) then s.(mem := Some(pruned))
    else if !written then s.(mem := Some(pruned))
    else s.(mem := Some(pruned.(lastSaved := Some(content))), disk := Some(Checkpoint(content, now)))
  }

  ghost function ByWatcher(s: Sys, l: Label, c: Config): Option<Sys> {
    if s.mem.None? then None
    else
      var m := s.mem.value;
      if m.reading.Some? then
        var r := m.reading.value;
        match l
        case Chunk(n, turns, accepted) =>
          if r.ino < |s.world.files| then ReadChunk(s, m, r, n, turns, accepted, c) else None
        case Finish =>
          if r.ino < |s.world.files| && r.pos == |s.world.files[r.ino].content|
          then Some(s.(mem := Some(Close(m, r)))) else None
        case Abort => Some(s.(mem := Some(m.(reading := None))))
        case _ => None
      else
        match l
        case Begin(path) =>
          if path in s.world.dir && s.world.dir[path] >= |s.world.files| then None else Open(s, m, path)
        case Evict => Some(s.(mem := Some(m.(reducer := Evicted(m.reducer)))))
        case Save(today, now, written) => Some(SaveTo(s, m, today, now, written, c))
        case Reclaim(path) =>
          if Consumed(m.files, path) && path in s.world.dir then
            Some(s.(mem := Some(m.(files := m.files[path := m.files[path].(deleted := true)])),
                    world := World(s.world.files, s.world.dir - {path})))
          else None
        case _ => None
  }

  /** A fresh process, from whatever checkpoint is on disk. */
  function Loaded(disk: Option<Checkpoint>): Memory {
    var content := if disk.Some? then disk.value.content else Content(map[], Fresh);
    Memory(content.files, content.reducer, Restored(content.reducer), None, None)
  }

  ghost function Next(s: Sys, l: Label, c: Config): Option<Sys> {
    match l
    case Create(_, _) => ByWriter(s, l)
    case Append(_, _) => ByWriter(s, l)
    case MoveAway(_) => ByWriter(s, l)
    case Crash => Some(s.(mem := None))
    case Restart => if s.mem.Some? then None else Some(s.(mem := Some(Loaded(s.disk))))
    case _ => ByWatcher(s, l, c)
  }

  /** Where a run of steps leads, if each of them can be taken. */
  ghost function Exec(s: Sys, labels: seq<Label>, c: Config): Option<Sys> {
    if labels == [] then Some(s)
    else
      var n := |labels| - 1;
      var before := Exec(s, labels[..n], c);
      if before.None? then None else Next(before.value, labels[n], c)
  }

  ghost predicate Reachable(s: Sys, c: Config) {
    exists labels :: Exec(START, labels, c) == Some(s)
  }
}
