/**
 The watcher itself: internal/tail/watcher.go.  Its methods are programs over mutable state;
 each of them is proved to take only steps of the system in `TailModel`, so everything
 proved of all runs there holds at every point of these methods, crashes included.
 */
module Watcher {
  import opened Codec
  import opened Archive
  import opened Order
  import opened TailModel
  import opened TailLaws
  import opened TailReads
  import opened TailFiles
  import opened TailPass
  import opened TailResume
  import opened Retention
  import opened Wrappers

  /** The machine the watcher runs on.  It outlives the watcher. */
  class Host {
    var world: World
    var disk: Option<Checkpoint>
    ghost var log: set<Delivery>
    /** Every step taken so far, by writers and by all processes. */
    ghost var trace: seq<Label>
    /** The names anyone asked to have removed. */
    ghost var tried: set<string>

    constructor ()
      ensures world == START.world && disk == START.disk && log == START.log && trace == [] && tried == {}
    {
      world, disk := World([], map[]), None;
      log, trace, tried := {}, [], {};
    }
  }

  datatype Settings = Settings(chunkSize: nat, interval: int, retainDays: nat, deleteAfter: bool)
  /** Where the read loop of one file stands. */
  datatype Progress = Reads | AtEnd | Corrupted | Stopped

  datatype Rule = RetainDays | DeleteAfter

  class Watcher {
    const host: Host
    const c: Config
    const cfg: Settings
    var files: map<string, FileState>
    var saved: Reducer
    var reducer: Reducer
    var lastSaved: Option<Content>
    var lastSaveAt: Option<int>
    /** The file in hand, while there is one. */
    ghost var reading: Option<Reading>

    ghost function Now(): Sys
      reads this, host
    {
      Sys(host.world, host.disk, Some(Memory(files, saved, reducer, lastSaved, reading)), host.log)
    }

    /** What was accepted of all this reducer has been through. */
    ghost function Delivered(): set<Delivery>
      reads this`reducer, host`log
    {
      host.log * reducer.Seen()
    }

    /** The present state is one that the steps so far lead to. */
    ghost predicate Valid()
      reads this, host
    {
      Exec(START, host.trace, c) == Some(Now())
    }

    /** A fresh process restores offsets and reducer from the checkpoint. */
    constructor (host: Host, c: Config, cfg: Settings)
      requires Exec(START, host.trace, c) == Some(Sys(host.world, host.disk, None, host.log))
      modifies host`trace
      ensures Valid() && reading.None? && this.host == host && this.c == c && this.cfg == cfg
      ensures files == Loaded(host.disk).files && lastSaved.None? && lastSaveAt.None?
      ensures host.trace == old(host.trace) + [Restart]
    {
      this.host, this.c, this.cfg := host, c, cfg;
      if host.disk.Some? {
        files, saved := host.disk.value.content.files, host.disk.value.content.reducer;
        reducer := Restored(host.disk.value.content.reducer);
      } else {
        files, saved, reducer := map[], Fresh, Restored(Fresh);
      }
      lastSaved, lastSaveAt := None, None;
      reading := None;
      new;
      Extend(host.trace, Restart, Sys(host.world, host.disk, None, host.log), c);
      host.trace := host.trace + [Restart];
    }

    /** Records that one step of the system has just been taken. */
    ghost method Took(l: Label, before: Sys)
      requires Exec(START, host.trace, c) == Some(before) && Next(before, l, c) == Some(Now())
      modifies host`trace
      ensures Valid() && host.trace == old(host.trace) + [l]
    {
      Extend(host.trace, l, before, c);
      host.trace := host.trace + [l];
    }

    /**
     A point where others may run: any number of files appended to, moved away or created.
     The body does nothing; callers know no more than the contract.
     */
    method Preempted()
      requires Valid()
      modifies host`world, host`trace
      ensures Valid() && Grows(old(host.world), host.world) && old(host.trace) <= host.trace
    {
      SameGrows(host.world, host.world);
    }

    /**
     Consumes whatever has been appended to one file since the last pass, and says which file
     that was and how its reads fell; one without a pass was reclaimed before or was not there.
     `calm` says that nothing outside fails: no cancellation, no read or write error, no refusal
     by the sink.
     */
    method ReadFile(path: string, calm: bool) returns (failed: bool, ghost pass: Option<Pass>)
      requires Valid() && reading.None? && cfg.chunkSize > 0
      modifies this`files, this`reducer, this`reading, host`world, host`log, host`trace
      ensures Valid() && reading.None? && Grows(old(host.world), host.world) && old(host.trace) <= host.trace
      ensures old(Delivered()) <= Delivered()
      ensures SameBut(old(files), files, path) && (calm ==> !failed)
      ensures !failed && pass.Some? ==>
                path in files && pass.value.at >= |old(host.trace)|
                && DidRead(host.world, Delivered(), host.trace, path, pass.value, files[path], c)
      ensures !failed && pass.Some? && Consumed(files, path) ==> files[path].offset >= pass.value.size
      ensures pass.None? ==> files == old(files)
      ensures StateOf(old(files), path).deleted ==> pass.None?
      ensures pass.Some? ==> Began(host.world, pass.value, StateOf(old(files), path))
      ensures pass.None? || pass.value.from == pass.value.size ==>
                reducer == old(reducer) && host.log == old(host.log) && (pass.Some? ==> pass.value.ends == [])
      ensures !failed && pass.None? ==>
                StateOf(old(files), path).deleted || Absent(host.trace, |old(host.trace)|, path, c)
    {
      hide Next, Exec, Resume, SameBut, Grows, DidRead, BackedBy, Recognised;
      SameButItself(files, path);
      SameGrows(host.world, host.world);
      failed, pass := false, None;
      var st := StateOf(files, path);
      if st.deleted {
        return;
      }
      Preempted();
      ReachedDir(host.trace, Now(), c);
      if path !in host.world.dir {
        AbsentNow(host.trace, |old(host.trace)|, path, Now(), c);
        return;
      }
      ghost var before, found, sofar := Now(), host.world, host.trace;
      var ino := host.world.dir[path];
      var size := |host.world.files[ino].content|;
      ReachedResume(sofar, before, path, c);
      st := Identify(st, host.world.files[ino].content);
      assert host.world.files[ino].content[..size] == host.world.files[ino].content;
      if size == st.offset {
        files := files[path := st];
        TookBegin(before, path);
        SameButOne(old(files), path, st);
        pass := Some(Pass(|sofar|, ino, st.offset, size, []));
        NothingRead(sofar, host.trace, before, path, pass.value, st, c);
        return;
      }
      reading := Some(Reading(path, ino, st, size, [], st.offset));
      TookBegin(before, path);
      ghost var ends;
      failed, ends := ReadOn(path, ino, st, size, calm);
      GrowsTwice(old(host.world), found, host.world);
      pass := Some(Pass(|sofar|, ino, st.offset, size, ends));
      BeganStands(found, host.world, pass.value, StateOf(old(files), path));
      if !failed {
        ReadOnDid(sofar, host.trace, before, path, host.world, Delivered(), pass.value, files[path], c);
      }
    }

    /**
     Identifies a file by content, not by name: a different head is another file, and a size
     below the offset a truncated one.
     */
    method Identify(recorded: FileState, content: Bytes) returns (st: FileState)
      ensures st == Resume(recorded, content)
      ensures st.offset == if Recognised(recorded, content) then recorded.offset else 0
    {
      ResumesExactlyWhen(recorded, content);
      st := recorded;
      var fp := Fingerprint(content);
      if st.fingerprint != [] && fp != [] && fp != st.fingerprint {
        st := NEW_FILE;
      } else if |content| < st.offset {
        st := NEW_FILE;
      }
      st := st.(fingerprint := fp);
    }

    /**
     The read loop of one open file, from where it resumes to its end.  The writer may append
     between any two reads, any finite number of times.
     */
    method ReadOn(path: string, ino: nat, resumed: FileState, size: nat, calm: bool)
        returns (failed: bool, ghost ends: seq<nat>)
      requires Valid() && cfg.chunkSize > 0 && reading == Some(Reading(path, ino, resumed, size, [], resumed.offset))
      requires ino < |host.world.files| && resumed.offset <= |host.world.files[ino].content|
      requires size <= |host.world.files[ino].content|
      modifies this`files, this`reducer, this`reading, host`world, host`log, host`trace
      ensures Valid() && reading.None? && Grows(old(host.world), host.world) && old(host.trace) <= host.trace
      ensures old(Delivered()) <= Delivered()
      ensures SameBut(old(files), files, path) && (calm ==> !failed)
      ensures !failed ==>
                && path in files && files[path].size == size
                && BackedBy(host.world, Delivered(), ino, path, files[path], c)
                && ReadsLead(host.world.files[ino].content, Pass(0, ino, resumed.offset, size, ends), files[path].offset, c)
    {
      hide Next, DecodeOne, DecodeAll, Exec, Grows, SameBut, BackedBy, PassTo, Resume;
      var st, pos: nat, progress := resumed, resumed.offset, Reads;
      var buf: Bytes := [];
      var interruptions: nat :| true;
      ghost var was, from := files, resumed.offset;
      ends := [];
      SameGrows(host.world, host.world);
      SameButItself(files, path);
      NoReadYet(host.world.files[ino].content, from, c);
      while progress.Reads?
        invariant Valid() && old(host.trace) <= host.trace && Grows(old(host.world), host.world)
        invariant old(Delivered()) <= Delivered()
        invariant reading == if progress.Reads? || progress.AtEnd? then Some(Reading(path, ino, st, size, buf, pos)) else None
        invariant ino < |host.world.files| && size <= |host.world.files[ino].content| && from <= |host.world.files[ino].content|
        invariant progress.Corrupted? ==> path in files && files[path] == st.(size := size)
                                          && BackedBy(host.world, Delivered(), ino, path, st, c)
        invariant progress.AtEnd? ==> pos == |host.world.files[ino].content|
        invariant !progress.Stopped? ==> ReadSoFar(host.world.files[ino].content, from, ends, st.offset, pos, progress.Corrupted?, c)
        invariant SameBut(was, files, path) && (calm ==> !progress.Stopped?)
        decreases progress.Reads?, interruptions, if ino < |host.world.files| then |host.world.files[ino].content| - pos else 0
      {
        ghost var earlier, sofar := host.world, files;
        if interruptions > 0 {
          Preempted();
          interruptions := interruptions - 1;
          FileGrows(earlier, host.world, ino);
          GrowsTwice(old(host.world), earlier, host.world);
          ReadSoFarStands(earlier.files[ino].content, host.world.files[ino].content, from, ends, st.offset, pos, c);
        }
        ReachedReading(host.trace, Now(), reading.value, c);
        ghost var st0, pos0 := st, pos;
        st, buf, pos, progress := ReadOnce(path, ino, st, size, buf, pos, calm);
        SameButTwice(was, sofar, files, path);
        if progress.Reads? || progress.Corrupted? {
          ReadOneMore(host.world.files[ino].content, from, ends, st0.offset, pos0, st.offset, pos, progress.Corrupted?, c);
          ends := ends + [pos];
        }
      }
      if progress.AtEnd? {
        ghost var sofar := files;
        CloseFile(path, ino, st, size, buf, pos);
        SameButTwice(was, sofar, files, path);
      }
      failed := progress.Stopped?;
      if !failed {
        BackedAnySize(host.world, Delivered(), ino, path, st, size, c);
        SoFarLeads(host.world.files[ino].content, from, ends, st.offset, pos, progress.Corrupted?, ino, size, c);
      }
    }

    /** Leaves a file that was read to its end. */
    method CloseFile(path: string, ino: nat, st: FileState, size: nat, buf: Bytes, pos: nat)
      requires Valid() && reading == Some(Reading(path, ino, st, size, buf, pos))
      requires ino < |host.world.files| && pos == |host.world.files[ino].content|
      modifies this`files, this`reading, host`trace
      ensures Valid() && reading.None? && old(host.trace) <= host.trace
      ensures files == old(files)[path := st.(size := size)] && SameBut(old(files), files, path)
      ensures BackedBy(host.world, Delivered(), ino, path, st, c)
    {
      hide Next, DecodeOne, DecodeAll, Exec, SameBut, BackedBy;
      ghost var before := Now();
      ReachedReading(host.trace, before, reading.value, c);
      files := files[path := st.(size := size)];
      reading := None;
      TookFinish(before);
      SameButOne(old(files), path, st.(size := size));
    }

    /** One turn of the loop: read, decode, reduce, emit, advance. */
    method ReadOnce(path: string, ino: nat, from: FileState, size: nat, carry: Bytes, at: nat, calm: bool)
        returns (st: FileState, buf: Bytes, pos: nat, progress: Progress)
      requires Valid() && cfg.chunkSize > 0 && reading == Some(Reading(path, ino, from, size, carry, at))
      requires ino < |host.world.files| && from.offset <= at <= |host.world.files[ino].content|
      requires carry == host.world.files[ino].content[from.offset..at]
      modifies this`files, this`reducer, this`reading, host`log, host`trace
      ensures Valid() && old(host.trace) <= host.trace && old(Delivered()) <= Delivered()
      ensures reading == if progress.Reads? || progress.AtEnd? then Some(Reading(path, ino, st, size, buf, pos)) else None
      ensures calm ==> !progress.Stopped?
      ensures progress.AtEnd? ==> st == from && pos == at == |host.world.files[ino].content|
      ensures progress.Reads? || progress.Corrupted? ==> at < pos <= |host.world.files[ino].content|
      ensures progress.Reads? || progress.Corrupted? ==>
                var res := DecodeAll(host.world.files[ino].content[from.offset..pos], c.maxMember);
                res.failed == progress.Corrupted?
                && st == if res.failed then from else from.(offset := from.offset + res.consumed)
      ensures progress.Corrupted? ==> path in files && files[path] == st.(size := size)
                                      && BackedBy(host.world, Delivered(), ino, path, st, c)
      ensures SameBut(old(files), files, path)
    {
      hide Next, DecodeOne, DecodeAll, Exec, SameBut, BackedBy, Resume;
      SameButItself(files, path);
      ghost var before := Now();
      st, buf, pos := from, carry, at;
      var stopped: bool := *;
      if stopped && !calm {
        // Cancelled, or the read failed.
        reading := None;
        TookAbort(before);
        return st, buf, pos, Stopped;
      }
      if pos == |host.world.files[ino].content| {
        return st, buf, pos, AtEnd;
      }
      var n: nat;
      buf, n := ReadSome(ino, pos, carry);
      pos := pos + n;
      var res := DecodeMembers(buf, c.maxMember);
      assert buf == host.world.files[ino].content[from.offset..pos];
      ReachedReading(host.trace, before, before.mem.value.reading.value, c);
      if res.failed {
        GiveUp(path, ino, from, size, carry, at, n);
        return st, buf, pos, Corrupted;
      }
      ConsumedFits(before, before.mem.value.reading.value, n, c);
      if res.consumed > 0 {
        var ok;
        st, ok := Deliver(path, ino, st, size, buf, pos, n, res, calm);
        buf := buf[res.consumed..];
        return st, buf, pos, if ok then Reads else Stopped;
      }
      CarryOn(path, ino, from, size, carry, at, n);
      progress := Reads;
    }

    /** Some bytes more, at least one. */
    method ReadSome(ino: nat, pos: nat, carry: Bytes) returns (buf: Bytes, n: nat)
      requires ino < |host.world.files| && pos < |host.world.files[ino].content| && cfg.chunkSize > 0
      ensures 0 < n && pos + n <= |host.world.files[ino].content|
      ensures buf == carry + host.world.files[ino].content[pos..pos + n]
    {
      var most := Min(cfg.chunkSize, |host.world.files[ino].content| - pos);
      n :| 0 < n <= most;
      buf := carry + host.world.files[ino].content[pos..pos + n];
    }

    /** Keeps what was read for the next turn: no member is complete yet. */
    method CarryOn(path: string, ino: nat, from: FileState, size: nat, carry: Bytes, at: nat, ghost n: nat)
      requires Valid() && reading == Some(Reading(path, ino, from, size, carry, at))
      requires ino < |host.world.files| && 0 < n && at + n <= |host.world.files[ino].content|
      requires var res := DecodeAll(carry + host.world.files[ino].content[at..at + n], c.maxMember);
               !res.failed && res.consumed == 0
      modifies this`reading, host`trace
      ensures Valid() && old(host.trace) <= host.trace
      ensures reading == Some(Reading(path, ino, from, size, carry + host.world.files[ino].content[at..at + n], at + n))
    {
      hide Next, DecodeOne, DecodeAll, Exec, Resume;
      ghost var before := Now();
      reading := Some(Reading(path, ino, from, size, carry + host.world.files[ino].content[at..at + n], at + n));
      ChunkTaken(before, n, 0, true);
    }

    /** Leaves a file whose next member is corrupt; its offset stays. */
    method GiveUp(path: string, ino: nat, from: FileState, size: nat, carry: Bytes, at: nat, ghost n: nat)
      requires Valid() && reading == Some(Reading(path, ino, from, size, carry, at))
      requires ino < |host.world.files| && 0 < n && at + n <= |host.world.files[ino].content|
      requires DecodeAll(carry + host.world.files[ino].content[at..at + n], c.maxMember).failed
      modifies this`files, this`reading, host`trace
      ensures Valid() && old(host.trace) <= host.trace && reading.None?
      ensures files == old(files)[path := from.(size := size)] && SameBut(old(files), files, path)
    {
      hide Next, DecodeOne, DecodeAll, Exec, SameBut, Resume;
      ghost var before := Now();
      files := files[path := from.(size := size)];
      SameButOne(old(files), path, from.(size := size));
      reading := None;
      ChunkTaken(before, n, 0, true);
    }

    /** Puts decoded members through the reducer and the sink, and advances only if the sink took them. */
    method Deliver(path: string, ino: nat, from: FileState, size: nat, buf: Bytes, pos: nat, ghost n: nat, res: Decoded, calm: bool)
        returns (st: FileState, ok: bool)
      requires Valid() && ino < |host.world.files| && 0 < n <= pos - from.offset && pos <= |host.world.files[ino].content|
      requires res == DecodeAll(buf, c.maxMember) && !res.failed && 0 < res.consumed <= pos - from.offset
      requires |buf| >= n && buf[|buf| - n..] == host.world.files[ino].content[pos - n..pos]
      requires reading == Some(Reading(path, ino, from, size, buf[..|buf| - n], pos - n))
      modifies this`files, this`reducer, this`reading, host`log, host`trace
      ensures Valid() && old(host.trace) <= host.trace && old(Delivered()) <= Delivered()
      ensures calm ==> ok
      ensures ok ==> st == from.(offset := from.offset + res.consumed)
      ensures reading == if ok then Some(Reading(path, ino, st, size, buf[res.consumed..], pos)) else None
      ensures SameBut(old(files), files, path)
    {
      hide Next, DecodeOne, DecodeAll, Exec, SameBut;
      ghost var before := Now();
      var content := host.world.files[ino].content;
      assert buf[..|buf| - n] + content[pos - n..pos] == buf;
      var batch := Delivery(content[..from.offset + res.consumed], from.offset);
      reducer := Fed(reducer, batch);
      var turns: nat :| true;
      var accepted: bool := *;
      if calm {
        accepted := true;
      }
      if turns > 0 && !accepted {
        reading := None;
        ChunkTaken(before, n, turns, accepted);
        SameButItself(files, path);
        return from, false;
      }
      // The sink has the turns, so their bytes are done with.
      st := from.(offset := from.offset + res.consumed);
      files := files[path := st];
      SameButOne(old(files), path, st);
      host.log := host.log + {batch};
      reading := Some(Reading(path, ino, st, size, buf[res.consumed..], pos));
      ChunkTaken(before, n, turns, accepted);
      ok := true;
    }

    // ---- Saving and reclaiming ----------------------------------------------------------

    /** Old tombstones, dropped. */
    method PruneFileTombstones(today: int)
      modifies this`files
      ensures files == PruneTombstones(old(files), today, c)
    {
      var left := files.Keys;
      while left != {}
        invariant left <= files.Keys <= old(files).Keys
        invariant forall n | n in files :: files[n] == old(files)[n]
        invariant forall n | n in old(files) && n !in left ::
                    n in files <==> !(old(files)[n].deleted && c.dayOf(n).Some? && c.dayOf(n).value < today - 3)
        decreases left
      {
        var name :| name in left;
        left := left - {name};
        if !files[name].deleted {
          continue;
        }
        var day := c.dayOf(name);
        if day.None? || !(day.value < today - 3) {
          continue;
        }
        files := files - {name};
      }
      assert files == PruneTombstones(old(files), today, c);
    }

    /**
     Saves, writing only what differs from what was last written.  After a
     save that did not fail, disk and memory agree either way.
     */
    method Save(today: int, now: int, calm: bool) returns (failed: bool)
      requires Valid() && reading.None?
      modifies this`files, this`saved, this`lastSaved, this`lastSaveAt, host`disk, host`trace
      ensures Valid() && reading.None? && old(host.trace) <= host.trace
      ensures files == PruneTombstones(old(files), today, c) && saved == reducer && (calm ==> !failed)
      ensures !failed ==> host.disk.Some? && host.disk.value.content == Content(files, reducer) && lastSaveAt == Some(now)
      ensures !failed ==> lastSaved == Some(Content(files, reducer))
      ensures failed ==> host.disk == old(host.disk) && lastSaved == old(lastSaved) && lastSaveAt == old(lastSaveAt)
      ensures old(lastSaved) == Some(Content(files, reducer)) ==> host.disk == old(host.disk) && !failed
    {
      hide Next, Exec, PruneTombstones;
      ghost var before := Now();
      ReachedSaved(host.trace, before, c);
      PruneFileTombstones(today);
      saved := reducer;
      var sum := Content(files, saved);
      failed := false;
      if lastSaved == Some(sum) {
        lastSaveAt := Some(now);
        TookSave(before, today, now, false);
        return;
      }
      var written: bool := *;
      if !written && !calm {
        TookSave(before, today, now, false);
        return true;
      }
      host.disk := Some(Checkpoint(sum, now));
      lastSaved := Some(sum);
      lastSaveAt := Some(now);
      TookSave(before, today, now, true);
    }

    ghost method TookSave(before: Sys, today: int, now: int, written: bool)
      requires Exec(START, host.trace, c) == Some(before) && before.mem.Some? && before.mem.value.reading.None?
      requires SaveTo(before, before.mem.value, today, now, written, c) == Now()
      modifies host`trace
      ensures Valid() && old(host.trace) <= host.trace
    {
      hide SaveTo;
      Took(TailModel.Save(today, now, written), before);
    }

    predicate SaveDue(now: int)
      reads this
    {
      lastSaveAt.None? || now - lastSaveAt.value >= cfg.interval
    }

    /** The rules of this watcher on one day. */
    function PolicyOf(today: int, aged: (nat, nat) -> bool): Policy {
      Policy(cfg.retainDays, cfg.deleteAfter, c.dayOf, today, aged)
    }

    /**
     The retention rule that selects a file, if one does.  The age is that of the file which the
     name stands for now; one that is gone has none.
     */
    method Reason(name: string, today: int, aged: (nat, nat) -> bool) returns (rule: Option<Rule>)
      ensures rule.Some? <==> PolicyOf(today, aged).Selects(name, host.world)
      ensures rule == Some(RetainDays) <==> PolicyOf(today, aged).Expired(name)
    {
      rule := None;
      if cfg.retainDays > 0 {
        var day := c.dayOf(name);
        if day.Some? && day.value < today - (cfg.retainDays - 1) {
          rule := Some(RetainDays);
        }
      }
      if rule.None? && cfg.deleteAfter {
        var found := PolicyOf(today, aged).Old(name, host.world);
        if found {
          rule := Some(DeleteAfter);
        }
      }
    }

    /**
     Tries to remove exactly the files that are due.  `looked` says what the directory was when
     each name was looked at.
     */
    method Reclaim(names: seq<string>, today: int, now: int, aged: (nat, nat) -> bool)
        returns (ghost looked: seq<World>, ghost removed: map<string, Removal>)
      requires Valid() && reading.None?
      modifies this`files, this`saved, this`lastSaved, this`lastSaveAt, host`world, host`disk, host`trace, host`tried
      ensures Valid() && reading.None? && Grows(old(host.world), host.world) && old(host.trace) <= host.trace
      ensures host.tried == old(host.tried) + PolicyOf(today, aged).Due(names, old(files), looked)
      ensures |names| < 2 || PolicyOf(today, aged).Off() || |looked| == |names| - 1
      ensures forall i | 0 <= i < |looked| :: WasWorld(host.trace, |old(host.trace)|, looked[i], c)
      ensures removed.Keys <= PolicyOf(today, aged).Due(names, old(files), looked)
      ensures forall n | n in removed :: RemovedAt(host.trace, |old(host.trace)|, n, removed[n], c)
      ensures forall n | n in removed :: Picked(host.trace, n, removed[n], PolicyOf(today, aged), c)
      ensures forall n | n in files :: n in old(files) && files[n] == old(files)[n].(deleted := files[n].deleted)
                                       && (n !in removed ==> files[n] == old(files)[n])
      ensures |names| < 2 || (cfg.retainDays == 0 && !cfg.deleteAfter) ==> removed == map[] && files == old(files)
      ensures lastSaveAt == old(lastSaveAt) || lastSaveAt == Some(now)
    {
      hide Next, Exec, PruneTombstones, Grows, Consumed, RemovedAt, Picked, WasWorld, Policy.Selects, Policy.DueAmong;
      looked, removed := [], map[];
      SameGrows(host.world, host.world);
      NothingDueYet(PolicyOf(today, aged), names, files);
      if |names| < 2 || (!cfg.deleteAfter && cfg.retainDays == 0) {
        return;
      }
      looked, removed := ReclaimAll(names[..|names| - 1], today, aged);
      PrunedSame(files, today, c);
      ghost var sofar := host.trace;
      var failed := Save(today, now, false);
      SeenStands(sofar, host.trace, |old(host.trace)|, looked, removed, PolicyOf(today, aged), c);
    }

    /** All but the last name. */
    method ReclaimAll(names: seq<string>, today: int, aged: (nat, nat) -> bool)
        returns (ghost looked: seq<World>, ghost removed: map<string, Removal>)
      requires Valid() && reading.None?
      modifies this`files, host`world, host`trace, host`tried
      ensures Valid() && reading.None? && Grows(old(host.world), host.world) && old(host.trace) <= host.trace
      ensures |looked| == |names| && Seen(host.trace, |old(host.trace)|, looked, removed, PolicyOf(today, aged), c)
      ensures host.tried == old(host.tried) + PolicyOf(today, aged).DueAmong(names, old(files), looked)
      ensures removed.Keys <= PolicyOf(today, aged).DueAmong(names, old(files), looked)
      ensures files.Keys == old(files).Keys
      ensures forall n | n in files :: files[n] == if n in removed then old(files)[n].(deleted := true) else old(files)[n]
    {
      hide Next, Exec, Grows, Consumed, RemovedAt, Picked, WasWorld, Policy.Selects, Policy.DueAmong;
      ghost var policy := PolicyOf(today, aged);
      looked, removed := [], map[];
      SameGrows(host.world, host.world);
      NothingDueYet(policy, names, files);
      for i := 0 to |names|
        invariant Valid() && reading.None? && Grows(old(host.world), host.world) && old(host.trace) <= host.trace
        invariant |looked| == i && Seen(host.trace, |old(host.trace)|, looked, removed, policy, c)
        invariant host.tried == old(host.tried) + policy.DueAmong(names[..i], old(files), looked)
        invariant removed.Keys <= policy.DueAmong(names[..i], old(files), looked)
        invariant Marked(old(files), files, removed.Keys)
      {
        hide Seen, Marked;
        ghost var earlier, before, was, gone := host.world, files, looked, removed.Keys;
        var dropped;
        dropped, looked, removed := ReclaimNext(names[i], today, aged, |old(host.trace)|, looked, removed);
        GrowsTwice(old(host.world), earlier, host.world);
        OneMoreName(policy, names, i, old(files), before, files, was, looked[i], gone, dropped);
      }
      assert names[..|names|] == names;
    }

    /** One name; others may run before it is looked at. */
    method ReclaimNext(name: string, today: int, aged: (nat, nat) -> bool, ghost from: nat, ghost was: seq<World>,
                       ghost gone: map<string, Removal>)
        returns (dropped: bool, ghost looked: seq<World>, ghost removed: map<string, Removal>)
      requires Valid() && reading.None? && from <= |host.trace|
      requires Seen(host.trace, from, was, gone, PolicyOf(today, aged), c)
      modifies this`files, host`world, host`trace, host`tried
      ensures Valid() && reading.None? && Grows(old(host.world), host.world) && old(host.trace) <= host.trace
      ensures |looked| == |was| + 1 && looked == was + [looked[|was|]]
      ensures Seen(host.trace, from, looked, removed, PolicyOf(today, aged), c)
      ensures var due := Consumed(old(files), name) && PolicyOf(today, aged).Selects(name, looked[|was|]);
              host.tried == old(host.tried) + (if due then {name} else {}) && (dropped ==> due)
      ensures removed.Keys == gone.Keys + if dropped then {name} else {}
      ensures files == if dropped then old(files)[name := old(files)[name].(deleted := true)] else old(files)
    {
      hide Next, Exec, Grows, Policy.Selects, RemovedAt, Picked, WasWorld;
      ghost var policy := PolicyOf(today, aged);
      SameGrows(host.world, host.world);
      Preempted();
      ghost var sofar, between := host.trace, host.world;
      WorldNow(sofar, from, Now(), c);
      SeenStands(old(host.trace), sofar, from, was, gone, policy, c);
      ghost var removal;
      dropped, removal := ReclaimOne(name, today, aged);
      GrowsTwice(old(host.world), between, host.world);
      looked, removed := was + [between], gone;
      SeenStands(sofar, host.trace, from, looked, removed, policy, c);
      if dropped {
        RemovedAtStands(host.trace, host.trace, from, |sofar|, name, removal, c);
        removed := gone[name := removal];
      }
    }

    method ReclaimOne(name: string, today: int, aged: (nat, nat) -> bool) returns (gone: bool, ghost removal: Removal)
      requires Valid() && reading.None?
      modifies this`files, host`world, host`trace, host`tried
      ensures Valid() && reading.None? && Grows(old(host.world), host.world) && old(host.trace) <= host.trace
      ensures var due := Consumed(old(files), name) && PolicyOf(today, aged).Selects(name, old(host.world));
              host.tried == old(host.tried) + (if due then {name} else {}) && (gone ==> due)
      ensures files == if gone then old(files)[name := old(files)[name].(deleted := true)] else old(files)
      ensures gone ==> RemovedAt(host.trace, |old(host.trace)|, name, removal, c)
      ensures gone ==> Picked(host.trace, name, removal, PolicyOf(today, aged), c)
    {
      hide Next, Exec, Grows, Policy.Selects;
      gone, removal := false, Removal(0, 0);
      SameGrows(host.world, host.world);
      if name !in files || files[name].deleted || files[name].offset < files[name].size || files[name].size == 0 {
        return;
      }
      var rule := Reason(name, today, aged);
      if rule.None? {
        return;
      }
      host.tried := host.tried + {name};
      var refused: bool := *;
      if refused || name !in host.world.dir {
        return;
      }
      ghost var before := Now();
      host.world := World(host.world.files, host.world.dir - {name});
      files := files[name := files[name].(deleted := true)];
      TookReclaim(before, name);
      SameGrows(before.world, host.world);
      assert host.trace[..|old(host.trace)|] == old(host.trace);
      gone, removal := true, Removal(|old(host.trace)|, before.world.dir[name]);
    }

    ghost method TookReclaim(before: Sys, path: string)
      requires Exec(START, host.trace, c) == Some(before) && before.mem.Some? && before.mem.value.reading.None?
      requires Consumed(before.mem.value.files, path) && path in before.world.dir
      requires var m := before.mem.value;
               Now() == before.(mem := Some(m.(files := m.files[path := m.files[path].(deleted := true)])),
                                world := World(before.world.files, before.world.dir - {path}))
      modifies host`trace
      ensures Valid() && host.trace == old(host.trace) + [TailModel.Reclaim(path)]
    {
      Took(TailModel.Reclaim(path), before);
    }

    // ---- One pass -----------------------------------------------------------------------

    /** The archive names, in chronological order. */
    method ListArchives() returns (names: seq<string>)
      ensures forall n :: n in names <==> n in host.world.dir
      ensures forall i, j | 0 <= i < j < |names| :: Less(names[i], names[j])
      ensures Distinct(names)
    {
      hide Less;
      names := [];
      var left := host.world.dir.Keys;
      while left != {}
        invariant left <= host.world.dir.Keys
        invariant forall n :: n in host.world.dir <==> n in left || n in names
        invariant forall i, j | 0 <= i < j < |names| :: Less(names[i], names[j])
        invariant forall i, n | 0 <= i < |names| && n in left :: Less(names[i], n)
        decreases left
      {
        var first := FirstName(left);
        names, left := names + [first], left - {first};
      }
      forall i, j | 0 <= i < j < |names|
        ensures names[i] != names[j]
      {
        LessAsymmetric(names[i], names[j]);
      }
    }

    method FirstName(names: set<string>) returns (first: string)
      requires names != {}
      ensures first in names && forall n | n in names && n != first :: Less(first, n)
    {
      hide Less;
      first :| first in names;
      var left := names - {first};
      while left != {}
        invariant first in names && first !in left && left <= names
        invariant forall n | n in names && n !in left && n != first :: Less(first, n)
        decreases left
      {
        var n :| n in left;
        LessTotal(n, first);
        if Less(n, first) {
          forall m | m in names && m !in left && m != first
            ensures Less(n, m)
          {
            LessTransitive(n, first, m);
          }
          first := n;
        }
        left := left - {n};
      }
    }

    /** Shrinks the reducer's state; what it gives up is emitted once, whatever comes of it. */
    method EvictReducer(calm: bool) returns (refused: bool)
      requires Valid() && reading.None?
      modifies this`reducer, host`trace
      ensures Valid() && old(host.trace) <= host.trace && (calm ==> !refused) && reducer == Evicted(old(reducer))
      ensures Delivered() == old(Delivered())
    {
      ghost var before := Now();
      reducer := Evicted(reducer);
      Took(Evict, before);
      refused := *;
      refused := refused && !calm;
    }

    /**
     A pass over all files: reading, eviction, saving when due, reclaiming.  Every listed name is
     read to the size its file was found with, unless it is gone or was reclaimed before; and
     of every file then removed it is said whether this pass read it, and what that means.
     */
    method Poll(today: int, now: int, aged: (nat, nat) -> bool, calm: bool)
        returns (failed: bool, ghost names: seq<string>, ghost passes: map<string, Pass>,
                 ghost passed: map<string, FileState>, ghost looked: seq<World>, ghost removed: map<string, Removal>)
      requires Valid() && reading.None? && cfg.chunkSize > 0
      modifies this, host
      ensures Valid() && reading.None? && old(host.trace) <= host.trace
      ensures calm ==> !failed
      ensures !failed && (old(lastSaveAt).None? || now - old(lastSaveAt).value >= cfg.interval) ==> lastSaveAt == Some(now)
      ensures forall n :: n in names <==> n in old(host.world.dir)
      ensures forall i, j | 0 <= i < j < |names| :: Less(names[i], names[j])
      ensures forall n | n in passes && n in files :: DidRead(host.world, Delivered(), host.trace, n, passes[n], files[n], c)
      ensures forall n | n in passes :: Began(host.world, passes[n], StateOf(old(files), n))
      ensures !failed ==> forall n | n in names && n !in passes ::
                StateOf(old(files), n).deleted || Absent(host.trace, |old(host.trace)|, n, c)
      ensures host.tried == old(host.tried) + if failed then {} else PolicyOf(today, aged).Due(names, passed, looked)
      ensures failed || |names| < 2 || PolicyOf(today, aged).Off() || |looked| == |names| - 1
      ensures forall i | 0 <= i < |looked| :: WasWorld(host.trace, |old(host.trace)|, looked[i], c)
      ensures removed.Keys <= if failed then {} else PolicyOf(today, aged).Due(names, passed, looked)
      ensures forall n | n in removed :: Picked(host.trace, n, removed[n], PolicyOf(today, aged), c)
      ensures forall n | n in removed ::
                n in passed
                && Accounted(host.world, Delivered(), host.trace, |old(host.trace)|, n, passes, removed[n], passed[n].offset, c)
      ensures OnlyNewestCreated(host.trace[|old(host.trace)|..], names) ==>
                forall n | n in removed :: AllDelivered(host.world, Delivered(), n, passes, removed[n], passed, c)
      ensures cfg.retainDays == 0 && NoneAged(aged, |old(host.world.files)|) ==>
                forall n | n in removed :: AllDelivered(host.world, Delivered(), n, passes, removed[n], passed, c)
    {
      hide Next, Exec, Less, Grows, DidRead, Absent, StateOf, Consumed, Accounted, RemovedAt, OnlyNewestCreated, Picked,
           WasWorld, Policy.Due, Began;
      failed, passes, passed, looked, removed := false, map[], map[], [], map[];
      var listed := ListArchives();
      names := listed;
      failed, passes := ReadAll(listed, calm);
      if failed {
        return;
      }
      ghost var read, world, trace, accepted := files, host.world, host.trace, Delivered();
      SameGrows(world, world);
      failed := Settle(today, now, calm);
      PassStands(read, files, world, host.world, accepted, Delivered(), trace, host.trace, passes, c);
      if failed {
        return;
      }
      passed := files;
      ghost var settled, kept := host.trace, host.world;
      looked, removed := Reclaim(listed, today, now, aged);
      WorldsLater(host.trace, |old(host.trace)|, |settled|, looked, c);
      AllBeganStand(kept, host.world, passes, old(files));
      PassStands(read, files, world, host.world, accepted, Delivered(), trace, host.trace, passes, c);
      AbsencesStay(trace, host.trace, |old(host.trace)|, |trace|, c);
      DueIs(PolicyOf(today, aged), listed, passed, looked);
      AllAccounted(old(files), read, passed, world, host.world, accepted, Delivered(), |old(host.trace)|, trace, settled,
                   host.trace, passes, removed, c);
      NewestIsSafe(listed, host.trace, |old(host.trace)|, host.world, Delivered(), passes, removed, passed, c);
      FreshIsSafe(old(host.trace), old(host.world), host.trace, host.world, Delivered(), passes, removed, passed,
                  PolicyOf(today, aged), c);
    }

    /** The reading half of a pass. */
    method ReadAll(listed: seq<string>, calm: bool) returns (failed: bool, ghost passes: map<string, Pass>)
      requires Valid() && reading.None? && cfg.chunkSize > 0
      requires Distinct(listed)
      modifies this`files, this`reducer, this`reading, host`world, host`log, host`trace
      ensures Valid() && reading.None? && Grows(old(host.world), host.world) && old(host.trace) <= host.trace
      ensures old(Delivered()) <= Delivered() && (calm ==> !failed)
      ensures forall n | n in passes ::
                && n in files && |old(host.trace)| <= passes[n].at
                && DidRead(host.world, Delivered(), host.trace, n, passes[n], files[n], c)
                && (Consumed(files, n) ==> files[n].offset >= passes[n].size)
      ensures forall n | n in passes :: Began(host.world, passes[n], StateOf(old(files), n))
      ensures !failed ==> forall n | n in files && n !in passes :: n in old(files) && files[n] == old(files)[n]
      ensures !failed ==> forall n | n in listed && n !in passes ::
                StateOf(old(files), n).deleted || Absent(host.trace, |old(host.trace)|, n, c)
    {
      hide Next, Exec, Grows, DidRead, Absent, Consumed, Began;
      failed, passes := false, map[];
      SameGrows(host.world, host.world);
      for i := 0 to |listed|
        invariant Valid() && reading.None? && Grows(old(host.world), host.world) && old(host.trace) <= host.trace
        invariant old(Delivered()) <= Delivered()
        invariant forall n | n in passes ::
                    && n in files && n in listed[..i] && |old(host.trace)| <= passes[n].at
                    && DidRead(host.world, Delivered(), host.trace, n, passes[n], files[n], c)
                    && (Consumed(files, n) ==> files[n].offset >= passes[n].size)
        invariant forall n | n in passes :: Began(host.world, passes[n], StateOf(old(files), n))
        invariant forall n | n !in passes :: (n in files <==> n in old(files)) && (n in files ==> files[n] == old(files)[n])
        invariant forall n | n in listed[..i] && n !in passes ::
                    StateOf(old(files), n).deleted || Absent(host.trace, |old(host.trace)|, n, c)
      {
        var cancelled: bool := *;
        if cancelled && !calm {
          return true, passes;
        }
        var path := listed[i];
        assert path !in listed[..i];
        ghost var was, world, trace, accepted := files, host.world, host.trace, Delivered();
        ghost var pass;
        failed, pass := ReadFile(path, calm);
        PassGoesOn(was, files, world, host.world, accepted, Delivered(), trace, host.trace, passes, path, c);
        AbsencesStay(trace, host.trace, |old(host.trace)|, |trace|, c);
        GrowsTwice(old(host.world), world, host.world);
        AllBeganStand(world, host.world, passes, old(files));
        if failed {
          return true, passes;
        }
        if pass.Some? {
          passes := passes[path := pass.value];
        }
        assert listed[..i + 1] == listed[..i] + [path];
      }
      assert listed[..|listed|] == listed;
    }

    /** The middle of a pass: eviction, and the saves it and the clock call for. */
    method Settle(today: int, now: int, calm: bool) returns (failed: bool)
      requires Valid() && reading.None?
      modifies this`files, this`saved, this`reducer, this`lastSaved, this`lastSaveAt, host`disk, host`trace
      ensures Valid() && reading.None? && old(host.trace) <= host.trace && (calm ==> !failed)
      ensures old(Delivered()) <= Delivered()
      ensures forall n | n in files :: n in old(files) && files[n] == old(files)[n]
      ensures !failed && (old(lastSaveAt).None? || now - old(lastSaveAt).value >= cfg.interval) ==>
                host.disk.Some? && host.disk.value.content == Content(files, reducer) && lastSaveAt == Some(now)
    {
      hide Next, Exec, PruneTombstones;
      PrunedSame(files, today, c);
      ghost var trace := host.trace;
      failed := false;
      // Idle responses go once the archive clock has moved past them.
      var idle: bool := *;
      if idle {
        failed := EvictReducer(calm);
        if failed {
          return;
        }
      }
      var settled: bool := *;
      if settled {
        var ignored := EvictReducer(calm);
        failed := Save(today, now, calm);
        if failed {
          return;
        }
      }
      PrunedSame(files, today, c);
      var due := SaveDue(now);
      if due {
        failed := Save(today, now, calm);
      }
    }

    /** A clean shutdown flushes the reducer and saves, whatever the interval. */
    method Shutdown(today: int, now: int, calm: bool) returns (failed: bool)
      requires Valid() && reading.None?
      modifies this, host
      ensures Valid() && reading.None?
      ensures calm ==> !failed
      ensures !failed ==> reducer == Evicted(old(reducer)) && host.disk.Some? && host.disk.value.content == Content(files, reducer)
    {
      hide Next, Exec;
      failed := EvictReducer(calm);
      if !failed {
        failed := Save(today, now, calm);
      }
    }

    ghost method TookBegin(before: Sys, path: string)
      requires Exec(START, host.trace, c) == Some(before) && before.mem.Some? && before.mem.value.reading.None?
      requires path in before.world.dir && before.world.dir[path] < |before.world.files|
      requires Open(before, before.mem.value, path) == Some(Now())
      modifies host`trace
      ensures Valid() && host.trace == old(host.trace) + [Begin(path)]
    {
      hide Open;
      Took(Begin(path), before);
    }

    ghost method ChunkTaken(before: Sys, n: nat, turns: nat, accepted: bool)
      requires Exec(START, host.trace, c) == Some(before)
      requires before.mem.Some? && before.mem.value.reading.Some?
      requires before.mem.value.reading.value.ino < |before.world.files|
      requires ReadChunk(before, before.mem.value, before.mem.value.reading.value, n, turns, accepted, c) == Some(Now())
      modifies host`trace
      ensures Valid() && old(host.trace) <= host.trace
    {
      hide ReadChunk;
      Took(Chunk(n, turns, accepted), before);
    }

    ghost method TookAbort(before: Sys)
      requires Exec(START, host.trace, c) == Some(before) && before.mem.Some? && before.mem.value.reading.Some?
      requires Now() == before.(mem := Some(before.mem.value.(reading := None)))
      modifies host`trace
      ensures Valid() && old(host.trace) <= host.trace
    {
      Took(Abort, before);
    }

    ghost method TookFinish(before: Sys)
      requires Exec(START, host.trace, c) == Some(before) && before.mem.Some? && before.mem.value.reading.Some?
      requires var r := before.mem.value.reading.value;
               && r.ino < |before.world.files| && r.pos == |before.world.files[r.ino].content|
               && Now() == before.(mem := Some(Close(before.mem.value, r)))
      modifies host`trace
      ensures Valid() && old(host.trace) <= host.trace
    {
      Took(Finish, before);
    }
  }

  // ---- How the reads of one file fell -----------------------------------------------------

  /** The reads so far, of a pass that began at `from`: where they led, and whether the last one failed. */
  ghost predicate ReadSoFar(content: Bytes, from: nat, ends: seq<nat>, offset: nat, pos: nat, corrupt: bool, c: Config) {
    && from <= |content| && Ends(from, ends, |content|)
    && offset == PassTo(content, from, ends, c.maxMember) && pos == ReadTo(from, ends)
    && (corrupt ==> Fails(content, from, pos, c.maxMember))
    && (!corrupt ==> !Fails(content, from, pos, c.maxMember))
  }

  lemma NoReadYet(content: Bytes, from: nat, c: Config)
    requires from <= |content|
    ensures ReadSoFar(content, from, [], from, from, false, c)
  {
    NothingFails(content, from, c.maxMember);
  }

  lemma ReadSoFarStands(a: Bytes, b: Bytes, from: nat, ends: seq<nat>, offset: nat, pos: nat, c: Config)
    requires ReadSoFar(a, from, ends, offset, pos, false, c) && a <= b
    ensures ReadSoFar(b, from, ends, offset, pos, false, c)
  {
    hide DecodeAll, PassTo;
    PassToGrows(a, b, from, ends, c.maxMember);
    assert a[from..pos] == b[from..pos];
  }

  lemma ReadOneMore(content: Bytes, from: nat, ends: seq<nat>, offset: nat, pos: nat, next: nat, end: nat, corrupt: bool, c: Config)
    requires ReadSoFar(content, from, ends, offset, pos, false, c) && pos < end <= |content| && offset <= pos
    requires var res := DecodeAll(content[offset..end], c.maxMember);
             res.failed == corrupt && next == if res.failed then offset else offset + res.consumed
    ensures ReadSoFar(content, from, ends + [end], next, end, corrupt, c)
  {
    hide DecodeAll, PassTo;
    OneMoreRead(content, from, ends, end, c.maxMember);
    PassIsLastSound(content, from, ends, c.maxMember);
    assert LastSound(content, from, ends, c.maxMember) == pos;
    DecodedTo(content, from, pos, end, c.maxMember);
  }

  lemma SoFarLeads(content: Bytes, from: nat, ends: seq<nat>, offset: nat, pos: nat, corrupt: bool, ino: nat, size: nat, c: Config)
    requires ReadSoFar(content, from, ends, offset, pos, corrupt, c) && size <= |content| && (corrupt || pos == |content|)
    ensures ReadsLead(content, Pass(0, ino, from, size, ends), offset, c)
  {
    hide DecodeAll, PassTo;
  }

  lemma BackedAnySize(w: World, accepted: set<Delivery>, i: nat, name: string, st: FileState, size: nat, c: Config)
    requires BackedBy(w, accepted, i, name, st, c)
    ensures BackedBy(w, accepted, i, name, st.(size := size), c)
  {
    hide Boundary, Covered;
  }

  /** What a name resumes as is true of the file it stands for. */
  lemma {:induction false} ReachedResume(trace: seq<Label>, s: Sys, path: string, c: Config)
    requires Exec(START, trace, c) == Some(s) && s.mem.Some? && path in s.world.dir
    ensures s.world.dir[path] < |s.world.files| && s.world.files[s.world.dir[path]].name == path
    ensures var i := s.world.dir[path];
            var st := Resume(StateOf(s.mem.value.files, path), s.world.files[i].content);
            BackedBy(s.world, Accepted(s, s.mem.value.reducer), i, path, st, c) && st.offset <= |s.world.files[i].content|
  {
    hide Exec, Resume, BackedBy, Boundary, Covered, DistinctHeads;
    ReachedOk(trace, s, c);
    DirSound(s, c);
    ResumeBacked(s.world, Accepted(s, s.mem.value.reducer), s.mem.value.files, s.world.dir[path], c);
    BackedWithin(s.world, Accepted(s, s.mem.value.reducer), s.world.dir[path], path,
                 Resume(StateOf(s.mem.value.files, path), s.world.files[s.world.dir[path]].content), c);
  }

  lemma BackedWithin(w: World, accepted: set<Delivery>, i: nat, name: string, st: FileState, c: Config)
    requires BackedBy(w, accepted, i, name, st, c)
    ensures i < |w.files| && st.offset <= |w.files[i].content|
  {
    hide Covered;
  }

  lemma {:induction false} OpenedAt(sofar: seq<Label>, trace: seq<Label>, before: Sys, path: string, c: Config)
    requires Exec(START, sofar, c) == Some(before) && path in before.world.dir && sofar + [Begin(path)] <= trace
    ensures |sofar| < |trace| && trace[|sofar|] == Begin(path)
    ensures StandsFor(trace, |sofar|, path, before.world.dir[path], c)
  {
    hide Exec;
    assert trace[..|sofar|] == sofar;
    assert trace[|sofar|] == (sofar + [Begin(path)])[|sofar|];
  }

  /** A file found no longer than it was left needs no reading. */
  lemma {:induction false} NothingRead(sofar: seq<Label>, trace: seq<Label>, before: Sys, path: string, p: Pass, st: FileState, c: Config)
    requires Exec(START, sofar, c) == Some(before) && path in before.world.dir && sofar + [Begin(path)] <= trace
    requires before.mem.Some? && p.ino == before.world.dir[path] && p.at == |sofar| && p.ends == [] && p.from == p.size == st.offset
    requires BackedBy(before.world, Accepted(before, before.mem.value.reducer), p.ino, path, st, c)
    ensures DidRead(before.world, Accepted(before, before.mem.value.reducer), trace, path, p, st, c)
  {
    hide Exec, Covered, Boundary;
    OpenedAt(sofar, trace, before, path, c);
    BackedWithin(before.world, Accepted(before, before.mem.value.reducer), p.ino, path, st, c);
  }

  lemma {:induction false} ReadOnDid(sofar: seq<Label>, trace: seq<Label>, before: Sys, path: string, w: World, accepted: set<Delivery>,
                  p: Pass, st: FileState, c: Config)
    requires Exec(START, sofar, c) == Some(before) && path in before.world.dir && sofar + [Begin(path)] <= trace
    requires p.ino == before.world.dir[path] && p.at == |sofar|
    requires BackedBy(w, accepted, p.ino, path, st, c)
    requires ReadsLead(w.files[p.ino].content, p.(at := 0), st.offset, c)
    ensures DidRead(w, accepted, trace, path, p, st, c)
  {
    hide Exec, Covered, Boundary, PassTo, Fails;
    OpenedAt(sofar, trace, before, path, c);
  }

  lemma DidReadAt(w: World, accepted: set<Delivery>, trace: seq<Label>, name: string, p: Pass, st: FileState, c: Config)
    requires DidRead(w, accepted, trace, name, p, st, c)
    ensures p.at < |trace|
  {
    hide BackedBy, ReadsLead, Exec;
  }

  lemma NotDeleted(was: map<string, FileState>, now: map<string, FileState>, n: string)
    requires n in now && n in was && now[n] == was[n] && !now[n].deleted
    ensures !StateOf(was, n).deleted
  {}

  /** What is known of the looks and removals of a pass so far. */
  ghost predicate Seen(trace: seq<Label>, from: nat, looked: seq<World>, removed: map<string, Removal>, p: Policy, c: Config) {
    && (forall i | 0 <= i < |looked| :: WasWorld(trace, from, looked[i], c))
    && (forall n | n in removed :: RemovedAt(trace, from, n, removed[n], c))
    && (forall n | n in removed :: Picked(trace, n, removed[n], p, c))
  }

  lemma {:induction false} SeenStands(trace: seq<Label>, longer: seq<Label>, from: nat, looked: seq<World>,
                                      removed: map<string, Removal>, p: Policy, c: Config)
    requires trace <= longer && Seen(trace, from, looked, removed, p, c)
    ensures Seen(longer, from, looked, removed, p, c)
  {
    hide RemovedAt, Picked, WasWorld;
    WorldsStand(trace, longer, from, looked, c);
    forall n | n in removed
      ensures RemovedAt(longer, from, n, removed[n], c) && Picked(longer, n, removed[n], p, c)
    {
      RemovedAtStands(trace, longer, from, from, n, removed[n], c);
      PickedStands(trace, longer, n, removed[n], p, c);
    }
  }

  lemma GrowsTwice(u: World, v: World, w: World)
    requires Grows(u, v) && Grows(v, w)
    ensures Grows(u, w)
  {}

  lemma SameButTwice(a: map<string, FileState>, b: map<string, FileState>, c: map<string, FileState>, path: string)
    requires SameBut(a, b, path) && SameBut(b, c, path)
    ensures SameBut(a, c, path)
  {}

  /** What earlier files were read to stays true while another is read. */
  lemma PassGoesOn(was: map<string, FileState>, files: map<string, FileState>, w: World, v: World,
                   a: set<Delivery>, b: set<Delivery>, trace: seq<Label>, longer: seq<Label>,
                   passes: map<string, Pass>, path: string, c: Config)
    requires SameBut(was, files, path) && Grows(w, v) && a <= b && trace <= longer
    ensures forall n | n != path :: (n in files <==> n in was) && (n in files ==> files[n] == was[n])
    ensures forall n | n != path && n in passes && n in was && DidRead(w, a, trace, n, passes[n], was[n], c) ::
              DidRead(v, b, longer, n, passes[n], files[n], c)
    ensures forall n | n != path :: Consumed(files, n) <==> Consumed(was, n)
  {
    hide DidRead, Grows;
    forall n | n != path && n in passes && n in was && DidRead(w, a, trace, n, passes[n], was[n], c)
      ensures DidRead(v, b, longer, n, passes[n], files[n], c)
    {
      DidReadStands(w, v, a, b, trace, longer, n, passes[n], was[n], files[n], c);
    }
  }

  /** Of all that a pass removed it is known whether the pass read it. */
  lemma AllAccounted(was: map<string, FileState>, read: map<string, FileState>, passed: map<string, FileState>,
                     w: World, v: World, a: set<Delivery>, b: set<Delivery>,
                     from: nat, trace: seq<Label>, settled: seq<Label>, longer: seq<Label>,
                     passes: map<string, Pass>, removed: map<string, Removal>, c: Config)
    requires Grows(w, v) && a <= b && from <= |trace| && trace <= settled <= longer
    requires forall n | n in passed :: n in read && passed[n] == read[n]
    requires forall n | n in passes ::
               && n in read && from <= passes[n].at && DidRead(w, a, trace, n, passes[n], read[n], c)
               && (Consumed(read, n) ==> read[n].offset >= passes[n].size)
    requires forall n | n in read && n !in passes :: n in was && read[n] == was[n]
    requires forall n | n in removed && n !in passes :: StateOf(was, n).deleted || Absent(trace, from, n, c)
    requires forall n | n in removed ::
               n in passed && Consumed(passed, n) && !passed[n].deleted && RemovedAt(longer, |settled|, n, removed[n], c)
    ensures forall n | n in removed :: Accounted(v, b, longer, from, n, passes, removed[n], passed[n].offset, c)
  {
    hide Grows, DidRead, Absent, RemovedAt, Accounted;
    forall n | n in removed
      ensures Accounted(v, b, longer, from, n, passes, removed[n], passed[n].offset, c)
    {
      RemovedAtStands(longer, longer, |trace|, |settled|, n, removed[n], c);
      if n in passes {
        DidReadStands(w, v, a, b, trace, longer, n, passes[n], read[n], passed[n], c);
        DidReadAt(w, a, trace, n, passes[n], read[n], c);
      } else {
        NotDeleted(was, passed, n);
      }
      ReadAndRemoved(v, b, trace, longer, from, n, passes, removed[n], passed[n], c);
    }
  }

  /** Of the listed names, only the last is given to a new file. */
  predicate OnlyNewestCreated(labels: seq<Label>, names: seq<string>) {
    forall i | 0 <= i < |labels| && labels[i].Create? && labels[i].name in names :: labels[i].name == names[|names| - 1]
  }

  /** The removed file is the one that was read, and was delivered. */
  ghost predicate AllDelivered(w: World, accepted: set<Delivery>, name: string, passes: map<string, Pass>, r: Removal,
                               passed: map<string, FileState>, c: Config) {
    && name in passes && name in passed && r.ino == passes[name].ino
    && WasDelivered(w, accepted, r.ino, passes[name].size, passed[name].offset, c)
  }

  /** Who only ever writes to the newest name loses nothing to a removal. */
  lemma NewestIsSafe(names: seq<string>, trace: seq<Label>, from: nat, w: World, accepted: set<Delivery>,
                     passes: map<string, Pass>, removed: map<string, Removal>, passed: map<string, FileState>, c: Config)
    requires Distinct(names) && from <= |trace|
    requires forall n | n in removed ::
               n in names && n in names[..|names| - 1] && n in passed
               && Accounted(w, accepted, trace, from, n, passes, removed[n], passed[n].offset, c)
    ensures OnlyNewestCreated(trace[from..], names) ==>
              forall n | n in removed :: AllDelivered(w, accepted, n, passes, removed[n], passed, c)
  {
    hide WasDelivered, RemovedAt, Untouched;
    if OnlyNewestCreated(trace[from..], names) {
      forall n | n in removed
        ensures AllDelivered(w, accepted, n, passes, removed[n], passed, c)
      {
        var k :| 0 <= k < |names| - 1 && names[..|names| - 1][k] == n;
        assert names[k] == n && n != names[|names| - 1];
        assert NotCreated(trace[from..], n);
      }
    }
  }

  /** No file from the `from`th on has an old time stamp, however long it is. */
  ghost predicate NoneAged(aged: (nat, nat) -> bool, from: nat) {
    forall i: nat, length: nat :: i >= from ==> !aged(i, length)
  }

  /** With the age rule alone nothing is lost either, while files made during a pass do not look old. */
  lemma {:induction false} FreshIsSafe(was: seq<Label>, before: World, trace: seq<Label>, w: World, accepted: set<Delivery>,
                                       passes: map<string, Pass>, removed: map<string, Removal>, passed: map<string, FileState>,
                                       p: Policy, c: Config)
    requires was <= trace && WorldIs(was, before, c)
    requires forall n | n in removed ::
               n in passed && Accounted(w, accepted, trace, |was|, n, passes, removed[n], passed[n].offset, c)
    requires forall n | n in removed :: Picked(trace, n, removed[n], p, c)
    ensures p.retainDays == 0 && NoneAged(p.aged, |before.files|) ==>
              forall n | n in removed :: AllDelivered(w, accepted, n, passes, removed[n], passed, c)
  {
    hide Exec, WasDelivered, Untouched, NotCreated;
    assert trace[..|was|] == was;
  }

  /** Later in the pass, offsets stay and files only grow. */
  lemma PassStands(read: map<string, FileState>, files: map<string, FileState>, w: World, v: World,
                   a: set<Delivery>, b: set<Delivery>, trace: seq<Label>, longer: seq<Label>,
                   passes: map<string, Pass>, c: Config)
    requires forall n | n in files :: n in read && files[n].offset == read[n].offset && files[n].fingerprint == read[n].fingerprint
    requires forall n | n in passes :: n in read && DidRead(w, a, trace, n, passes[n], read[n], c)
    requires Grows(w, v) && a <= b && trace <= longer
    ensures forall n | n in passes && n in files :: DidRead(v, b, longer, n, passes[n], files[n], c)
  {
    hide DidRead, Grows;
    forall n | n in passes && n in files
      ensures DidRead(v, b, longer, n, passes[n], files[n], c)
    {
      DidReadStands(w, v, a, b, trace, longer, n, passes[n], read[n], files[n], c);
    }
  }

  predicate SameBut(was: map<string, FileState>, now: map<string, FileState>, path: string) {
    && (forall n | n in was && n != path :: n in now && now[n] == was[n])
    && (forall n | n in now && n != path :: n in was)
  }

  lemma PrunedSame(files: map<string, FileState>, today: int, c: Config)
    ensures var left := PruneTombstones(files, today, c);
            left.Keys <= files.Keys && forall n | n in left :: left[n] == files[n]
  {}

  /** The sum a process remembers is that of what is on disk. */
  lemma {:induction false} ReachedSaved(trace: seq<Label>, s: Sys, c: Config)
    requires Exec(START, trace, c) == Some(s) && s.mem.Some?
    ensures s.mem.value.lastSaved.Some? ==> s.disk.Some? && s.disk.value.content == s.mem.value.lastSaved.value
  {
    assert Reachable(s, c);
    if s.mem.value.lastSaved.Some? {
      SkippedWritesAreNotStale(s, c);
    }
  }

  lemma SameButItself(files: map<string, FileState>, path: string)
    ensures SameBut(files, files, path)
  {}

  lemma SameButOne(files: map<string, FileState>, path: string, st: FileState)
    ensures SameBut(files, files[path := st], path)
  {}

  lemma {:induction false} ReachedDir(trace: seq<Label>, s: Sys, c: Config)
    requires Exec(START, trace, c) == Some(s)
    ensures forall n | n in s.world.dir :: s.world.dir[n] < |s.world.files| && s.world.files[s.world.dir[n]].name == n
  {
    hide Invariant, Exec;
    ReachedOk(trace, s, c);
    DirSound(s, c);
  }

  lemma {:induction false} ReachedReading(trace: seq<Label>, s: Sys, r: Reading, c: Config)
    requires Exec(START, trace, c) == Some(s) && s.mem.Some? && s.mem.value.reading == Some(r)
    ensures r.ino < |s.world.files| && r.pos <= |s.world.files[r.ino].content|
    ensures r.st.offset <= r.pos && r.buf == s.world.files[r.ino].content[r.st.offset..r.pos]
    ensures s.world.files[r.ino].name == r.name
    ensures BackedBy(s.world, Accepted(s, s.mem.value.reducer), r.ino, r.name, r.st, c)
  {
    hide Boundary, Covered;
    ReachedOk(trace, s, c);
  }

  /** What a chunk completes ends within what was read of the file. */
  lemma ConsumedFits(s: Sys, r: Reading, n: nat, c: Config)
    requires r.ino < |s.world.files| && r.pos + n <= |s.world.files[r.ino].content|
    requires r.st.offset <= r.pos && r.buf == s.world.files[r.ino].content[r.st.offset..r.pos]
    ensures var buf := r.buf + s.world.files[r.ino].content[r.pos..r.pos + n];
            r.st.offset + DecodeAll(buf, c.maxMember).consumed <= r.pos + n
  {
    hide DecodeOne, DecodeAll;
  }

  lemma {:induction false} ReachedOk(trace: seq<Label>, s: Sys, c: Config)
    requires Exec(START, trace, c) == Some(s)
    ensures Invariant(s, c)
  {
    assert Reachable(s, c);
    ReachableOk(s, c);
  }
}
