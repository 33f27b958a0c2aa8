/**
 What one pass over the archive files comes to: internal/tail/watcher.go.  Files are known to
 a pass by name; these facts say of which files that is true.
 */
module TailPass {
  import opened Codec
  import opened Archive
  import opened TailModel
  import opened TailLaws
  import opened TailReads
  import opened TailFiles
  import opened Retention
  import opened Wrappers

  /**
   The reading of one file: at which step of the run it was opened, which file it was, where
   reading began, the size it was found with, and where each read ended.
   */
  datatype Pass = Pass(at: nat, ino: nat, from: nat, size: nat, ends: seq<nat>)

  /** At which step a file was removed, and which one it was. */
  datatype Removal = Removal(at: nat, ino: nat)

  /**
   The recorded state of a name is what that pass made of that file: the offset is a member
   boundary of it below which all was delivered, and it is where those reads lead; they reach
   the size it was found with, or a corrupt member.
   */
  ghost predicate DidRead(w: World, accepted: set<Delivery>, trace: seq<Label>, name: string, p: Pass, st: FileState, c: Config) {
    && p.at < |trace| && trace[p.at] == Begin(name) && StandsFor(trace, p.at, name, p.ino, c)
    && BackedBy(w, accepted, p.ino, name, st, c)
    && ReadsLead(w.files[p.ino].content, p, st.offset, c)
  }

  ghost predicate ReadsLead(content: Bytes, p: Pass, offset: nat, c: Config) {
    && p.size <= |content| && p.from <= |content| && Ends(p.from, p.ends, |content|)
    && offset == PassTo(content, p.from, p.ends, c.maxMember)
    && (p.size <= ReadTo(p.from, p.ends) || Fails(content, p.from, ReadTo(p.from, p.ends), c.maxMember))
  }

  /** Nothing that happens later makes it less true. */
  lemma DidReadStands(w: World, v: World, a: set<Delivery>, b: set<Delivery>, trace: seq<Label>, longer: seq<Label>,
                      name: string, p: Pass, st: FileState, now: FileState, c: Config)
    requires DidRead(w, a, trace, name, p, st, c) && Grows(w, v) && a <= b && trace <= longer
    requires now.offset == st.offset && now.fingerprint == st.fingerprint
    ensures DidRead(v, b, longer, name, p, now, c)
  {
    hide Boundary, Covered, Exec, PassTo, Fails, Grows;
    BackedByGrows(w, v, a, b, p.ino, name, st, c);
    assert BackedBy(v, b, p.ino, name, now, c);
    assert longer[..p.at] == trace[..p.at];
    FileGrows(w, v, p.ino);
    ReadingGrows(w.files[p.ino].content, v.files[p.ino].content, p, st.offset, c);
  }

  lemma ReadingGrows(a: Bytes, b: Bytes, p: Pass, offset: nat, c: Config)
    requires ReadsLead(a, p, offset, c) && a <= b
    ensures ReadsLead(b, p, offset, c)
  {
    hide PassTo, DecodeAll;
    PassToGrows(a, b, p.from, p.ends, c.maxMember);
    var to := ReadTo(p.from, p.ends);
    assert a[p.from..to] == b[p.from..to];
  }

  lemma FileGrows(w: World, v: World, i: nat)
    requires Grows(w, v) && i < |w.files|
    ensures i < |v.files| && w.files[i].content <= v.files[i].content
  {}

  /** No complete member at the front, and nothing corrupt. */
  ghost predicate Quiet(d: Bytes, max: nat) {
    var r := DecodeAll(d, max);
    !r.failed && r.consumed == 0
  }

  /** Of what a file held when it was found no complete member is left, unless a corrupt one was in the way. */
  lemma NothingLeft(content: Bytes, p: Pass, offset: nat, c: Config)
    requires ReadsLead(content, p, offset, c) && !Fails(content, p.from, ReadTo(p.from, p.ends), c.maxMember)
    ensures offset < p.size ==> Quiet(content[offset..p.size], c.maxMember)
  {
    hide DecodeOne, DecodeAll, PassTo;
    var max, to := c.maxMember, ReadTo(p.from, p.ends);
    PassIsLastSound(content, p.from, p.ends, max);
    assert LastSound(content, p.from, p.ends, max) == to;
    NothingCompleteIsLeft(content[p.from..to], max);
    assert content[p.from..to][offset - p.from..] == content[offset..to];
    if offset < p.size {
      DecodeStep(content[offset..to], max);
      DecodeInTwo(content[offset..p.size], content[p.size..to], max);
      assert content[offset..p.size] + content[p.size..to] == content[offset..to];
    }
  }

  // ---- Names without a file ---------------------------------------------------------------

  /** At some point of a run, no sooner than its step `from`, no file had the name. */
  ghost predicate Absent(trace: seq<Label>, from: nat, name: string, c: Config) {
    exists k: nat | from <= k <= |trace| :: Gone(trace[..k], name, c)
  }

  ghost predicate Gone(steps: seq<Label>, name: string, c: Config) {
    var s := Exec(START, steps, c);
    s.Some? && name !in s.value.world.dir
  }

  lemma {:induction false} AbsentNow(trace: seq<Label>, from: nat, name: string, s: Sys, c: Config)
    requires from <= |trace| && Exec(START, trace, c) == Some(s) && name !in s.world.dir
    ensures Absent(trace, from, name, c)
  {
    hide Exec;
    assert trace[..|trace|] == trace;
    assert Gone(trace[..|trace|], name, c);
  }

  lemma AbsencesStay(trace: seq<Label>, longer: seq<Label>, from: nat, later: nat, c: Config)
    requires trace <= longer && from <= later <= |trace|
    ensures forall name | Absent(trace, from, name, c) :: Absent(longer, from, name, c)
    ensures forall name | Absent(longer, later, name, c) :: Absent(longer, from, name, c)
  {
    hide Gone;
    forall name | Absent(trace, from, name, c)
      ensures Absent(longer, from, name, c)
    {
      var k: nat :| from <= k <= |trace| && Gone(trace[..k], name, c);
      assert longer[..k] == trace[..k];
    }
  }

  /** A name that was away comes back only if somebody creates it. */
  lemma {:induction false} AwayUnlessCreated(trace: seq<Label>, longer: seq<Label>, from: nat, b: nat, name: string, c: Config)
    requires trace <= longer && from <= |trace| <= b <= |longer| && Absent(trace, from, name, c)
    requires NotCreated(longer[from..], name) && Exec(START, longer[..b], c).Some?
    ensures name !in Exec(START, longer[..b], c).value.world.dir
  {
    hide Exec;
    var k: nat :| from <= k <= |trace| && Gone(trace[..k], name, c);
    assert longer[..k] == trace[..k];
    forall i | 0 <= i < b - k
      ensures longer[k..b][i] == longer[from..][k - from + i]
    {}
    StaysAway(longer, k, b, name, c);
  }

  // ---- What is removed --------------------------------------------------------------------

  ghost predicate RemovedAt(trace: seq<Label>, from: nat, name: string, r: Removal, c: Config) {
    from <= r.at < |trace| && trace[r.at] == Reclaim(name) && StandsFor(trace, r.at, name, r.ino, c)
  }

  lemma RemovedAtStands(trace: seq<Label>, longer: seq<Label>, from: nat, later: nat, name: string, r: Removal, c: Config)
    requires RemovedAt(trace, later, name, r, c) && trace <= longer && from <= later
    ensures RemovedAt(longer, from, name, r, c)
  {
    hide Exec;
    assert longer[..r.at] == trace[..r.at];
  }

  /** A rule selected the file that was removed, as it was when it was. */
  ghost predicate Picked(trace: seq<Label>, name: string, r: Removal, p: Policy, c: Config) {
    r.at <= |trace|
    && var s := Exec(START, trace[..r.at], c);
       s.Some? && p.Selects(name, s.value.world)
  }

  lemma {:induction false} PickedStands(trace: seq<Label>, longer: seq<Label>, name: string, r: Removal, p: Policy, c: Config)
    requires Picked(trace, name, r, p, c) && trace <= longer
    ensures Picked(longer, name, r, p, c)
  {
    hide Exec;
    assert longer[..r.at] == trace[..r.at];
  }

  /** Of that file everything up to the size it was found with, and up to the offset, was delivered. */
  ghost predicate WasDelivered(w: World, accepted: set<Delivery>, i: nat, size: nat, offset: nat, c: Config) {
    && i < |w.files|
    && size <= offset
    && Boundary(w.files[i].content, offset, c)
    && Covered(accepted, w.files[i].content[..offset])
  }

  /**
   Which file a pass removed under a name, and what is known of it.  It is the file that the
   pass read if and only if nobody touched the name in between; then all of it that the pass
   found was delivered.  Otherwise it was made during the pass, which is not so when nobody
   creates a file of that name.
   */
  ghost predicate Accounted(w: World, accepted: set<Delivery>, trace: seq<Label>, from: nat, name: string,
                            passes: map<string, Pass>, r: Removal, offset: nat, c: Config) {
    && RemovedAt(trace, from, name, r, c)
    && (name in passes ==>
          passes[name].at <= r.at && (r.ino == passes[name].ino <==> Untouched(trace[passes[name].at..r.at], name)))
    && (name in passes && r.ino == passes[name].ino ==> WasDelivered(w, accepted, r.ino, passes[name].size, offset, c))
    && ((name in passes && r.ino == passes[name].ino) || MadeSince(trace, from, r.ino, c))
    && (NotCreated(trace[from..], name) ==> name in passes && r.ino == passes[name].ino)
  }

  /** A name that did not keep the file it was read with stands for one made since. */
  lemma {:induction false} OtherFileIsNew(trace: seq<Label>, from: nat, a: nat, b: nat, name: string, i: nat, j: nat, c: Config)
    requires from <= a <= b <= |trace| && StandsFor(trace, a, name, i, c) && StandsFor(trace, b, name, j, c) && i != j
    ensures MadeSince(trace, from, j, c)
  {
    hide Exec, Untouched, NotCreated;
    SameFileExactlyWhen(trace, a, b, name, i, j, c);
    Fate(trace, a, b, name, i, c);
    PrefixOf(trace, from, a, c);
    FilesGrow(trace, from, a, c);
  }

  lemma {:induction false} PrefixOf(trace: seq<Label>, a: nat, b: nat, c: Config)
    requires a <= b <= |trace| && Exec(START, trace[..b], c).Some?
    ensures Exec(START, trace[..a], c).Some?
  {
    hide Exec;
    PrefixRuns(trace[..b], a, c);
    assert trace[..b][..a] == trace[..a];
  }

  lemma {:induction false} AbsentThenNew(read: seq<Label>, trace: seq<Label>, from: nat, b: nat, name: string, j: nat, c: Config)
    requires read <= trace && from <= |read| <= b <= |trace| && Absent(read, from, name, c) && StandsFor(trace, b, name, j, c)
    ensures MadeSince(trace, from, j, c)
  {
    hide Exec;
    var k: nat :| from <= k <= |read| && Gone(read[..k], name, c);
    assert trace[..k] == read[..k];
    BackIsNew(trace, k, b, name, c);
    PrefixOf(trace, from, k, c);
    FilesGrow(trace, from, k, c);
  }

  lemma ReadAndRemoved(w: World, accepted: set<Delivery>, read: seq<Label>, trace: seq<Label>, from: nat, name: string,
                       passes: map<string, Pass>, r: Removal, st: FileState, c: Config)
    requires read <= trace && from <= |read| && RemovedAt(trace, |read|, name, r, c)
    requires name in passes ==> from <= passes[name].at < |read| && DidRead(w, accepted, trace, name, passes[name], st, c)
    requires name in passes ==> passes[name].size <= st.offset
    requires name !in passes ==> Absent(read, from, name, c)
    ensures Accounted(w, accepted, trace, from, name, passes, r, st.offset, c)
  {
    hide Exec, Untouched, Boundary, Covered, ReadsLead, Absent;
    if name in passes {
      var p := passes[name];
      SameFileExactlyWhen(trace, p.at, r.at, name, p.ino, r.ino, c);
      NotCreatedWithin(trace, from, p.at, r.at, name);
      if r.ino != p.ino {
        OtherFileIsNew(trace, from, p.at, r.at, name, p.ino, r.ino, c);
      }
    } else {
      AbsentThenNew(read, trace, from, r.at, name, r.ino, c);
      if NotCreated(trace[from..], name) {
        AwayUnlessCreated(read, trace, from, r.at, name, c);
        assert false;
      }
    }
  }

  lemma NotCreatedWithin(trace: seq<Label>, from: nat, a: nat, b: nat, name: string)
    requires from <= a <= b <= |trace|
    ensures NotCreated(trace[from..], name) ==> NotCreated(trace[a..b], name)
  {
    assert forall i | 0 <= i < b - a :: trace[a..b][i] == trace[from..][a - from + i];
  }
}
