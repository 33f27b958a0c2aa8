/**
 When the sharded scan loses nothing: internal/scan/scan.go and internal/archive/resync.go.
 A worker has one bounded window to find its first member in, so what matters is how large
 members are; what the writer is doing at the end of the file is too far away to.
 */
module ScanFit {
  import opened Codec
  import opened Archive
  import opened Lines
  import opened Sharded
  import opened Tiling
  import opened Collect
  import opened Writer

  /** The caps of the program: 64 MiB a member, 4 MiB a read and 4 MiB of slack. */
  const CAPS := Caps(0x400_0000, 0x40_0000, 0x40_0000)

  /** The least size of a shard. */
  const MIN_SHARD: nat := 0x80_0000

  // ---- Conditions on a file ---------------------------------------------------------------

  /** No member covers more than `b` bytes. */
  ghost predicate Small(file: Bytes, b: nat, max: nat) {
    forall p | 0 <= p < |file| && Starts(file, p, max) :: At(file, p, max).used <= b
  }

  /** A header at `p`, if there is one, has its reserved flag bits clear. */
  predicate ClearAt(file: Bytes, p: nat) {
    p + HEADER <= |file| ==> file[p + 3] < 0x20
  }

  /** The headers of the members, and of one begun after them, are clear, and the members hold records. */
  ghost predicate Tame(file: Bytes, max: nat) {
    forall p | 0 <= p < |file| && Starts(file, p, max) ::
      && ClearAt(file, p) && ArchiveText(At(file, p, max).text)
      && ClearAt(file, p + At(file, p, max).used)
  }

  // ---- Where members begin ----------------------------------------------------------------

  /** The first member at or after a byte begins within one member's size of it. */
  lemma {:induction false} FirstStartIsNear(file: Bytes, at: nat, from: nat, b: nat, max: nat)
    requires at <= |file| && at <= from && Small(file, b, max)
    requires At(file, at, max).Complete? ==> FirstStart(file, 0, at, max) == at
    ensures FirstStart(file, at, from, max) < |file| ==> FirstStart(file, at, from, max) < from + b
    decreases |file| - at
  {
    hide At;
    if At(file, at, max).Complete? {
      assert Starts(file, at, max);
      if at < from {
        var next := at + At(file, at, max).used;
        NextStart(file, at, max);
        hide Small;
        if next <= from {
          FirstStartIsNear(file, next, from, b, max);
        }
      }
    }
  }

  lemma {:induction false} FirstStartStarts(file: Bytes, from: nat, max: nat)
    requires FirstStart(file, 0, from, max) < |file|
    ensures Starts(file, FirstStart(file, 0, from, max), max)
  {
    hide DecodeOne;
    var p := FirstStart(file, 0, from, max);
    StartInTwo(file, 0, from, p, max);
    assert FirstStart(file, p, p, max) == p;
  }

  /** After a member of a sound file comes a header, as far as the file goes on. */
  lemma {:induction false} HeaderFollows(file: Bytes, p: nat, end: nat, max: nat)
    requires Sound(file, 0, max) && Tame(file, max) && p < |file| && Starts(file, p, max)
    requires p + At(file, p, max).used + HEADER <= end <= |file|
    ensures PlausibleHeader(file[p + At(file, p, max).used..end])
  {
    hide DecodeAll, DecodeOne, ArchiveText, FirstStart;
    var next := p + At(file, p, max).used;
    SoundAtStart(file, 0, p, max);
    SoundStep(file, p, max);
    SoundStep(file, next, max);
    assert ClearAt(file, next);
    MagicUnlessCorrupt(file[next..], max);
    assert file[next..][..3] == file[next..end][..3];
  }

  lemma MagicUnlessCorrupt(d: Bytes, max: nat)
    requires |d| >= HEADER && !DecodeOne(d, max).Corrupt?
    ensures d[..3] == MAGIC
  {
    hide Body;
  }

  // ---- Resynchronising ----------------------------------------------------------------------

  /**
   A worker's window, which is cut short by its cap, by its range with the slack, and by the file,
   ends where the worker can believe the first member it owns: ten bytes or more after that
   member, or fewer than three.
   */
  predicate EndsWell(file: Bytes, r: Range, caps: Caps) {
    var p := FirstStart(file, 0, r.0, caps.member);
    0 < r.0 && p < Min(r.1, |file|) ==>
      var end := Min(|file|, Min(r.0 + caps.chunk, r.1 + caps.slack));
      var left := end - (p + At(file, p, caps.member).used);
      left >= 10 || 0 <= left < 3
  }

  /** A worker resynchronises if and only if its window ends well. */
  lemma {:induction false} ResyncsExactlyWhen(file: Bytes, r: Range, caps: Caps)
    requires r.0 <= r.1 <= |file| && Sound(file, 0, caps.member) && Tame(file, caps.member)
    requires caps.chunk <= RESYNC_SCAN_LIMIT
    ensures Resyncs(file, r, caps) <==> EndsWell(file, r, caps)
  {
    hide DecodeAll, Body, ArchiveText, FirstStart, Tame;
    var p, end := FirstStart(file, 0, r.0, caps.member), r.0 + |Window(file, r, caps)|;
    if 0 < r.0 && p < r.1 {
      hide Resyncs;
      assert end == Min(|file|, Min(r.0 + caps.chunk, r.1 + caps.slack));
      FirstStartStarts(file, r.0, caps.member);
      ResyncsWhen(file, r, caps);
      TameStart(file, p, end, caps.member);
    }
  }

  /** What there is to believe in a true start, but for the size of the window. */
  lemma {:induction false} TameStart(file: Bytes, p: nat, end: nat, max: nat)
    requires Sound(file, 0, max) && Tame(file, max) && p < |file| && Starts(file, p, max) && end <= |file|
    ensures var o := At(file, p, max);
            && o.Complete? && file[p..p + 3] == MAGIC && file[p + 3] < 0x20 && ArchiveText(o.text)
            && (p + o.used + HEADER <= end ==> PlausibleHeader(file[p + o.used..end]))
  {
    hide DecodeAll, Body, ArchiveText;
    var o := At(file, p, max);
    assert file[p..][..3] == file[p..p + 3];
    assert ClearAt(file, p);
    if p + o.used + HEADER <= end {
      HeaderFollows(file, p, end, max);
    }
  }

  /** A worker resynchronises when two of the largest members and a header fit its window and its range. */
  lemma {:induction false} SmallMembersResync(file: Bytes, r: Range, caps: Caps, b: nat)
    requires r.0 <= r.1 <= |file| && Sound(file, 0, caps.member) && Tame(file, caps.member)
    requires Small(file, b, caps.member)
    requires r.0 > 0 ==> 2 * b + HEADER <= Min(r.1 - r.0, Min(caps.chunk, RESYNC_SCAN_LIMIT))
    ensures Resyncs(file, r, caps)
  {
    hide DecodeAll, DecodeOne, ArchiveText, FirstStart, PlausibleHeader;
    var p := FirstStart(file, 0, r.0, caps.member);
    if 0 < r.0 && p < r.1 {
      var end := r.0 + |Window(file, r, caps)|;
      FirstStartStarts(file, r.0, caps.member);
      FirstStartFrom(file, r.0, b, caps.member);
      hide Resyncs;
      ResyncsWhen(file, r, caps);
      TameStart(file, p, end, caps.member);
    }
  }

  lemma {:induction false} FirstStartFrom(file: Bytes, from: nat, b: nat, max: nat)
    requires Small(file, b, max)
    ensures var p := FirstStart(file, 0, from, max);
            p < |file| ==> p < from + b && Starts(file, p, max) && At(file, p, max).used <= b
  {
    hide DecodeOne;
    FirstStartIsNear(file, 0, from, b, max);
    if FirstStart(file, 0, from, max) < |file| {
      FirstStartStarts(file, from, max);
    }
  }

  lemma {:induction false} SlackOf(file: Bytes, end: nat, caps: Caps, b: nat)
    requires Small(file, b, caps.member) && b <= caps.slack
    ensures SlackSuffices(file, end, caps)
  {
    hide FirstStart, At;
  }

  // ---- The whole scan ---------------------------------------------------------------------

  /** Two of the largest members and a header fit a window, and one fits the slack. */
  predicate Fits(b: nat, minShard: nat, caps: Caps) {
    2 * b + HEADER <= Min(minShard, Min(caps.chunk, RESYNC_SCAN_LIMIT)) && b <= caps.slack
  }

  /**
   With the ranges that `Shards` returns, the sharded scan of a file of small members is the
   sequential one, whatever stands unfinished at the end of the file.
   */
  lemma {:induction false} SmallMembersAreNeverLost(file: Bytes, ranges: seq<Range>, n: int, minShard: nat, caps: Caps, b: nat)
    requires IsSharding(ranges, |file|, n, minShard) && Fits(b, minShard, caps) && Small(file, b, caps.member)
    requires !DecodeAll(file, caps.member).failed && Tame(file, caps.member)
    requires NoFalseStarts(file, caps.member) && WholeLines(file, caps.member)
    ensures forall k | 0 <= k < |ranges| :: !RangeText(file, ranges[k], caps).failed
    ensures Joined(ShardLines(file, ranges, caps)) == AllLines(DecodeAll(file, caps.member).text)
  {
    hide DecodeAll, RangeText, AllLines, WholeLines, NoFalseStarts, Small, Tame, SlackSuffices, Resyncs, Sound;
    SoundWhole(file, caps.member);
    forall k | 0 <= k < |ranges|
      ensures ranges[k].1 <= |file| && Resyncs(file, ranges[k], caps) && SlackSuffices(file, ranges[k].1, caps)
    {
      InFile(ranges, k, |file|);
      LongEnough(ranges, |file|, n, minShard, k);
      SmallMembersResync(file, ranges[k], caps, b);
      SlackOf(file, ranges[k].1, caps, b);
    }
    ShardedIsSequential(file, ranges, caps);
  }

  /**
   In general the sharded scan is the sequential one if and only if every worker's window ends
   well.
   */
  lemma {:induction false} ShardsExactlyWhen(file: Bytes, ranges: seq<Range>, n: int, minShard: nat, caps: Caps)
    requires IsSharding(ranges, |file|, n, minShard) && caps.chunk <= RESYNC_SCAN_LIMIT
    requires Shardable(file, ranges, caps) && NoBlankMembers(file, caps.member) && Tame(file, caps.member)
    ensures Joined(ShardLines(file, ranges, caps)) == AllLines(DecodeAll(file, caps.member).text)
       <==> forall k | 0 <= k < |ranges| :: EndsWell(file, ranges[k], caps)
  {
    hide DecodeAll, RangeText, AllLines, WholeLines, NoFalseStarts, Tame, SlackSuffices, NoBlankMembers, Resyncs, Sound,
         EndsWell;
    SoundWhole(file, caps.member);
    ShardedExactlyWhen(file, ranges, caps);
    forall k | 0 <= k < |ranges|
      ensures Resyncs(file, ranges[k], caps) <==> EndsWell(file, ranges[k], caps)
    {
      InFile(ranges, k, |file|);
      ResyncsExactlyWhen(file, ranges[k], caps);
    }
  }

  lemma {:induction false} InFile(ranges: seq<Range>, k: nat, size: nat)
    requires Tiles(ranges, size) && k < |ranges|
    ensures ranges[k].1 <= size
    decreases |ranges| - k
  {
    if k < |ranges| - 1 {
      InFile(ranges, k + 1, size);
    }
  }

  /** Only a shard that is alone, and so begins the file, can be shorter than the least size. */
  lemma {:induction false} LongEnough(ranges: seq<Range>, size: nat, n: int, minShard: nat, k: nat)
    requires IsSharding(ranges, size, n, minShard) && k < |ranges|
    ensures ranges[k].0 > 0 ==> ranges[k].1 - ranges[k].0 >= minShard
  {}

  // ---- Files as they are written ------------------------------------------------------------

  /** A member found in a file of batches is one of them, and the rest of the batches follows it. */
  lemma {:induction false} StartIsBatch(before: Bytes, batches: seq<Batch>, rest: Bytes, from: nat, max: nat) returns (i: nat)
    requires Writable(batches, max) && DecodeOne(rest, max).Incomplete?
    requires var file := before + (File(batches, max) + rest); FirstStart(file, |before|, from, max) < |file|
    ensures i < |batches|
    ensures var file := before + (File(batches, max) + rest);
            file[FirstStart(file, |before|, from, max)..] == File(batches[i..], max) + rest
    decreases |batches|
  {
    hide DecodeOne, Member;
    var file := before + (File(batches, max) + rest);
    i := 0;
    assert file[|before|..] == File(batches, max) + rest;
    if batches == [] {
      NoBatchAt(before, rest, from, max);
    } else {
      BatchAt(file, |before|, batches, rest, max);
      var m := Member(batches[0].text, batches[0].check);
      if |before| < from {
        assert file == (before + m) + (File(batches[1..], max) + rest);
        i := StartIsBatch(before + m, batches[1..], rest, from, max);
        assert batches[1..][i..] == batches[i + 1..];
        i := i + 1;
      }
    }
  }

  lemma {:induction false} NoBatchAt(before: Bytes, rest: Bytes, from: nat, max: nat)
    requires DecodeOne(rest, max).Incomplete?
    ensures FirstStart(before + ([] + rest), |before|, from, max) == |before + ([] + rest)|
  {
    hide DecodeOne;
    assert (before + ([] + rest))[|before|..] == rest;
  }

  /** What stands where a batch begins. */
  lemma {:induction false} BatchAt(file: Bytes, p: nat, batches: seq<Batch>, rest: Bytes, max: nat)
    requires Writable(batches, max) && batches != [] && p <= |file| && file[p..] == File(batches, max) + rest
    ensures var m := Member(batches[0].text, batches[0].check);
            && At(file, p, max) == Complete(batches[0].text, |m|) && p + |m| <= |file|
            && file[p + |m|..] == File(batches[1..], max) + rest
            && ClearAt(file, p)
  {
    hide DecodeOne, Blocks, End;
    var m := Member(batches[0].text, batches[0].check);
    var more := File(batches[1..], max) + rest;
    assert file[p..] == m + more;
    MemberBack(batches[0].text, batches[0].check, more, max);
    assert file[p + |m|..] == file[p..][|m|..] == more;
    assert file[p + 3] == file[p..][3] == Header()[3] == 0;
  }

  /** The start of a member has a clear header, or none yet. */
  lemma {:induction false} PartIsClear(file: Bytes, p: nat, next: Batch, k: nat)
    requires |next.check| == 4 && k <= |Member(next.text, next.check)|
    requires p <= |file| && file[p..] == Member(next.text, next.check)[..k]
    ensures ClearAt(file, p)
  {
    hide Blocks, End;
    if p + HEADER <= |file| {
      assert file[p + 3] == file[p..][3] == Header()[3] == 0;
    }
  }

  /** Every batch holds whole lines of records and makes a member of at most `b` bytes. */
  ghost predicate Recorded(batches: seq<Batch>, b: nat, max: nat)
    requires Writable(batches, max)
  {
    forall i | 0 <= i < |batches| ::
      && |Member(batches[i].text, batches[i].check)| <= b && ArchiveText(batches[i].text)
      && CarryFrom([], batches[i].text) == []
  }

  /** Whatever batches a file holds, and with part of another at its end, its members are as small and as tame. */
  lemma {:induction false} WrittenIsTame(batches: seq<Batch>, next: Batch, k: nat, b: nat, max: nat)
    requires Writable(batches, max) && Recorded(batches, b, max)
    requires |next.check| == 4 && |next.text| < max && k < |Member(next.text, next.check)|
    ensures var file := File(batches, max) + Member(next.text, next.check)[..k];
            Small(file, b, max) && Tame(file, max) && WholeLines(file, max)
  {
    hide DecodeOne, File, Member, ArchiveText, FirstStart, CarryFrom;
    var part := Member(next.text, next.check)[..k];
    var file := File(batches, max) + part;
    UnfinishedMember(next.text, next.check, k, max);
    assert file == [] + (File(batches, max) + part);
    forall p | 0 <= p < |file| && Starts(file, p, max)
      ensures At(file, p, max).used <= b && ClearAt(file, p) && ArchiveText(At(file, p, max).text)
      ensures ClearAt(file, p + At(file, p, max).used) && CarryFrom([], At(file, p, max).text) == []
    {
      var i := StartIsBatch([], batches, part, p, max);
      BatchAt(file, p, batches[i..], part, max);
      assert batches[i..][0] == batches[i] && batches[i..][1..] == batches[i + 1..];
      FollowerIsClear(file, p + At(file, p, max).used, batches[i + 1..], next, k, max);
    }
  }

  lemma {:induction false} FollowerIsClear(file: Bytes, p: nat, batches: seq<Batch>, next: Batch, k: nat, max: nat)
    requires Writable(batches, max) && |next.check| == 4 && k <= |Member(next.text, next.check)| && p <= |file|
    requires file[p..] == File(batches, max) + Member(next.text, next.check)[..k]
    ensures ClearAt(file, p)
  {
    hide DecodeOne, Member;
    if batches == [] {
      PartIsClear(file, p, next, k);
    } else {
      BatchAt(file, p, batches, Member(next.text, next.check)[..k], max);
    }
  }

  /**
   With the program's caps and shards: whatever batches of at most 2 MiB - 5 a file holds, and
   however much of the next one has been written, the sharded scan hands over the lines of the
   finished batches, all of them and in order.
   */
  lemma {:induction false} WrittenFilesAreSharded(batches: seq<Batch>, next: Batch, k: nat, ranges: seq<Range>, n: int)
    requires Writable(batches, CAPS.member) && Recorded(batches, 0x1f_fffb, CAPS.member)
    requires |next.check| == 4 && |next.text| < CAPS.member && k < |Member(next.text, next.check)|
    requires var file := File(batches, CAPS.member) + Member(next.text, next.check)[..k];
             NoFalseStarts(file, CAPS.member) && IsSharding(ranges, |file|, n, MIN_SHARD)
    ensures var file := File(batches, CAPS.member) + Member(next.text, next.check)[..k];
            Joined(ShardLines(file, ranges, CAPS)) == AllLines(Text(batches))
  {
    hide DecodeAll, File, Member, AllLines, RangeText, NoFalseStarts, Small, Tame, WholeLines, Recorded, IsSharding;
    ArchiveBack(batches, next, k, CAPS.member);
    WrittenIsTame(batches, next, k, 0x1f_fffb, CAPS.member);
    var file := File(batches, CAPS.member) + Member(next.text, next.check)[..k];
    SmallMembersAreNeverLost(file, ranges, n, MIN_SHARD, CAPS, 0x1f_fffb);
  }
}
