/** Putting the shards of a concurrent scan back in file order: internal/scan. */
module Collect {
  import opened Codec
  import opened Archive
  import opened Lines
  import opened Sharded
  import opened Tiling
  import opened Wrappers

  /** The parts, one after another. */
  function Joined<T>(parts: seq<seq<T>>): seq<T> {
    if parts == [] then [] else Joined(parts[..|parts| - 1]) + parts[|parts| - 1]
  }

  /** What each worker hands over, by shard. */
  function ShardLines(file: Bytes, ranges: seq<Range>, caps: Caps): (parts: seq<seq<Bytes>>)
    requires forall k | 0 <= k < |ranges| :: ranges[k].0 <= ranges[k].1
    ensures |parts| == |ranges|
  {
    seq(|ranges|, k requires 0 <= k < |ranges| => AllLines(RangeText(file, ranges[k], caps).text))
  }

  /** What each worker should hand over. */
  function OwnedLines(file: Bytes, ranges: seq<Range>, max: nat): (parts: seq<seq<Bytes>>)
    ensures |parts| == |ranges|
  {
    seq(|ranges|, k requires 0 <= k < |ranges| => AllLines(Owned(file, ranges[k], max)))
  }

  /**
   What a sharded scan relies on: nothing in the file looks like a member start and is not
   one, text ends at a line, and a member that straddles a boundary ends within the slack.
   */
  ghost predicate Shardable(file: Bytes, ranges: seq<Range>, caps: Caps) {
    && Tiles(ranges, |file|)
    && (forall k | 0 <= k < |ranges| :: ranges[k].1 <= |file| && SlackSuffices(file, ranges[k].1, caps))
    && !DecodeAll(file, caps.member).failed
    && NoFalseStarts(file, caps.member)
    && WholeLines(file, caps.member)
  }

  lemma {:induction false} SoundWhole(file: Bytes, max: nat)
    ensures Sound(file, 0, max) <==> !DecodeAll(file, max).failed
  {
    assert file[0..] == file;
  }

  /** Ranges that tile a file own all of it, each member once and in order. */
  lemma {:induction false} OwnedTiles(file: Bytes, ranges: seq<Range>, n: nat, max: nat)
    requires Tiles(ranges, |file|) && 0 < n <= |ranges| && WholeLines(file, max)
    ensures Joined(OwnedLines(file, ranges[..n], max)) == AllLines(Owned(file, (0, ranges[n - 1].1), max))
    decreases n
  {
    hide Owned, AllLines, WholeLines;
    var parts := OwnedLines(file, ranges[..n], max);
    assert parts[..n - 1] == OwnedLines(file, ranges[..n - 1], max);
    assert parts[n - 1] == AllLines(Owned(file, (ranges[n - 1].0, ranges[n - 1].1), max));
    if n == 1 {
      assert [] + parts[0] == parts[0];
    } else {
      OwnedTiles(file, ranges, n - 1, max);
      LinesOfOwned(file, 0, ranges[n - 1].0, ranges[n - 1].1, max);
    }
  }

  lemma {:induction false} OwnedIsSequential(file: Bytes, ranges: seq<Range>, max: nat)
    requires Tiles(ranges, |file|) && WholeLines(file, max) && !DecodeAll(file, max).failed
    ensures Joined(OwnedLines(file, ranges, max)) == AllLines(DecodeAll(file, max).text)
  {
    hide DecodeOne, DecodeAll, AllLines, WholeLines;
    OwnedTiles(file, ranges, |ranges|, max);
    assert ranges[..|ranges|] == ranges && file[0..] == file;
    SequentialText(file, 0, max);
    NoMemberAtEnd(file, max);
  }

  lemma {:induction false} JoinedLengths<T>(got: seq<seq<T>>, want: seq<seq<T>>)
    requires |got| == |want|
    requires forall k | 0 <= k < |got| :: got[k] == want[k] || |got[k]| < |want[k]|
    ensures |Joined(got)| <= |Joined(want)|
    ensures |Joined(got)| == |Joined(want)| ==> got == want
  {
    if got != [] {
      var n := |got| - 1;
      JoinedLengths(got[..n], want[..n]);
      assert got == got[..n] + [got[n]] && want == want[..n] + [want[n]];
    }
  }

  /** Each worker either hands over exactly what it owns, or loses some of it. */
  lemma WorkerOutcome(file: Bytes, ranges: seq<Range>, k: nat, caps: Caps)
    requires Shardable(file, ranges, caps) && k < |ranges|
    ensures Resyncs(file, ranges[k], caps) ==>
              !RangeText(file, ranges[k], caps).failed
              && ShardLines(file, ranges, caps)[k] == OwnedLines(file, ranges, caps.member)[k]
    ensures NoBlankMembers(file, caps.member) && !Resyncs(file, ranges[k], caps) ==>
              !RangeText(file, ranges[k], caps).failed
              && |ShardLines(file, ranges, caps)[k]| < |OwnedLines(file, ranges, caps.member)[k]|
  {
    hide RangeText, Owned, AllLines, WholeLines, NoFalseStarts, SlackSuffices, NoBlankMembers, Resyncs, DecodeAll, Sound;
    SoundWhole(file, caps.member);
    if Resyncs(file, ranges[k], caps) {
      WorkerIsOwned(file, ranges[k], caps);
    } else if NoBlankMembers(file, caps.member) {
      WorkerLosesLines(file, ranges[k], caps);
    }
  }

  /**
   The sharded scan is the sequential one: no line lost, repeated or moved, and no worker
   fails.
   */
  lemma {:induction false} ShardedIsSequential(file: Bytes, ranges: seq<Range>, caps: Caps)
    requires Shardable(file, ranges, caps)
    requires forall k | 0 <= k < |ranges| :: Resyncs(file, ranges[k], caps)
    ensures forall k | 0 <= k < |ranges| :: !RangeText(file, ranges[k], caps).failed
    ensures Joined(ShardLines(file, ranges, caps)) == AllLines(DecodeAll(file, caps.member).text)
  {
    hide RangeText, AllLines, WholeLines, NoFalseStarts, SlackSuffices, Resyncs, DecodeAll;
    forall k | 0 <= k < |ranges|
      ensures !RangeText(file, ranges[k], caps).failed
      ensures ShardLines(file, ranges, caps)[k] == OwnedLines(file, ranges, caps.member)[k]
    {
      WorkerOutcome(file, ranges, k, caps);
    }
    assert ShardLines(file, ranges, caps) == OwnedLines(file, ranges, caps.member);
    OwnedIsSequential(file, ranges, caps.member);
  }

  /**
   And it is so only then: when every member holds a line, one worker that turns down the
   first member of its range is enough to lose lines of the file.
   */
  lemma {:induction false} ShardedExactlyWhen(file: Bytes, ranges: seq<Range>, caps: Caps)
    requires Shardable(file, ranges, caps) && NoBlankMembers(file, caps.member)
    ensures Joined(ShardLines(file, ranges, caps)) == AllLines(DecodeAll(file, caps.member).text)
       <==> forall k | 0 <= k < |ranges| :: Resyncs(file, ranges[k], caps)
  {
    hide RangeText, AllLines, WholeLines, NoFalseStarts, NoBlankMembers, SlackSuffices, Resyncs, DecodeAll;
    var got, want := ShardLines(file, ranges, caps), OwnedLines(file, ranges, caps.member);
    forall k | 0 <= k < |ranges|
      ensures if Resyncs(file, ranges[k], caps) then got[k] == want[k] else |got[k]| < |want[k]|
    {
      WorkerOutcome(file, ranges, k, caps);
    }
    JoinedLengths(got, want);
    OwnedIsSequential(file, ranges, caps.member);
    if got == want {
      forall k | 0 <= k < |ranges|
        ensures Resyncs(file, ranges[k], caps)
      {
        assert got[k] == want[k];
      }
    } else if forall k | 0 <= k < |ranges| :: Resyncs(file, ranges[k], caps) {
      assert forall k | 0 <= k < |ranges| :: got[k] == want[k];
    }
  }

  // ---- Interleaved workers -----------------------------------------------------------

  /** One call of the callback: a line, and the shard it came from. */
  type Call = (nat, Bytes)

  /** What one shard handed over, in the order it did. */
  function Of(trace: seq<Call>, shard: nat): seq<Bytes> {
    if trace == [] then []
    else
      var last := trace[|trace| - 1];
      Of(trace[..|trace| - 1], shard) + if last.0 == shard then [last.1] else []
  }

  /** What every shard handed over. */
  function ByShard(trace: seq<Call>, shards: nat): (parts: seq<seq<Bytes>>)
    ensures |parts| == shards
  {
    seq(shards, k requires 0 <= k < shards => Of(trace, k))
  }

  /** The workers' calls in some order that keeps each worker's own. */
  ghost predicate Interleaves(trace: seq<Call>, parts: seq<seq<Bytes>>) {
    && (forall i | 0 <= i < |trace| :: trace[i].0 < |parts|)
    && (forall k | 0 <= k < |parts| :: Of(trace, k) == parts[k])
  }

  /** The records a caller keeps of some lines: those that parse and that it wants. */
  function Kept<R>(lines: seq<Bytes>, read: Bytes -> Option<R>): seq<R> {
    if lines == [] then []
    else
      var last := read(lines[|lines| - 1]);
      Kept(lines[..|lines| - 1], read) + if last.Some? then [last.value] else []
  }

  lemma {:induction false} KeptAppend<R>(a: seq<Bytes>, b: seq<Bytes>, read: Bytes -> Option<R>)
    ensures Kept(a + b, read) == Kept(a, read) + Kept(b, read)
    decreases |b|
  {
    if b == [] {
      assert a + b == a;
    } else {
      var n := |b| - 1;
      assert (a + b)[..|a + b| - 1] == a + b[..n];
      KeptAppend(a, b[..n], read);
    }
  }

  /** Every line that reads as a wanted record is kept, in its place, and no other. */
  lemma {:induction false} KeptIs<R>(lines: seq<Bytes>, read: Bytes -> Option<R>)
    ensures (forall l | l in lines :: read(l).Some?) ==>
              |Kept(lines, read)| == |lines| && forall i | 0 <= i < |lines| :: Some(Kept(lines, read)[i]) == read(lines[i])
    ensures (forall l | l in lines :: read(l).None?) ==> Kept(lines, read) == []
  {
    if lines != [] {
      var n := |lines| - 1;
      assert lines == lines[..n] + [lines[n]] && lines[n] in lines;
      KeptIs(lines[..n], read);
    }
  }

  /** The records of shards `0..n`, in shard order. */
  function InOrder<R>(perShard: map<nat, seq<R>>, n: nat): seq<R> {
    if n == 0 then []
    else InOrder(perShard, n - 1) + OrEmpty(perShard, n - 1)
  }

  lemma {:induction false} NoShardsBetween<R>(perShard: map<nat, seq<R>>, a: nat, b: nat)
    requires a <= b && forall k | a <= k < b :: k !in perShard
    ensures InOrder(perShard, a) == InOrder(perShard, b)
    decreases b
  {
    if a < b {
      NoShardsBetween(perShard, a, b - 1);
    }
  }

  /** The keys in ascending order. */
  method Ascending(keys: set<nat>) returns (idx: seq<nat>)
    ensures forall i, j | 0 <= i < j < |idx| :: idx[i] < idx[j]
    ensures forall k: nat :: k in idx <==> k in keys
  {
    idx := [];
    var left := keys;
    while left != {}
      invariant left <= keys
      invariant forall k: nat :: k in keys <==> k in left || k in idx
      invariant forall i, j | 0 <= i < j < |idx| :: idx[i] < idx[j]
      invariant forall i, k | 0 <= i < |idx| && k in left :: idx[i] < k
      decreases left
    {
      var least := Least(left);
      idx, left := idx + [least], left - {least};
    }
  }

  method Least(keys: set<nat>) returns (least: nat)
    requires keys != {}
    ensures least in keys && forall k | k in keys :: least <= k
  {
    least :| least in keys;
    var left := keys - {least};
    while left != {}
      invariant least in keys && left <= keys
      invariant forall k | k in keys && k !in left :: least <= k
      decreases left
    {
      var k :| k in left;
      if k < least {
        least := k;
      }
      left := left - {k};
    }
  }

  function OrEmpty<R>(perShard: map<nat, seq<R>>, shard: nat): seq<R> {
    if shard in perShard then perShard[shard] else []
  }

  /**
   Gathers the records in file order from callbacks that arrive in any order: each shard
   appends to its own slice, and the slices are joined by index.
   */
  method Collect<R>(trace: seq<Call>, shards: nat, read: Bytes -> Option<R>) returns (out: seq<R>)
    requires forall i | 0 <= i < |trace| :: trace[i].0 < shards
    ensures out == Kept(Joined(ByShard(trace, shards)), read)
  {
    var perShard: map<nat, seq<R>> := map[];
    for i := 0 to |trace|
      invariant forall k | k in perShard :: k < shards
      invariant forall k: nat :: OrEmpty(perShard, k) == Kept(Of(trace[..i], k), read)
    {
      var (shard, line) := trace[i];
      CallKept(trace, i, read);
      ghost var was := perShard;
      var rec := read(line);
      if rec.Some? {
        perShard := perShard[shard := OrEmpty(perShard, shard) + [rec.value]];
      }
      forall k: nat
        ensures OrEmpty(perShard, k) == Kept(Of(trace[..i + 1], k), read)
      {
        assert OrEmpty(perShard, k) == OrEmpty(was, k) + if k == shard && rec.Some? then [rec.value] else [];
      }
    }
    assert trace[..|trace|] == trace;
    out := JoinShards(perShard, shards);
    InOrderIsJoined(perShard, trace, shards, read);
  }

  /** What one more call adds to each shard. */
  lemma CallKept<R>(trace: seq<Call>, i: nat, read: Bytes -> Option<R>)
    requires i < |trace|
    ensures forall k: nat :: Kept(Of(trace[..i + 1], k), read) ==
              Kept(Of(trace[..i], k), read)
              + if k == trace[i].0 && read(trace[i].1).Some? then [read(trace[i].1).value] else []
  {
    var (shard, line) := trace[i];
    assert trace[..i + 1][..i] == trace[..i];
    forall k: nat
      ensures Kept(Of(trace[..i + 1], k), read) ==
                Kept(Of(trace[..i], k), read) + if k == shard && read(line).Some? then [read(line).value] else []
    {
      var one := if k == shard then [line] else [];
      KeptAppend(Of(trace[..i], k), one, read);
      assert Kept([line], read) == Kept([], read) + if read(line).Some? then [read(line).value] else [];
    }
  }

  /** The slices of all shards, concatenated by ascending index. */
  method JoinShards<R>(perShard: map<nat, seq<R>>, shards: nat) returns (out: seq<R>)
    requires forall k | k in perShard :: k < shards
    ensures out == InOrder(perShard, shards)
  {
    var idx: seq<nat> := Ascending(perShard.Keys);
    out := [];
    ghost var upto: nat := 0;
    for i := 0 to |idx|
      invariant upto == if i == 0 then 0 else idx[i - 1] + 1
      invariant out == InOrder(perShard, upto)
    {
      var shard: nat := idx[i];
      assert shard in idx;
      ToNextKey(perShard, idx, i, shards);
      out := out + perShard[shard];
      upto := shard + 1;
    }
    ToNextKey(perShard, idx, |idx|, shards);
  }

  /** Between one key and the next there is nothing to join. */
  lemma ToNextKey<R>(perShard: map<nat, seq<R>>, idx: seq<nat>, i: nat, shards: nat)
    requires i <= |idx| && forall k | k in perShard :: k < shards
    requires forall i, j | 0 <= i < j < |idx| :: idx[i] < idx[j]
    requires forall k: nat :: k in idx <==> k in perShard.Keys
    ensures InOrder(perShard, if i == 0 then 0 else idx[i - 1] + 1) == InOrder(perShard, if i < |idx| then idx[i] else shards)
  {
    hide InOrder;
    NoKeysBetween(idx, perShard.Keys, i);
    if i > 0 {
      assert idx[i - 1] in idx;
    }
    NoShardsBetween(perShard, if i == 0 then 0 else idx[i - 1] + 1, if i < |idx| then idx[i] else shards);
  }

  /** No key lies strictly between one of the ascending keys and the next. */
  lemma NoKeysBetween(idx: seq<nat>, keys: set<nat>, i: nat)
    requires i <= |idx|
    requires forall i, j | 0 <= i < j < |idx| :: idx[i] < idx[j]
    requires forall k: nat :: k in idx <==> k in keys
    ensures forall k: nat :: (i > 0 ==> idx[i - 1] < k) && (i < |idx| ==> k < idx[i]) ==> k !in keys
  {
    forall j | 0 <= j < |idx|
      ensures i > 0 && idx[i - 1] < idx[j] ==> i < |idx| && idx[i] <= idx[j]
      ensures i == 0 ==> idx[0] <= idx[j]
    {
      assert j < i - 1 ==> idx[j] < idx[i - 1];
      assert i < j ==> idx[i] < idx[j];
    }
  }

  lemma KeptNothing<R>(read: Bytes -> Option<R>)
    ensures Kept([], read) == []
  {}

  lemma {:induction false} InOrderIsJoined<R>(perShard: map<nat, seq<R>>, trace: seq<Call>, n: nat, read: Bytes -> Option<R>)
    requires forall k: nat :: OrEmpty(perShard, k) == Kept(Of(trace, k), read)
    ensures InOrder(perShard, n) == Kept(Joined(ByShard(trace, n)), read)
    decreases n
  {
    hide Of, Kept;
    if n == 0 {
      KeptNothing(read);
    } else {
      InOrderIsJoined(perShard, trace, n - 1, read);
      var parts := ByShard(trace, n);
      assert parts[..n - 1] == ByShard(trace, n - 1);
      KeptAppend(Joined(parts[..n - 1]), parts[n - 1], read);
    }
  }

  /**
   For every interleaving of the workers, what `Collect` gathers is what a sequential pass
   over the file would have kept.
   */
  lemma {:induction false} CollectedIsSequential<R>(file: Bytes, ranges: seq<Range>, caps: Caps, trace: seq<Call>, read: Bytes -> Option<R>)
    requires Shardable(file, ranges, caps)
    requires forall k | 0 <= k < |ranges| :: Resyncs(file, ranges[k], caps)
    requires Interleaves(trace, ShardLines(file, ranges, caps))
    ensures Kept(Joined(ByShard(trace, |ranges|)), read)
         == Kept(AllLines(DecodeAll(file, caps.member).text), read)
  {
    hide RangeText, AllLines, WholeLines, NoFalseStarts, SlackSuffices, Resyncs, DecodeAll;
    ShardedIsSequential(file, ranges, caps);
    assert ByShard(trace, |ranges|) == ShardLines(file, ranges, caps);
  }
}
