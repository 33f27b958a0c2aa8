/** Scanning one file with a worker for each shard: internal/scan/scan.go. */
module ConcurrentScan {
  import opened Codec
  import opened Archive
  import opened Lines
  import opened Scan
  import opened Sharded
  import opened Tiling
  import opened Collect
  import opened ScanFit
  import opened Wrappers

  /** How one worker ended, and what it handed over. */
  datatype Result = Result(ended: Ended, lines: seq<Bytes>)

  /** All of what it decoded if it is done, and otherwise the first of it; `got` is how much its read past the end brought. */
  ghost predicate Worked(file: Bytes, r: Range, caps: Caps, w: Result, got: nat)
    requires r.0 <= r.1
  {
    var all := RangeRead(file, r, caps, got);
    && got <= caps.slack && w.lines <= AllLines(all.text)
    && (w.ended.Done? ==> !all.failed && w.lines == AllLines(all.text))
    && (w.ended.DecodeError? ==> all.failed)
  }

  /** The read past the end brought as much as a member may still need, or all there is. */
  predicate Enough(r: Range, size: nat, b: nat, got: nat) {
    b <= got || size <= r.1 + got
  }

  function LinesOf(results: seq<Result>): (parts: seq<seq<Bytes>>)
    ensures |parts| == |results| && forall k | 0 <= k < |results| :: parts[k] == results[k].lines
  {
    seq(|results|, k requires 0 <= k < |results| => results[k].lines)
  }

  /** What a caller can know of a file without decoding it in shards. */
  ghost predicate Scannable(file: Bytes, b: nat, max: nat) {
    && !DecodeAll(file, max).failed && Small(file, b, max) && Tame(file, max)
    && NoFalseStarts(file, max) && WholeLines(file, max)
  }

  /**
   Scans a file of the size found by workers that share nothing, in any order; an error of one
   stops no other.  For a file of members of at most `b` bytes, lines are those of the sequential
   scan when all are done.
   */
  method File(file: Bytes, cpus: int, minShard: nat, caps: Caps, reliable: bool, willing: bool, ghost b: nat)
      returns (ranges: seq<Range>, results: seq<Result>, ghost gots: seq<nat>)
    requires caps.member > 0 && caps.chunk > 0 && caps.slack > 0
    ensures IsSharding(ranges, |file|, Max(1, cpus - 1), minShard) && |results| == |gots| == |ranges|
    ensures forall k | 0 <= k < |ranges| :: Worked(file, ranges[k], caps, results[k], gots[k])
    ensures reliable && willing ==> forall k | 0 <= k < |ranges| :: results[k].ended.Done? || results[k].ended.DecodeError?
    ensures Fits(b, minShard, caps) && Scannable(file, b, caps.member)
            && (forall k | 0 <= k < |ranges| :: Enough(ranges[k], |file|, b, gots[k])) ==>
              (forall k | 0 <= k < |ranges| :: !results[k].ended.DecodeError?)
              && ((forall k | 0 <= k < |ranges| :: results[k].ended.Done?) ==>
                    Joined(LinesOf(results)) == AllLines(DecodeAll(file, caps.member).text))
  {
    hide Worked, Scannable, DecodeAll, AllLines;
    ranges := Shards(|file|, Max(1, cpus - 1), minShard);
    results, gots := seq(|ranges|, k => Result(Done, [])), seq(|ranges|, k => 0);
    var left: set<nat> := {};
    for i := 0 to |ranges|
      invariant forall k: nat :: k in left <==> k < i
    {
      left := left + {i};
    }
    while left != {}
      invariant |results| == |gots| == |ranges| && forall k | k in left :: k < |ranges|
      invariant forall k: nat | k < |ranges| && k !in left :: Worked(file, ranges[k], caps, results[k], gots[k])
      invariant reliable && willing ==>
                  forall k: nat | k < |ranges| && k !in left :: results[k].ended.Done? || results[k].ended.DecodeError?
      decreases left
    {
      var k :| k in left;
      left := left - {k};
      var result;
      ghost var got;
      result, got := Work(file, ranges[k], caps, reliable, willing);
      results, gots := results[k := result], gots[k := got];
    }
    if Fits(b, minShard, caps) && Scannable(file, b, caps.member)
       && (forall k | 0 <= k < |ranges| :: Enough(ranges[k], |file|, b, gots[k])) {
      FileIsSequential(file, ranges, Max(1, cpus - 1), minShard, caps, b, results, gots);
    }
  }

  /** One worker, with a handle of its own. */
  method Work(file: Bytes, r: Range, caps: Caps, reliable: bool, willing: bool) returns (result: Result, ghost got: nat)
    requires r.0 <= r.1 && caps.member > 0 && caps.chunk > 0 && caps.slack > 0
    ensures Worked(file, r, caps, result, got)
    ensures reliable && willing ==> result.ended.Done? || result.ended.DecodeError?
  {
    hide RangeRead, AllLines;
    var f := new Handle(file, reliable);
    var sink := new LineSink(willing);
    var ended;
    ended, got := StreamRange(f, r, caps, sink);
    assert [] + AllLines(RangeRead(file, r, caps, got).text) == AllLines(RangeRead(file, r, caps, got).text);
    result := Result(ended, sink.got);
  }

  lemma {:induction false} EnoughSlack(file: Bytes, r: Range, b: nat, got: nat, caps: Caps)
    requires r.1 <= |file| && Small(file, b, caps.member) && Enough(r, |file|, b, got)
    ensures SlackSuffices(file, r.1, caps.(slack := got))
  {
    hide FirstStart, DecodeOne;
  }

  /** What each worker reads is what its range owns. */
  lemma {:induction false} WorkerReadsOwned(file: Bytes, ranges: seq<Range>, n: int, minShard: nat, caps: Caps, b: nat, k: nat, got: nat)
    requires IsSharding(ranges, |file|, n, minShard) && Fits(b, minShard, caps) && Scannable(file, b, caps.member)
    requires k < |ranges| && Enough(ranges[k], |file|, b, got)
    ensures RangeRead(file, ranges[k], caps, got) == Ranged(Owned(file, ranges[k], caps.member), false)
  {
    hide DecodeAll, RangeRead, Owned, WholeLines, NoFalseStarts, Small, Tame, SlackSuffices, Resyncs, Sound;
    SoundWhole(file, caps.member);
    InFile(ranges, k, |file|);
    LongEnough(ranges, |file|, n, minShard, k);
    SmallMembersResync(file, ranges[k], caps, b);
    EnoughSlack(file, ranges[k], b, got, caps);
    ReaderIsOwned(file, ranges[k], caps, got);
  }

  lemma {:induction false} FileIsSequential(file: Bytes, ranges: seq<Range>, n: int, minShard: nat, caps: Caps, b: nat,
                                            results: seq<Result>, gots: seq<nat>)
    requires IsSharding(ranges, |file|, n, minShard) && Fits(b, minShard, caps) && Scannable(file, b, caps.member)
    requires |results| == |gots| == |ranges| && forall k | 0 <= k < |ranges| :: Worked(file, ranges[k], caps, results[k], gots[k])
    requires forall k | 0 <= k < |ranges| :: Enough(ranges[k], |file|, b, gots[k])
    ensures forall k | 0 <= k < |ranges| :: !results[k].ended.DecodeError?
    ensures (forall k | 0 <= k < |ranges| :: results[k].ended.Done?) ==>
              Joined(LinesOf(results)) == AllLines(DecodeAll(file, caps.member).text)
  {
    hide DecodeAll, RangeRead, Owned, AllLines, WholeLines, NoFalseStarts, Small, Tame, Enough;
    forall k | 0 <= k < |ranges|
      ensures RangeRead(file, ranges[k], caps, gots[k]) == Ranged(Owned(file, ranges[k], caps.member), false)
    {
      WorkerReadsOwned(file, ranges, n, minShard, caps, b, k, gots[k]);
    }
    if forall k | 0 <= k < |ranges| :: results[k].ended.Done? {
      assert LinesOf(results) == OwnedLines(file, ranges, caps.member);
      OwnedIsSequential(file, ranges, caps.member);
    }
  }

  /**
   However the workers' calls interleave, the records collected from them are those that the
   sequential scan finds.
   */
  lemma {:induction false} ScanIsSequential<R>(file: Bytes, results: seq<Result>, max: nat, trace: seq<Call>, read: Bytes -> Option<R>)
    requires Joined(LinesOf(results)) == AllLines(DecodeAll(file, max).text) && Interleaves(trace, LinesOf(results))
    ensures Kept(Joined(ByShard(trace, |results|)), read) == Kept(AllLines(DecodeAll(file, max).text), read)
  {
    hide DecodeAll, AllLines;
    assert ByShard(trace, |results|) == LinesOf(results);
  }
}
