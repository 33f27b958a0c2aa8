/**
 Files on which the sharded scan loses lines: internal/scan/scan.go:137-160 with
 internal/archive/resync.go:52-76.  The shards are those of the program, so it takes members of
 several megabytes.
 */
module ScanWitness {
  import opened Codec
  import opened Archive
  import opened Lines
  import opened Sharded
  import opened Tiling
  import opened Collect
  import opened ScanFit
  import opened Writer

  /** The first magic byte, which the files below hold only where a member begins. */
  const ID1: Byte := 0x1f

  const CHECK: Bytes := [0, 0, 0, 0]

  // ---- Batches that look like nothing else ------------------------------------------------

  /** One line, whose member holds the first magic byte only at its front. */
  ghost predicate Plain(b: Batch, max: nat) {
    && |b.check| == 4 && |b.text| < max
    && ID1 !in Member(b.text, b.check)[1..]
    && CarryFrom([], b.text) == [] && LinesFrom([], b.text) != []
  }

  ghost predicate AllPlain(batches: seq<Batch>, max: nat) {
    forall i | 0 <= i < |batches| :: Plain(batches[i], max)
  }

  lemma NotInTail(s: Bytes, b: Byte)
    requires s != [] && b !in s[1..]
    ensures forall i | 0 < i < |s| :: s[i] != b
  {
    assert forall i | 0 < i < |s| :: s[1..][i - 1] == s[i];
  }

  /** In a file of such batches the first magic byte marks a member. */
  lemma {:induction false} MagicIsStart(before: Bytes, batches: seq<Batch>, q: nat, max: nat)
    requires AllPlain(batches, max) && Writable(batches, max)
    requires var file := before + (File(batches, max) + []); |before| <= q < |file| && file[q] == ID1
    ensures var file := before + (File(batches, max) + []); FirstStart(file, |before|, q, max) == q
    decreases |batches|
  {
    hide DecodeOne, Member, LinesFrom, CarryFrom;
    var file := before + (File(batches, max) + []);
    assert file[|before|..] == File(batches, max) + [];
    assert batches != [];
    BatchAt(file, |before|, batches, [], max);
    var m := Member(batches[0].text, batches[0].check);
    assert Plain(batches[0], max);
    NotInTail(m, ID1);
    assert forall i | 0 < i < |m| :: file[|before| + i] == m[i] != ID1;
    if q > |before| {
      assert q >= |before| + |m|;
      assert file == (before + m) + (File(batches[1..], max) + []);
      MagicIsStart(before + m, batches[1..], q, max);
    }
  }

  lemma {:induction false} NoneFalse(batches: seq<Batch>, max: nat)
    requires AllPlain(batches, max) && Writable(batches, max)
    ensures NoFalseStarts(File(batches, max), max)
  {
    hide DecodeOne, ArchiveText, FirstStart, File, AllPlain;
    var file := File(batches, max);
    assert file == [] + (file + []);
    forall q, end | 0 <= q <= end <= |file| && PlausibleMemberAt(file[q..end], max)
      ensures Starts(file, q, max)
    {
      assert file[q] == file[q..end][..3][0] == ID1;
      MagicIsStart([], batches, q, max);
    }
  }

  /** Such a file is sound and each of its members is a line. */
  lemma {:induction false} PlainFile(batches: seq<Batch>, max: nat)
    requires AllPlain(batches, max) && Writable(batches, max)
    ensures var file := File(batches, max);
            && !DecodeAll(file, max).failed && NoFalseStarts(file, max)
            && WholeLines(file, max) && NoBlankMembers(file, max)
  {
    hide DecodeOne, DecodeAll, Member, FirstStart, LinesFrom, CarryFrom, NoFalseStarts, File;
    var file := File(batches, max);
    assert file == file + [] && file == [] + (file + []);
    NoneFalse(batches, max);
    FileBack(batches, [], max);
    DecodeStep([], max);
    forall p | 0 <= p < |file| && Starts(file, p, max)
      ensures CarryFrom([], At(file, p, max).text) == [] && LinesFrom([], At(file, p, max).text) != []
    {
      var i := StartIsBatch([], batches, [], p, max);
      BatchAt(file, p, batches[i..], [], max);
      assert Plain(batches[i..][0], max);
    }
  }

  // ---- A second shard that begins with too large a member -------------------------------------

  /** Where a member of `size` bytes must not end in a window. */
  predicate EndsBadly(size: nat, window: nat) {
    var left := window - size;
    left < 0 || |MAGIC| <= left < HEADER
  }

  /**
   Of two shards the second begins with a member that is larger than the window, or ends three
   to nine bytes before it does: the scan loses lines, though the file is sound in every way
   that the scan asks for.
   */
  lemma {:induction false} BadEndLosesLines(batches: seq<Batch>, ranges: seq<Range>)
    requires |batches| >= 2 && AllPlain(batches, CAPS.member) && Writable(batches, CAPS.member)
    requires var first, second := batches[0], batches[1];
             && |File(batches, CAPS.member)| == 2 * |Member(first.text, first.check)| >= 2 * MIN_SHARD
             && EndsBadly(|Member(second.text, second.check)|, CAPS.chunk)
    requires IsSharding(ranges, |File(batches, CAPS.member)|, 2, MIN_SHARD)
    ensures var file := File(batches, CAPS.member);
            && Shardable(file, ranges, CAPS) && NoBlankMembers(file, CAPS.member)
            && Joined(ShardLines(file, ranges, CAPS)) != AllLines(DecodeAll(file, CAPS.member).text)
  {
    hide DecodeOne, DecodeAll, Member, AllLines, RangeText, NoFalseStarts, WholeLines, NoBlankMembers, SlackSuffices, Resyncs,
         AllPlain, File, FirstStart;
    var file := File(batches, CAPS.member);
    PlainFile(batches, CAPS.member);
    var size := |file| / 2;
    assert |ranges| == 2 && ranges[0] == (0, size) && ranges[1] == (size, 2 * size);
    TwoStarts(batches, CAPS.member);
    FirstEnds(file, size);
    LastEnds(file);
    NotBelieved(file, size, CAPS);
    ShardedExactlyWhen(file, ranges, CAPS);
    assert !Resyncs(file, ranges[1], CAPS);
  }

  /** The first two members of a file. */
  lemma {:induction false} TwoStarts(batches: seq<Batch>, max: nat)
    requires |batches| >= 2 && Writable(batches, max)
    ensures var file := File(batches, max);
            var first, second := Member(batches[0].text, batches[0].check), Member(batches[1].text, batches[1].check);
            && At(file, 0, max) == Complete(batches[0].text, |first|)
            && |first| < |file| && FirstStart(file, 0, |first|, max) == |first|
            && At(file, |first|, max) == Complete(batches[1].text, |second|)
  {
    hide DecodeOne, Member;
    var file := File(batches, max);
    var first := Member(batches[0].text, batches[0].check);
    assert file[0..] == file + [];
    BatchAt(file, 0, batches, [], max);
    BatchAt(file, |first|, batches[1..], [], max);
    assert FirstStart(file, |first|, |first|, max) == |first|;
  }

  /** A shard that ends with its first member needs no slack. */
  lemma {:induction false} FirstEnds(file: Bytes, size: nat)
    requires 0 < size < |file| && At(file, 0, CAPS.member).Complete? && At(file, 0, CAPS.member).used == size
    ensures SlackSuffices(file, size, CAPS)
  {
    hide At;
    assert forall p: nat | p > 0 :: FirstStart(file, 0, p, CAPS.member) >= size;
  }

  lemma LastEnds(file: Bytes)
    ensures SlackSuffices(file, |file|, CAPS)
  {
    hide DecodeOne, FirstStart;
  }

  lemma {:induction false} NotBelieved(file: Bytes, from: nat, caps: Caps)
    requires 0 < from < |file| && FirstStart(file, 0, from, caps.member) == from && At(file, from, caps.member).Complete?
    requires |file| - from >= caps.chunk && EndsBadly(At(file, from, caps.member).used, caps.chunk)
    ensures !Resyncs(file, (from, |file|), caps)
  {
    hide DecodeOne, FirstStart, ArchiveText, Resyncs;
    assert |Window(file, (from, |file|), caps)| == caps.chunk;
    ResyncsWhen(file, (from, |file|), caps);
  }

  // ---- Lines of a given length ----------------------------------------------------------------

  /** Two characters that begin an object, and `n` more. */
  function Body(n: nat): (d: Bytes)
    ensures |d| == n + 2
  {
    [0x7b, 0x22] + seq(n, i => 0x78)
  }

  /** A line of `n` bytes. */
  function LineOf(n: nat): (d: Bytes)
    requires n > 3
    ensures |d| == n
  {
    Body(n - 3) + [NEWLINE]
  }

  lemma {:induction false} OneLine(n: nat)
    requires n > 3
    ensures CarryFrom([], LineOf(n)) == [] && LinesFrom([], LineOf(n)) != [] && ID1 !in LineOf(n)
  {
    var body := Body(n - 3);
    NothingToTrim(body);
    assert NEWLINE !in body && ID1 !in body;
    hide Body, Trim;
    NoNewline([], body, [NEWLINE]);
    assert [] + body == body;
    assert [NEWLINE][1..] == [];
  }

  lemma {:induction false} NothingToTrim(d: Bytes)
    requires d != [] && d[0] == 0x7b && d[|d| - 1] == 0x78
    ensures Trim(d) == d
  {
    assert Leading(d) == 0 && Trailing(d) == 0;
    hide Leading, Trailing;
  }

  /** No byte of the length and of its complement is the first magic byte. */
  predicate ClearLength(n: nat) {
    n <= 0xffff && ID1 !in Le16(n) && ID1 !in Le16(0xffff - n)
  }

  /** The blocks of a text that takes `k` of them, the last one with a clear length. */
  lemma {:induction false} BlocksOf(text: Bytes, k: nat)
    requires k >= 1 && (k - 1) * BLOCK < |text| <= k * BLOCK
    requires ID1 !in text && ClearLength(|text| - (k - 1) * BLOCK)
    ensures |Blocks(text)| == |text| + 5 * k && ID1 !in Blocks(text)
    decreases k
  {
    if k > 1 {
      assert (k - 1) * BLOCK == (k - 2) * BLOCK + BLOCK;
      BlocksOf(text[BLOCK..], k - 1);
      assert ClearLength(BLOCK);
    }
  }

  /** The batch of one line of `n` bytes, which takes `k` blocks. */
  lemma {:induction false} LineBatch(n: nat, k: nat, max: nat)
    requires 3 < n < max && k >= 1 && (k - 1) * BLOCK < n <= k * BLOCK && ClearLength(n - (k - 1) * BLOCK)
    requires ID1 !in End(CHECK, n)
    ensures Plain(Batch(LineOf(n), CHECK), max)
    ensures |Member(LineOf(n), CHECK)| == HEADER + n + 5 * k + TRAILER
  {
    hide LineOf, End, Blocks, LinesFrom, CarryFrom;
    OneLine(n);
    BlocksOf(LineOf(n), k);
    var header: Bytes := [0x8b, 0x08, 0, 0, 0, 0, 0, 0, 0xff];
    assert Header()[1..] == header;
    assert Member(LineOf(n), CHECK)[1..] == header + Blocks(LineOf(n)) + End(CHECK, n);
  }

  // ---- The files ------------------------------------------------------------------------------

  /** A line that takes 129 full blocks, a little over 8 MiB. */
  const LONG: nat := 129 * 0xffff

  lemma LongBatch()
    ensures Plain(Batch(LineOf(LONG), CHECK), CAPS.member)
    ensures |Member(LineOf(LONG), CHECK)| == 8_454_678
  {
    assert End(CHECK, LONG) == [0, 0, 0, 0, 0x7f, 0xff, 0x80, 0x00];
    LineBatch(LONG, 129, CAPS.member);
  }

  /** Two batches of more than 8 MiB. */
  function TwoLong(): (batches: seq<Batch>)
    ensures Writable(batches, CAPS.member)
  {
    [Batch(LineOf(LONG), CHECK), Batch(LineOf(LONG), CHECK)]
  }

  /** Each is in a shard of its own, and the second is lost. */
  lemma {:induction false} LargeMemberIsLost(ranges: seq<Range>)
    requires IsSharding(ranges, |File(TwoLong(), CAPS.member)|, 2, MIN_SHARD)
    ensures var file := File(TwoLong(), CAPS.member);
            && Shardable(file, ranges, CAPS) && NoBlankMembers(file, CAPS.member)
            && Joined(ShardLines(file, ranges, CAPS)) != AllLines(DecodeAll(file, CAPS.member).text)
  {
    hide Shardable, NoBlankMembers, ShardLines, AllLines, DecodeAll, Member, LineOf, IsSharding, Plain;
    LongBatch();
    Sizes(TwoLong(), CAPS.member);
    BadEndLosesLines(TwoLong(), ranges);
  }

  function SizeOf(b: Batch): nat
    requires |b.check| == 4
  {
    |Member(b.text, b.check)|
  }

  lemma {:induction false} Sizes(batches: seq<Batch>, max: nat)
    requires Writable(batches, max) && 2 <= |batches| <= 3
    ensures |File(batches, max)|
         == SizeOf(batches[0]) + SizeOf(batches[1]) + if |batches| == 3 then SizeOf(batches[2]) else 0
  {
    hide Member;
    assert |File(batches, max)| == SizeOf(batches[0]) + |File(batches[1..], max)|;
    assert batches[1..][0] == batches[1] && batches[1..][1..] == batches[2..];
    assert |File(batches[1..], max)| == SizeOf(batches[1]) + |File(batches[2..], max)|;
    if |batches| == 3 {
      assert batches[2..][0] == batches[2] && batches[2..][1..] == [];
      assert |File(batches[2..], max)| == SizeOf(batches[2]);
    }
  }

  /**
   The second shard begins with a batch that ends `j` bytes before the window does, and goes on
   with another that is as long as the shard.
   */
  function CutHeader(j: nat): (batches: seq<Batch>)
    requires |MAGIC| <= j < HEADER
    ensures Writable(batches, CAPS.member)
  {
    [Batch(LineOf(LONG), CHECK), Batch(LineOf(4_193_966 - j), CHECK), Batch(LineOf(4_260_026 + j), CHECK)]
  }

  lemma {:induction false} CutBatches(j: nat)
    requires |MAGIC| <= j < HEADER
    ensures AllPlain(CutHeader(j), CAPS.member)
    ensures |Member(LineOf(4_193_966 - j), CHECK)| == CAPS.chunk - j
    ensures |Member(LineOf(4_260_026 + j), CHECK)| == 8_454_678 - (CAPS.chunk - j)
  {
    hide Member, LineOf, Plain;
    LongBatch();
    CutBatch(j);
    LastBatch(j);
  }

  lemma CutBatch(j: nat)
    requires |MAGIC| <= j < HEADER
    ensures Plain(Batch(LineOf(4_193_966 - j), CHECK), CAPS.member)
    ensures |Member(LineOf(4_193_966 - j), CHECK)| == CAPS.chunk - j
  {
    assert End(CHECK, 4_193_966 - j) == [0, 0, 0, 0, 0xae - j, 0xfe, 0x3f, 0x00];
    hide LineOf, Blocks, Plain, End, Member;
    LineBatch(4_193_966 - j, 64, CAPS.member);
  }

  lemma LastBatch(j: nat)
    requires |MAGIC| <= j < HEADER
    ensures Plain(Batch(LineOf(4_260_026 + j), CHECK), CAPS.member)
    ensures |Member(LineOf(4_260_026 + j), CHECK)| == 8_454_678 - (CAPS.chunk - j)
  {
    assert End(CHECK, 4_260_026 + j) == [0, 0, 0, 0, 0xba + j, 0x00, 0x41, 0x00];
    hide LineOf, Blocks, Plain, End, Member;
    LineBatch(4_260_026 + j, 66, CAPS.member);
  }

  /** With three to nine bytes of the next header in the window both batches of the second shard are lost. */
  lemma {:induction false} CutHeaderLosesLines(j: nat, ranges: seq<Range>)
    requires |MAGIC| <= j < HEADER && IsSharding(ranges, |File(CutHeader(j), CAPS.member)|, 2, MIN_SHARD)
    ensures var file := File(CutHeader(j), CAPS.member);
            && Shardable(file, ranges, CAPS) && NoBlankMembers(file, CAPS.member)
            && Joined(ShardLines(file, ranges, CAPS)) != AllLines(DecodeAll(file, CAPS.member).text)
  {
    hide Shardable, NoBlankMembers, ShardLines, AllLines, DecodeAll, Member, LineOf, IsSharding, Plain;
    LongBatch();
    CutBatches(j);
    Sizes(CutHeader(j), CAPS.member);
    BadEndLosesLines(CutHeader(j), ranges);
  }
}
