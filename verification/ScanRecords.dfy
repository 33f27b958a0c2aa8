/**
 Members as the writer makes them are found again: internal/archive/resync.go.  What a worker
 believes is said here in terms of the bytes of the file, and of code points.
 */
module ScanRecords {
  import opened Codec
  import opened Archive
  import opened Lines
  import opened Sharded
  import opened Tiling
  import opened Collect
  import opened ScanFit
  import opened ScanWitness
  import opened Utf8
  import opened Writer

  /** Ten bytes that begin like a member: ID1, ID2, CM and clear reserved flags. */
  predicate HeaderAt(d: Bytes, p: nat) {
    p + 10 <= |d| && d[p] == 0x1f && d[p + 1] == 0x8b && d[p + 2] == 0x08 && d[p + 3] < 0x20
  }

  lemma {:induction false} RecordsAre(text: Bytes)
    ensures ArchiveText(text) <==> IsRecords(text)
  {
    hide ArchiveText, HasKey, IsText;
    ArchiveTextExactlyWhen(text);
  }

  lemma HeaderIs(d: Bytes, p: nat)
    requires p <= |d|
    ensures PlausibleHeader(d[p..]) <==> HeaderAt(d, p)
  {
    if p + 10 <= |d| {
      var h := d[p..][..3];
      assert h[0] == d[p] && h[1] == d[p + 1] && h[2] == d[p + 2];
      assert h == [d[p], d[p + 1], d[p + 2]];
    }
  }

  /** Text in code points with a key in it. */
  ghost predicate IsRecords(text: Bytes) {
    IsText(text) && HasKey(text)
  }

  /**
   What is believed to be a member start: within 4 MiB, a header, a member that decodes to
   records, and after it a header or fewer than three bytes.
   */
  lemma {:induction false} AcceptsExactlyWhen(data: Bytes, p: nat, max: nat)
    requires p <= |data|
    ensures Accepts(data, p, max) <==>
              && p + 3 <= 0x40_0000 && HeaderAt(data, p)
              && At(data, p, max).Complete? && IsRecords(At(data, p, max).text)
              && var end := p + At(data, p, max).used;
                 (|data| < end + 3 || HeaderAt(data, end))
  {
    hide DecodeOne, ArchiveText, PlausibleHeader, HeaderAt, IsRecords;
    HeaderIs(data, p);
    HeaderLength(data, p);
    var o := At(data, p, max);
    assert o == DecodeOne(data[p..], max);
    if o.Complete? {
      var end := p + o.used;
      assert data[p..][o.used..] == data[end..];
      HeaderIs(data, end);
      RecordsAre(o.text);
      assert PlausibleMemberAt(data[p..], max)
          <==> HeaderAt(data, p) && IsRecords(o.text) && (|data| < end + 3 || HeaderAt(data, end));
    }
  }

  lemma HeaderLength(data: Bytes, p: nat)
    ensures HeaderAt(data, p) ==> p + 3 <= |data|
  {}

  /** A written member of records is believed, with nothing or another header after it. */
  lemma {:induction false} WrittenIsBelieved(data: Bytes, p: nat, text: Bytes, check: Bytes, max: nat)
    requires |check| == 4 && |text| < max && IsRecords(text)
    requires p + |Member(text, check)| <= |data| && data[p..p + |Member(text, check)|] == Member(text, check)
    requires p + 3 <= 0x40_0000
    requires var end := p + |Member(text, check)|; |data| < end + 3 || HeaderAt(data, end)
    ensures Accepts(data, p, max)
  {
    hide DecodeOne, Member, HeaderAt, IsRecords;
    var m := Member(text, check);
    var end := p + |m|;
    assert data[p..] == m + data[end..];
    MemberBack(text, check, data[end..], max);
    WrittenHeader(data, p, text, check);
    AcceptsExactlyWhen(data, p, max);
  }

  lemma WrittenHeader(data: Bytes, p: nat, text: Bytes, check: Bytes)
    requires |check| == 4 && p + |Member(text, check)| <= |data|
    requires data[p..p + |Member(text, check)|] == Member(text, check)
    ensures HeaderAt(data, p)
  {
    hide Blocks, End;
    var m := Member(text, check);
    assert Header() == [0x1f, 0x8b, 0x08, 0, 0, 0, 0, 0, 0, 0xff];
    assert m[..10] == Header();
    assert forall i | 0 <= i < 10 :: data[p + i] == data[p..p + |m|][i] == m[..10][i];
  }

  /**
   The hunt finds a written member where it is: `off` and `ok` are what it answers, and nothing
   that it could take for a member start lies before.
   */
  lemma {:induction false} WrittenIsFound(data: Bytes, p: nat, text: Bytes, check: Bytes, max: nat, off: nat, ok: bool)
    requires |check| == 4 && |text| < max && IsRecords(text)
    requires p + |Member(text, check)| <= |data| && data[p..p + |Member(text, check)|] == Member(text, check)
    requires p + 3 <= 0x40_0000
    requires var end := p + |Member(text, check)|; |data| < end + 3 || HeaderAt(data, end)
    requires forall i | 0 <= i < p :: !HeaderAt(data, i)
    requires ok ==> off < |data| && Accepts(data, off, max) && forall i | 0 <= i < off :: !Accepts(data, i, max)
    requires !ok ==> forall i | 0 <= i < |data| :: !Accepts(data, i, max)
    ensures ok && off == p
  {
    hide Member, Accepts, IsRecords, HeaderAt;
    WrittenIsBelieved(data, p, text, check, max);
    MemberIsLong(text, check);
    if ok && off < p {
      AcceptsExactlyWhen(data, off, max);
    }
  }

  lemma MemberIsLong(text: Bytes, check: Bytes)
    requires |check| == 4
    ensures |Member(text, check)| >= 18
  {}

  // ---- Bytes that are no member ---------------------------------------------------------------

  /** A worker that comes upon junk, inside its range or across the end of it, reports it and hands over what came before. */
  lemma {:induction false} JunkIsReported(batches: seq<Batch>, end: nat, caps: Caps)
    requires Writable(batches, caps.member) && caps.slack >= |JUNK|
    requires |File(batches, caps.member)| < end <= |File(batches, caps.member)| + |JUNK|
    ensures RangeText(File(batches, caps.member) + JUNK, (0, end), caps) == Ranged(Text(batches), true)
  {
    hide DecodeAll, DecodeOne, File;
    var f := File(batches, caps.member);
    var file, part := f + JUNK, JUNK[..end - |f|];
    assert file[0..end] == f + part && file[|f|..] == JUNK;
    FileBack(batches, part, caps.member);
    assert Text(batches) + [] == Text(batches);
    if end == |file| {
      assert part == JUNK;
      JunkFails(caps.member);
    } else {
      DecodeStep(part, caps.member);
      assert file[|f|..Min(end + caps.slack, |file|)] == JUNK;
      JunkIsCorrupt(caps.member);
    }
  }

  lemma JunkIsCorrupt(max: nat)
    ensures DecodeOne(JUNK, max).Corrupt?
  {
    assert JUNK[..3][0] == 0;
  }

  // ---- A file in two shards -------------------------------------------------------------------

  /** A line that takes 31 full blocks. */
  const LINE: nat := 31 * 0xffff

  function Nine(): (batches: seq<Batch>)
    ensures Writable(batches, CAPS.member) && |batches| == 9
  {
    seq(9, _ => Batch(LineOf(LINE), CHECK))
  }

  lemma {:induction false} LineIsRecords(n: nat)
    requires n > 3
    ensures IsRecords(LineOf(n))
  {
    var text := LineOf(n);
    assert forall b | b in text :: b < 0x80;
    AsciiIsValid(text, 0);
    ValidExactlyWhen(text);
    assert text == [] + [0x7b, 0x22] + text[2..];
  }

  lemma LineBatches()
    ensures Plain(Batch(LineOf(LINE), CHECK), CAPS.member)
    ensures |Member(LineOf(LINE), CHECK)| == 2_031_758
  {
    assert End(CHECK, LINE) == [0, 0, 0, 0, 0xe1, 0xff, 0x1e, 0x00];
    hide LineOf, Blocks, Plain, End, Member;
    LineBatch(LINE, 31, CAPS.member);
  }

  lemma {:induction false} SameSizes(batches: seq<Batch>, size: nat, max: nat)
    requires Writable(batches, max) && forall i | 0 <= i < |batches| :: SizeOf(batches[i]) == size
    ensures |File(batches, max)| == |batches| * size
  {
    hide Member;
    if batches != [] {
      SameSizes(batches[1..], size, max);
      assert |batches| * size == size + (|batches| - 1) * size;
    }
  }

  /** The lines of the file, one by one. */
  lemma {:induction false} LinesOfBatches(batches: seq<Batch>)
    requires forall i | 0 <= i < |batches| :: batches[i].text == LineOf(LINE)
    ensures AllLines(Text(batches)) == seq(|batches|, _ => ScanWitness.Body(LINE - 3))
  {
    hide LineOf, LinesFrom, CarryFrom, ScanWitness.Body;
    if batches == [] {
      Nothing();
    } else {
      LinesOfBatches(batches[1..]);
      LineIsOne(LINE);
      LinesSplit(LineOf(LINE), Text(batches[1..]));
      assert AllLines(LineOf(LINE)) == [ScanWitness.Body(LINE - 3)];
    }
  }

  lemma {:induction false} LineIsOne(n: nat)
    requires n > 3
    ensures CarryFrom([], LineOf(n)) == [] && AllLines(LineOf(n)) == [ScanWitness.Body(n - 3)]
  {
    var body := ScanWitness.Body(n - 3);
    NothingToTrim(body);
    assert NEWLINE !in body;
    hide ScanWitness.Body, Trim;
    NoNewline([], body, [NEWLINE]);
    assert [] + body == body && [NEWLINE][1..] == [];
    HandedNothing();
  }

  lemma HandedNothing()
    ensures Handed([]) == []
  {}

  /**
   Nine batches of about 2 MiB are cut in two by `Shards`, and both workers together hand over
   the nine lines: what the sharding theorems ask for can be had.
   */
  lemma {:induction false} NineLines(ranges: seq<Range>)
    requires IsSharding(ranges, |File(Nine(), CAPS.member)|, 2, MIN_SHARD)
    ensures |ranges| == 2
    ensures Joined(ShardLines(File(Nine(), CAPS.member), ranges, CAPS)) == seq(9, _ => ScanWitness.Body(LINE - 3))
  {
    hide ShardLines, AllLines, Member, LineOf, Plain, ArchiveText, HasKey, EncodeAll, File, NoFalseStarts, CarryFrom, Recorded,
         ScanWitness.Body;
    LineBatches();
    var batches, file := Nine(), File(Nine(), CAPS.member);
    SameSizes(batches, 2_031_758, CAPS.member);
    NineAreRecorded();
    PlainFile(batches, CAPS.member);
    var next := batches[0];
    assert Member(next.text, next.check)[..0] == [] && file + [] == file;
    WrittenFilesAreSharded(batches, next, 0, ranges, 2);
    LinesOfBatches(batches);
  }

  lemma NineAreRecorded()
    ensures Recorded(Nine(), 0x1f_fffb, CAPS.member) && AllPlain(Nine(), CAPS.member)
  {
    hide Member, LineOf, ArchiveText, HasKey, EncodeAll, CarryFrom, LinesFrom;
    LineBatches();
    LineIsRecords(LINE);
    RecordsAre(LineOf(LINE));
    var b := Batch(LineOf(LINE), CHECK);
    assert forall i | 0 <= i < 9 :: Nine()[i] == b;
    assert Plain(b, CAPS.member);
  }
}
