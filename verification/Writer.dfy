/** The writer's side of an archive: one complete member appended per batch (internal/archive/reader.go:1-12). */
module Writer {
  import opened Codec
  import opened Archive

  /** A length field of a stored block holds at most this. */
  const BLOCK: nat := 0xffff

  function Le16(n: nat): (d: Bytes)
    requires n <= 0xffff
    ensures |d| == 2
  {
    [n % 0x100, n / 0x100]
  }

  /** The fixed header: no optional fields, no time, unknown system. */
  function Header(): (d: Bytes)
    ensures |d| == HEADER
  {
    MAGIC + [0, 0, 0, 0, 0, 0, 0xff]
  }

  /** A stored block (section 3.2.4 of RFC 1951): the last-block flag, the length and its complement, the bytes. */
  function Block(text: Bytes, last: bool): (d: Bytes)
    requires |text| <= BLOCK
    ensures |d| == 5 + |text|
  {
    [if last then 1 else 0] + Le16(|text|) + Le16(0xffff - |text|) + text
  }

  function Blocks(text: Bytes): Bytes {
    if |text| <= BLOCK then Block(text, true) else Block(text[..BLOCK], false) + Blocks(text[BLOCK..])
  }

  /** The checksum, which is any four bytes, and the length of the text modulo 2^32. */
  function End(check: Bytes, length: nat): (d: Bytes)
    requires |check| == 4
    ensures |d| == TRAILER
  {
    check + Le16(length % 0x1_0000) + Le16(length % 0x1_0000_0000 / 0x1_0000)
  }

  function Member(text: Bytes, check: Bytes): Bytes
    requires |check| == 4
  {
    Header() + Blocks(text) + End(check, |text|)
  }

  datatype Batch = Batch(text: Bytes, check: Bytes)

  predicate Writable(batches: seq<Batch>, max: nat) {
    forall i | 0 <= i < |batches| :: |batches[i].check| == 4 && |batches[i].text| < max
  }

  /** A file to which batches have been appended. */
  function File(batches: seq<Batch>, max: nat): Bytes
    requires Writable(batches, max)
  {
    if batches == [] then [] else Member(batches[0].text, batches[0].check) + File(batches[1..], max)
  }

  function Text(batches: seq<Batch>): Bytes {
    if batches == [] then [] else batches[0].text + Text(batches[1..])
  }

  // ---- One member -----------------------------------------------------------------------

  lemma Le16Back(before: Bytes, n: nat, after: Bytes)
    requires n <= 0xffff
    ensures U16(before + Le16(n) + after, |before|) == n
  {
    var d := before + Le16(n) + after;
    assert d[|before|] == Le16(n)[0] && d[|before| + 1] == Le16(n)[1];
  }

  lemma EndBack(before: Bytes, check: Bytes, length: nat, after: Bytes)
    requires |check| == 4
    ensures U32(before + End(check, length) + after, |before| + 4) == length % 0x1_0000_0000
  {
    hide Le16, U16;
    var low, high := length % 0x1_0000, length % 0x1_0000_0000 / 0x1_0000;
    var d := before + End(check, length) + after;
    assert d == (before + check) + Le16(low) + (Le16(high) + after);
    assert d == (before + check + Le16(low)) + Le16(high) + after;
    Le16Back(before + check, low, Le16(high) + after);
    Le16Back(before + check + Le16(low), high, after);
    assert length % 0x1_0000 == length % 0x1_0000_0000 % 0x1_0000;
  }

  /** A block is read back as its flag, its length and its bytes. */
  lemma BlockBack(before: Bytes, text: Bytes, last: bool, after: Bytes)
    requires |text| <= BLOCK
    ensures var d, at := before + Block(text, last) + after, |before|;
            && d[at] == (if last then 1 else 0)
            && U16(d, at + 1) == |text| && U16(d, at + 3) == 0xffff - |text|
            && d[at + 5..at + 5 + |text|] == text
  {
    hide Le16, U16;
    var flag: Bytes := [if last then 1 else 0];
    var d := before + Block(text, last) + after;
    assert d == (before + flag) + Le16(|text|) + (Le16(0xffff - |text|) + text + after);
    assert d == (before + flag + Le16(|text|)) + Le16(0xffff - |text|) + (text + after);
    Le16Back(before + flag, |text|, Le16(0xffff - |text|) + text + after);
    Le16Back(before + flag + Le16(|text|), 0xffff - |text|, text + after);
  }

  lemma {:induction false} BlocksBack(before: Bytes, done: Bytes, text: Bytes, check: Bytes, after: Bytes, max: nat)
    requires |check| == 4 && |done| + |text| < max
    ensures var d := before + Blocks(text) + (End(check, |done| + |text|) + after);
            Body(d, |before|, done, max) == Complete(done + text, |before| + |Blocks(text)| + TRAILER)
    decreases |text|
  {
    hide U16, U32, Block, End, Trailer;
    var tail := End(check, |done| + |text|) + after;
    var d := before + Blocks(text) + tail;
    if |text| <= BLOCK {
      BlockBack(before, text, true, tail);
      var at := |before| + 5 + |text|;
      assert d == (before + Block(text, true)) + End(check, |done| + |text|) + after;
      TrailerBack(before + Block(text, true), check, done + text, after);
      assert Body(d, |before|, done, max) == Trailer(d, at, done + text);
    } else {
      var first, rest := text[..BLOCK], text[BLOCK..];
      assert d == before + Block(first, false) + (Blocks(rest) + tail);
      BlockBack(before, first, false, Blocks(rest) + tail);
      assert d == (before + Block(first, false)) + Blocks(rest) + tail;
      BlocksBack(before + Block(first, false), done + first, rest, check, after, max);
      assert done + first + rest == done + text;
    }
  }

  lemma TrailerBack(before: Bytes, check: Bytes, text: Bytes, after: Bytes)
    requires |check| == 4
    ensures Trailer(before + End(check, |text|) + after, |before|, text) == Complete(text, |before| + TRAILER)
  {
    hide U32;
    EndBack(before, check, |text|, after);
  }

  /** A member that was written is read back, whatever follows it. */
  lemma MemberBack(text: Bytes, check: Bytes, after: Bytes, max: nat)
    requires |check| == 4 && |text| < max
    ensures DecodeOne(Member(text, check) + after, max) == Complete(text, |Member(text, check)|)
  {
    hide Body, Blocks, End;
    BlocksBack(Header(), [], text, check, after, max);
    var d := Member(text, check) + after;
    assert d == Header() + Blocks(text) + (End(check, |text|) + after);
    assert d[..3] == MAGIC;
    assert [] + text == text;
  }

  /** One that is still being written is not. */
  lemma UnfinishedMember(text: Bytes, check: Bytes, k: nat, max: nat)
    requires |check| == 4 && |text| < max && k < |Member(text, check)|
    ensures DecodeOne(Member(text, check)[..k], max).Incomplete?
  {
    hide DecodeOne, Member;
    var d := Member(text, check);
    MemberBack(text, check, [], max);
    assert d + [] == d;
    MemberIsItsBytes(d, k, max);
  }

  // ---- Whole files ----------------------------------------------------------------------

  /** Whatever follows the batches of a file is decoded after them. */
  lemma {:induction false} FileBack(batches: seq<Batch>, rest: Bytes, max: nat)
    requires Writable(batches, max)
    ensures DecodeAll(File(batches, max) + rest, max)
         == Then(Decoded(Text(batches), |File(batches, max)|, |batches|, false), DecodeAll(rest, max))
  {
    hide DecodeOne, DecodeAll, Member;
    var d := File(batches, max) + rest;
    var last := DecodeAll(rest, max);
    DecodeStep(d, max);
    if batches == [] {
      assert d == rest && [] + last.text == last.text;
    } else {
      var m := Member(batches[0].text, batches[0].check);
      assert d == m + (File(batches[1..], max) + rest);
      assert d[|m|..] == File(batches[1..], max) + rest;
      MemberBack(batches[0].text, batches[0].check, File(batches[1..], max) + rest, max);
      FileBack(batches[1..], rest, max);
      assert batches[0].text + (Text(batches[1..]) + last.text) == Text(batches) + last.text;
    }
  }

  /**
   In the middle of any append, an archive decodes to exactly the batches completed so far, and
   decoding stops where the unfinished one begins.
   */
  lemma {:induction false} ArchiveBack(batches: seq<Batch>, next: Batch, k: nat, max: nat)
    requires Writable(batches, max) && |next.check| == 4 && |next.text| < max && k < |Member(next.text, next.check)|
    ensures DecodeAll(File(batches, max) + Member(next.text, next.check)[..k], max)
         == Decoded(Text(batches), |File(batches, max)|, |batches|, false)
  {
    hide DecodeOne, DecodeAll, Member;
    var part := Member(next.text, next.check)[..k];
    FileBack(batches, part, max);
    UnfinishedMember(next.text, next.check, k, max);
    DecodeStep(part, max);
    assert Text(batches) + [] == Text(batches);
  }

  // ---- Bytes that nobody wrote ----------------------------------------------------------

  /** Ten bytes that are no header. */
  const JUNK: Bytes := [0, 0, 0, 0, 0, 0, 0, 0, 0, 0]

  lemma {:induction false} JunkFails(max: nat)
    ensures DecodeAll(JUNK, max) == Decoded([], 0, 0, true)
  {
    DecodeStep(JUNK, max);
    assert JUNK[..3][0] == 0;
  }
}
