/** Profiling a whole archive: internal/profile/scan.go, the second reader of members and lines. */
module ProfileScan {
  import opened Codec
  import opened Archive
  import opened Lines
  import opened Scan

  const DEFAULT_CHUNK: nat := 0x100_0000

  /** What a scan adds up; how a line is folded into shapes is not part of it. */
  class Profile {
    var lines: seq<Bytes>
    var bytes: nat
    var members: nat

    constructor ()
      ensures lines == [] && bytes == 0 && members == 0
    {
      lines, bytes, members := [], 0, 0;
    }
  }

  /** Adds the finished lines of some text to the profile; the rest is the carry. */
  method Consume(p: Profile, data: Bytes) returns (rest: Bytes)
    modifies p`lines
    ensures p.lines == old(p.lines) + LinesFrom([], data) && rest == CarryFrom([], data)
  {
    hide LinesFrom, CarryFrom, Trim, NextNewline;
    rest := data;
    ghost var all := p.lines + LinesFrom([], data);
    LineStep(rest);
    var i := NextNewline(rest);
    while i < |rest|
      invariant i == NextNewline(rest)
      invariant p.lines + LinesFrom([], rest) == all && CarryFrom([], rest) == CarryFrom([], data)
      decreases |rest|
    {
      LineStep(rest);
      ghost var before, later := p.lines, LinesFrom([], rest[i + 1..]);
      assert before + (Handed(rest[..i]) + later) == (before + Handed(rest[..i])) + later;
      var line := Trim(rest[..i]);
      if |line| > 0 {
        p.lines := p.lines + [line];
      }
      rest := rest[i + 1..];
      i := NextNewline(rest);
    }
    LineStep(rest);
  }

  /**
   Profiles a whole archive in bounded memory.  However its reads fall, it sees the lines,
   the bytes and the members of the file decoded at once, and fails only where that fails.
   */
  method ScanFile(f: Handle, chunk: int, max: nat) returns (p: Profile, ended: Ended)
    requires f.pos == 0
    modifies f
    ensures fresh(p)
    ensures ended.Done? ==>
              var whole := DecodeAll(f.content, max);
              !whole.failed && p.lines == AllLines(whole.text) && p.bytes == |whole.text| && p.members == whole.members
    ensures ended.DecodeError? ==> DecodeAll(f.content, max).failed
    ensures !ended.Refused? && (f.reliable ==> !ended.ReadError?)
  {
    hide DecodeOne, DecodeAll, LinesFrom, CarryFrom, Handed;
    var chunkSize := if chunk <= 0 then DEFAULT_CHUNK else chunk;
    p := new Profile();
    var pending: Bytes, buf: Bytes := [], [];
    ghost var seen: Bytes, was := [], DecodeAll([], max);
    Nothing(max);
    var status := More;
    while status.More?
      invariant f.pos <= |f.content| && seen == f.content[..f.pos] && was == DecodeAll(seen, max) && !was.failed
      invariant buf == seen[was.consumed..] && pending == CarryFrom([], was.text)
      invariant p.lines == LinesFrom([], was.text) && p.bytes == |was.text| && p.members == was.members
      invariant fresh(p) && (!status.More? ==> f.pos == |f.content|)
      decreases status.More?, |f.content| - f.pos
    {
      var data;
      data, status := f.Read(chunkSize);
      if |data| > 0 {
        ghost var next := seen + data;
        assert next == f.content[..f.pos] && f.content == next + f.content[f.pos..];
        ChunkDecoded(seen, data, max);
        DecodedPrefix(next, f.content[f.pos..], max);
        buf := buf + data;
        var res := DecodeMembers(buf, max);
        if res.failed {
          return p, DecodeError;
        }
        LinesChunk(was.text, res.text);
        NothingConsumed(buf, max);
        if res.consumed > 0 {
          p.bytes := p.bytes + |res.text|;
          p.members := p.members + res.members;
          pending := Consume(p, pending + res.text);
          buf := buf[res.consumed..];
        } else {
          assert was.text + res.text == was.text;
        }
        seen, was := next, DecodeAll(next, max);
      }
      if status.Failed? {
        return p, ReadError;
      }
    }
    assert seen == f.content;
    var line := Trim(pending);
    HandedIs(pending);
    if |line| > 0 {
      p.lines := p.lines + [line];
    }
    return p, Done;
  }

  lemma {:induction false} HandedIs(line: Bytes)
    ensures Handed(line) == if Trim(line) == [] then [] else [Trim(line)]
  {}

  /** Where nothing was consumed there is nothing to add. */
  lemma {:induction false} NothingConsumed(buf: Bytes, max: nat)
    ensures var res := DecodeAll(buf, max); res.consumed == 0 ==> res.text == [] && res.members == 0
  {
    hide DecodeOne;
  }
}
