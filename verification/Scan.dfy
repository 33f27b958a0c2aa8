/** Streaming a whole archive, and one byte range of it: internal/scan and internal/profile. */
module Scan {
  import opened Codec
  import opened Archive
  import opened Lines

  /** An open archive file.  Reads may come back short; nothing else about them is unknown. */
  class Handle {
    const content: Bytes
    /** No read of it fails. */
    const reliable: bool
    var pos: nat

    constructor (content: Bytes, reliable: bool)
      ensures this.content == content && this.reliable == reliable && pos == 0
    {
      this.content, this.reliable := content, reliable;
      pos := 0;
    }

    /** Some of the bytes that follow, at least one unless the end or an error is reached. */
    method Read(limit: nat) returns (chunk: Bytes, status: ReadStatus)
      requires limit > 0 && pos <= |content|
      modifies this
      ensures |chunk| <= limit && old(pos) <= pos <= |content| && chunk == content[old(pos)..pos]
      ensures status.More? ==> chunk != []
      ensures status.Eof? ==> pos == old(pos) == |content|
      ensures reliable ==> !status.Failed?
    {
      var most := Min(limit, |content| - pos);
      var n: nat :| n <= most && (n == 0 ==> most == 0);
      chunk, pos := content[pos..pos + n], pos + n;
      var broken: bool := *;
      status := if broken && !reliable then ReadStatus.Failed else if n == 0 then Eof else More;
    }

    /** Every byte that follows, up to `limit`. */
    method ReadAll(limit: nat) returns (chunk: Bytes, failed: bool)
      requires pos <= |content|
      modifies this
      ensures pos == Min(old(pos) + limit, |content|) && chunk == content[old(pos)..pos]
      ensures reliable ==> !failed
    {
      var n := Min(limit, |content| - pos);
      chunk, pos := content[pos..pos + n], pos + n;
      failed := *;
      failed := failed && !reliable;
    }

    method Seek(to: nat)
      modifies this
      ensures pos == to
    {
      pos := to;
    }
  }

  datatype ReadStatus = More | Eof | Failed

  /** How a scan ended: at the end of its input, or on the first thing that stopped it. */
  datatype Ended = Done | DecodeError | ReadError | Refused

  /** What one more chunk does to a carry of undecoded bytes. */
  lemma {:induction false} ChunkDecoded(seen: Bytes, chunk: Bytes, max: nat)
    requires !DecodeAll(seen, max).failed
    ensures var was, now := DecodeAll(seen, max), DecodeAll(seen + chunk, max);
            var res := DecodeAll(seen[was.consumed..] + chunk, max);
            now == Then(was, res)
            && (seen[was.consumed..] + chunk)[res.consumed..] == (seen + chunk)[now.consumed..]
  {
    hide DecodeOne, DecodeAll;
    DecodeInTwo(seen, chunk, max);
    var c := DecodeAll(seen, max).consumed;
    assert seen[c..] + chunk == (seen + chunk)[c..];
  }

  /** The complete lines of a text are the first lines of any longer one. */
  lemma {:induction false} LinesOfPrefix(text: Bytes, more: Bytes)
    ensures LinesFrom([], text) <= AllLines(text + more)
  {
    hide LinesFrom, CarryFrom, Handed;
    LinesInTwo([], text, more);
  }

  /** Decoding the start of a file yields the start of its text, and a failure there is the file's. */
  lemma {:induction false} DecodedPrefix(seen: Bytes, later: Bytes, max: nat)
    ensures var was, now := DecodeAll(seen, max), DecodeAll(seen + later, max);
            was.text <= now.text && LinesFrom([], was.text) <= AllLines(now.text) && (was.failed ==> now == was)
  {
    hide DecodeOne, DecodeAll, LinesFrom, CarryFrom, Handed;
    DecodeInTwo(seen, later, max);
    var was := DecodeAll(seen, max);
    LinesOfPrefix(was.text, DecodeAll(seen[was.consumed..] + later, max).text);
    LinesOfPrefix(was.text, []);
    assert was.text + [] == was.text;
  }

  /**
   Reads a file chunk by chunk, with one carry of bytes and one of text.  However the reads cut
   the file, its lines are those of the file decoded at once.
   */
  method StreamLines(f: Handle, chunkSize: nat, max: nat, sink: LineSink) returns (ended: Ended)
    requires f.pos == 0 && chunkSize > 0
    modifies f, sink
    ensures ended.Done? ==> !DecodeAll(f.content, max).failed
    ensures ended.Done? ==> sink.got == old(sink.got) + AllLines(DecodeAll(f.content, max).text)
    ensures ended.DecodeError? ==> DecodeAll(f.content, max).failed
    ensures f.reliable && sink.willing ==> ended.Done? || ended.DecodeError?
    ensures old(sink.got) <= sink.got <= old(sink.got) + AllLines(DecodeAll(f.content, max).text)
  {
    hide DecodeOne, DecodeAll, LinesFrom, CarryFrom, Handed;
    var pending: Bytes, buf: Bytes := [], [];
    ghost var seen: Bytes, was := [], DecodeAll([], max);
    Nothing(max);
    var status := More;
    while status.More?
      invariant f.pos <= |f.content| && seen == f.content[..f.pos] && was == DecodeAll(seen, max) && !was.failed
      invariant buf == seen[was.consumed..]
      invariant pending == CarryFrom([], was.text)
      invariant sink.got == old(sink.got) + LinesFrom([], was.text)
      invariant !status.More? ==> f.pos == |f.content|
      decreases status.More?, |f.content| - f.pos
    {
      DecodedPrefix(seen, f.content[f.pos..], max);
      assert f.content == seen + f.content[f.pos..];
      var chunk;
      chunk, status := f.Read(chunkSize);
      if |chunk| > 0 {
        ghost var next := seen + chunk;
        assert next == f.content[..f.pos];
        assert f.content == next + f.content[f.pos..];
        ChunkDecoded(seen, chunk, max);
        DecodedPrefix(next, f.content[f.pos..], max);
        buf := buf + chunk;
        var res := DecodeMembers(buf, max);
        if res.failed {
          return DecodeError;
        }
        ghost var now := DecodeAll(next, max);
        LinesChunk(was.text, res.text);
        if res.consumed > 0 {
          ghost var before := sink.got;
          var ok;
          pending, ok := EmitLines(pending, res.text, sink);
          assert before + LinesFrom([], CarryFrom([], was.text) + res.text) == old(sink.got) + LinesFrom([], now.text);
          if !ok {
            return Refused;
          }
          buf := buf[res.consumed..];
        } else {
          assert was.text + [] == was.text;
        }
        seen, was := next, now;
      }
      if status.Failed? {
        return ReadError;
      }
    }
    assert seen == f.content;
    var ok := FlushLine(pending, sink);
    if !ok {
      return Refused;
    }
    return Done;
  }

  lemma {:induction false} Nothing(max: nat)
    ensures DecodeAll([], max) == Decoded([], 0, 0, false)
    ensures LinesFrom([], []) == [] && CarryFrom([], []) == [] && AllLines([]) == []
  {
    hide DecodeOne;
  }
}
