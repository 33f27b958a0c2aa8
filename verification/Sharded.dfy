/**
 Scanning one archive as byte ranges: internal/scan.  A range owns the members that begin
 inside it; a worker resynchronises onto the first of them and finishes the last one past
 the end of its range.
 */
module Sharded {
  import opened Codec
  import opened Archive
  import opened Lines
  import opened Scan

  type Range = (nat, nat)

  /** Caps of the scan: on one member, on one read, and on reading past the end of a range. */
  datatype Caps = Caps(member: nat, chunk: nat, slack: nat)

  // ---- Which members a range owns ---------------------------------------------------

  /** The member, if any, at byte `p` of a file. */
  function At(file: Bytes, p: nat, max: nat): (o: Outcome)
    requires p <= |file|
    ensures o.Complete? ==> HEADER + TRAILER < o.used <= |file| - p
  {
    DecodeOne(file[p..], max)
  }

  /** The first member at or after byte `from`, following the chain of members at `at`; `|file|` if none. */
  function FirstStart(file: Bytes, at: nat, from: nat, max: nat): (p: nat)
    requires at <= |file|
    ensures at <= p <= |file|
    ensures p < |file| ==> p >= from && At(file, p, max).Complete?
    decreases |file| - at
  {
    if !At(file, at, max).Complete? then |file|
    else if at >= from then at
    else FirstStart(file, at + At(file, at, max).used, from, max)
  }

  /** The text of the members that begin before `end`, following the chain at `at`. */
  function TextUntil(file: Bytes, at: nat, end: nat, max: nat): Bytes
    requires at <= |file|
    decreases |file| - at
  {
    if at >= end || !At(file, at, max).Complete? then []
    else At(file, at, max).text + TextUntil(file, at + At(file, at, max).used, end, max)
  }

  /** The text of the members that begin in `[r.0, r.1)`. */
  function Owned(file: Bytes, r: Range, max: nat): Bytes {
    TextUntil(file, FirstStart(file, 0, r.0, max), r.1, max)
  }

  /** A member begins at `p`. */
  predicate Starts(file: Bytes, p: nat, max: nat) {
    p < |file| && FirstStart(file, 0, p, max) == p
  }

  // ---- What a worker reads ----------------------------------------------------------

  /** The bytes a worker resynchronises in. */
  function Window(file: Bytes, r: Range, caps: Caps): Bytes
    requires r.0 <= r.1
  {
    var from := Min(r.0, |file|);
    file[from..Min(|file|, from + Min(caps.chunk, r.1 - r.0 + caps.slack))]
  }

  function FirstAccepted(d: Bytes, i: nat, max: nat): (off: nat)
    requires i <= |d|
    ensures i <= off <= |d|
    ensures off < |d| ==> Accepts(d, off, max)
    ensures forall j | i <= j < off :: !Accepts(d, j, max)
    decreases |d| - i
  {
    if i == |d| || Accepts(d, i, max) then i else FirstAccepted(d, i + 1, max)
  }

  /** Where a worker begins to decode; at or past `r.1` when nothing begins in its range. */
  function Landing(file: Bytes, r: Range, caps: Caps): nat
    requires r.0 <= r.1
  {
    if r.0 == 0 then 0
    else
      var win := Window(file, r, caps);
      var off := FirstAccepted(win, 0, caps.member);
      if off == |win| then r.1 else r.0 + off
  }

  datatype Ranged = Ranged(text: Bytes, failed: bool)

  /** What a worker decodes from `pos`: whole members up to `end`, then the one that straddles it. */
  function Decoding(file: Bytes, pos: nat, end: nat, caps: Caps): Ranged
    requires pos <= |file| && pos <= end
  {
    var inside := DecodeAll(file[pos..Min(end, |file|)], caps.member);
    var at := pos + inside.consumed;
    if inside.failed then Ranged(inside.text, true)
    else if at == Min(end, |file|) then Ranged(inside.text, false)
    else
      var straddler := DecodeOne(file[at..Min(end + caps.slack, |file|)], caps.member);
      match straddler
      case Complete(text, _) => Ranged(inside.text + text, false)
      case Incomplete => Ranged(inside.text, false)
      case Corrupt => Ranged(inside.text, true)
      case Oversize(head) => Ranged(inside.text + head, false)
  }

  /** Everything a worker decodes for one range, of any file at all. */
  function RangeText(file: Bytes, r: Range, caps: Caps): Ranged
    requires r.0 <= r.1
  {
    var pos := Landing(file, r, caps);
    if pos >= r.1 then Ranged([], false) else Decoding(file, Min(pos, |file|), r.1, caps)
  }

  /** The same when the read past the end of the range brings only `got` bytes. */
  function RangeRead(file: Bytes, r: Range, caps: Caps, got: nat): Ranged
    requires r.0 <= r.1
  {
    var pos := Landing(file, r, caps);
    if pos >= r.1 then Ranged([], false) else Decoding(file, Min(pos, |file|), r.1, caps.(slack := got))
  }

  /** Part of what a worker reads inside its range decodes to the start of what it decodes. */
  lemma Within(file: Bytes, start: nat, upto: nat, end: nat, caps: Caps)
    requires start <= upto <= Min(end, |file|)
    ensures var part, all := DecodeAll(file[start..upto], caps.member), Decoding(file, start, end, caps);
            LinesFrom([], part.text) <= AllLines(all.text) && (part.failed ==> all.failed)
  {
    hide DecodeOne, DecodeAll, LinesFrom, CarryFrom, Handed, AllLines;
    var to := Min(end, |file|);
    DecodedPrefix(file[start..upto], file[upto..to], caps.member);
    assert file[start..upto] + file[upto..to] == file[start..to];
    var part, inside, all := DecodeAll(file[start..upto], caps.member), DecodeAll(file[start..to], caps.member),
                             Decoding(file, start, end, caps);
    assert inside.text <= all.text;
    LinesOfPrefix(part.text, all.text[|part.text|..]);
    assert part.text + all.text[|part.text|..] == all.text;
  }

  /**
   One worker: the lines of the members its range owns, as far as it finds them.  `got` is how
   much its one read past the end of the range brought; the system may cut it short.
   */
  method StreamRange(f: Handle, r: Range, caps: Caps, sink: LineSink) returns (ended: Ended, ghost got: nat)
    requires f.pos == 0 && r.0 <= r.1 && caps.member > 0 && caps.chunk > 0 && caps.slack > 0
    modifies f, sink
    ensures got <= caps.slack
    ensures ended.Done? ==> !RangeRead(f.content, r, caps, got).failed
    ensures ended.Done? ==> sink.got == old(sink.got) + AllLines(RangeRead(f.content, r, caps, got).text)
    ensures ended.DecodeError? ==> RangeRead(f.content, r, caps, got).failed
    ensures f.reliable && sink.willing ==> ended.Done? || ended.DecodeError?
    ensures old(sink.got) <= sink.got <= old(sink.got) + AllLines(RangeRead(f.content, r, caps, got).text)
  {
    hide DecodeOne, DecodeAll, LinesFrom, CarryFrom, Handed, Accepts;
    Nothing(caps.member);
    var pos := 0;
    got := caps.slack;
    if r.0 > 0 {
      f.Seek(Min(r.0, |f.content|));
      var head, failed := f.ReadAll(Min(caps.chunk, r.1 - r.0 + caps.slack));
      if failed {
        return ReadError, got;
      }
      assert head == Window(f.content, r, caps);
      var off, ok := FindMemberStart(head, caps.member);
      if !ok {
        assert FirstAccepted(head, 0, caps.member) == |head|;
        return Done, got;
      }
      assert FirstAccepted(head, 0, caps.member) == off;
      pos := r.0 + off;
    }
    if pos >= r.1 {
      return Done, got;
    }
    assert pos == Landing(f.content, r, caps);
    ended, got := Decode(f, pos, r.1, caps, sink);
  }

  /** Both phases of `StreamRange`, once it knows where to begin. */
  method Decode(f: Handle, start: nat, end: nat, caps: Caps, sink: LineSink) returns (ended: Ended, ghost got: nat)
    requires start < end && start <= |f.content| && caps.member > 0 && caps.chunk > 0 && caps.slack > 0
    modifies f, sink
    ensures got <= caps.slack
    ensures ended.Done? ==> !Decoding(f.content, start, end, caps.(slack := got)).failed
    ensures ended.Done? ==> sink.got == old(sink.got) + AllLines(Decoding(f.content, start, end, caps.(slack := got)).text)
    ensures ended.DecodeError? ==> Decoding(f.content, start, end, caps.(slack := got)).failed
    ensures f.reliable && sink.willing ==> ended.Done? || ended.DecodeError?
    ensures old(sink.got) <= sink.got <= old(sink.got) + AllLines(Decoding(f.content, start, end, caps.(slack := got)).text)
  {
    hide DecodeOne, DecodeAll, LinesFrom, CarryFrom, Handed, Decoding;
    var pending, buf;
    got := caps.slack;
    ended, pending, buf := WholeMembers(f, start, end, caps, sink);
    if !ended.Done? {
      return;
    }
    if |buf| > 0 {
      ended, pending, got := Straddler(f, start, end, caps, sink, pending, buf, old(sink.got));
      if !ended.Done? {
        return;
      }
    } else {
      NoStraddler(f.content, start, end, caps);
    }
    var ok := FlushLine(pending, sink);
    ended := if ok then Done else Refused;
  }

  lemma NoStraddler(file: Bytes, start: nat, end: nat, caps: Caps)
    requires start < end && start <= |file|
    requires var inside := DecodeAll(file[start..Min(end, |file|)], caps.member);
             !inside.failed && start + inside.consumed == Min(end, |file|)
    ensures Decoding(file, start, end, caps)
         == Ranged(DecodeAll(file[start..Min(end, |file|)], caps.member).text, false)
  {
    hide DecodeAll;
  }

  /** Phase two: one read past the end of the range, and at most one member out of it. */
  method Straddler(f: Handle, start: nat, end: nat, caps: Caps, sink: LineSink, carry: Bytes, left: Bytes,
                   ghost before: seq<Bytes>)
      returns (ended: Ended, pending: Bytes, ghost got: nat)
    requires start < end && start <= |f.content| && caps.member > 0 && caps.slack > 0 && |left| > 0
    requires var to := Min(end, |f.content|);
             var inside := DecodeAll(f.content[start..to], caps.member);
             && f.pos == to && !inside.failed
             && left == f.content[start + inside.consumed..to]
             && carry == CarryFrom([], inside.text)
             && sink.got == before + LinesFrom([], inside.text)
    modifies f, sink
    ensures got <= caps.slack
    ensures ended.Done? ==>
              var all := Decoding(f.content, start, end, caps.(slack := got));
              !all.failed && pending == CarryFrom([], all.text) && sink.got == before + LinesFrom([], all.text)
    ensures ended.DecodeError? ==> Decoding(f.content, start, end, caps.(slack := got)).failed
    ensures f.reliable && sink.willing ==> ended.Done? || ended.DecodeError?
    ensures before <= sink.got <= before + AllLines(Decoding(f.content, start, end, caps.(slack := got)).text)
  {
    hide DecodeOne, DecodeAll, LinesFrom, CarryFrom, Handed, AllLines;
    ghost var to := f.pos;
    ghost var inside := DecodeAll(f.content[start..to], caps.member);
    ghost var at := start + inside.consumed;
    var slack, status := f.Read(caps.slack);
    got := |slack|;
    pending := carry;
    Within(f.content, start, to, end, caps.(slack := got));
    if status.Failed? {
      return ReadError, pending, got;
    }
    ghost var upto := Min(end + got, |f.content|);
    assert slack == f.content[to..upto];
    assert f.content[at..to] + f.content[to..upto] == f.content[at..upto];
    var text, consumed, bad := DecodeMember(left + slack, caps.member);
    if bad {
      return DecodeError, pending, got;
    }
    if consumed == 0 {
      return Done, pending, got;
    }
    LinesChunk(inside.text, text);
    LinesOfPrefix(inside.text + text, []);
    assert inside.text + text + [] == inside.text + text;
    var ok;
    pending, ok := EmitLines(pending, text, sink);
    assert before + LinesFrom([], inside.text) + LinesFrom([], CarryFrom([], inside.text) + text)
        == before + LinesFrom([], inside.text + text);
    return if ok then Done else Refused, pending, got;
  }

  /** The members that end before the range does; `buf` is what of the range is left over. */
  method WholeMembers(f: Handle, start: nat, end: nat, caps: Caps, sink: LineSink)
      returns (ended: Ended, pending: Bytes, buf: Bytes)
    requires start < end && start <= |f.content| && caps.chunk > 0
    modifies f, sink
    ensures ended.DecodeError? ==> Decoding(f.content, start, end, caps).failed
    ensures f.reliable && sink.willing ==> ended.Done? || ended.DecodeError?
    ensures old(sink.got) <= sink.got <= old(sink.got) + AllLines(Decoding(f.content, start, end, caps).text)
    ensures ended.Done? ==>
              var to := Min(end, |f.content|);
              var inside := DecodeAll(f.content[start..to], caps.member);
              && f.pos == to && !inside.failed
              && buf == f.content[start + inside.consumed..to]
              && pending == CarryFrom([], inside.text)
              && sink.got == old(sink.got) + LinesFrom([], inside.text)
  {
    hide DecodeOne, DecodeAll, LinesFrom, CarryFrom, Handed, Decoding, AllLines;
    Nothing(caps.member);
    f.Seek(start);
    var pos := start;
    pending, buf := [], [];
    ghost var seen: Bytes, was := [], DecodeAll([], caps.member);
    var status := More;
    Within(f.content, start, f.pos, end, caps);
    while pos < end && status.More? && Min(caps.chunk, end - pos - |buf|) > 0
      invariant start <= f.pos <= Min(end, |f.content|)
      invariant seen == f.content[start..f.pos] && was == DecodeAll(seen, caps.member) && !was.failed
      invariant pos == start + was.consumed && buf == seen[was.consumed..]
      invariant pending == CarryFrom([], was.text)
      invariant sink.got == old(sink.got) + LinesFrom([], was.text)
      invariant LinesFrom([], was.text) <= AllLines(Decoding(f.content, start, end, caps).text)
      invariant !status.More? ==> f.pos == |f.content|
      decreases status.More?, end - f.pos
    {
      var chunk;
      chunk, status := f.Read(Min(caps.chunk, end - pos - |buf|));
      if |chunk| > 0 {
        ghost var next := seen + chunk;
        assert next == f.content[start..f.pos];
        Within(f.content, start, f.pos, end, caps);
        ChunkDecoded(seen, chunk, caps.member);
        buf := buf + chunk;
        var res := DecodeMembers(buf, caps.member);
        if res.failed {
          return DecodeError, [], [];
        }
        ghost var now := DecodeAll(next, caps.member);
        LinesChunk(was.text, res.text);
        if res.consumed > 0 {
          ghost var before := sink.got;
          var ok;
          pending, ok := EmitLines(pending, res.text, sink);
          assert before + LinesFrom([], CarryFrom([], was.text) + res.text) == old(sink.got) + LinesFrom([], now.text);
          if !ok {
            return Refused, [], [];
          }
          buf := buf[res.consumed..];
          pos := pos + res.consumed;
        } else {
          assert was.text + [] == was.text;
        }
        seen, was := next, now;
      }
      if status.Failed? {
        return ReadError, [], [];
      }
    }
    assert seen == f.content[start..Min(end, |f.content|)];
    ended := Done;
  }
}
