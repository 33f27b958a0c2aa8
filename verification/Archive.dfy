/** Whole-member decoding and resynchronisation: internal/archive. */
module Archive {
  import opened Codec

  /** What a buffer decodes to: the text of its leading complete members and how far they reach. */
  datatype Decoded = Decoded(text: Bytes, consumed: nat, members: nat, failed: bool)

  function After(text: Bytes, used: nat, rest: Decoded): Decoded {
    Decoded(text + rest.text, used + rest.consumed, 1 + rest.members, rest.failed)
  }

  /** The meaning of a buffer, member by member from its front. */
  function DecodeAll(d: Bytes, max: nat): (r: Decoded)
    ensures r.consumed <= |d|
    ensures r.consumed == 0 ==> r.text == [] && r.members == 0
    decreases |d|
  {
    match DecodeOne(d, max)
    case Complete(text, used) => After(text, used, DecodeAll(d[used..], max))
    case Incomplete => Decoded([], 0, 0, false)
    case _ => Decoded([], 0, 0, true)
  }

  /** `rest` decoded after what `first` already covers. */
  function Then(first: Decoded, rest: Decoded): Decoded {
    Decoded(first.text + rest.text, first.consumed + rest.consumed, first.members + rest.members, rest.failed)
  }

  /**
   What is left over is never a complete member: it is the start of one that the writer
   has not finished, or bytes that no further append can repair.
   */
  lemma {:induction false} NothingCompleteIsLeft(d: Bytes, max: nat)
    ensures var r := DecodeAll(d, max);
            if r.failed then DecodeOne(d[r.consumed..], max).Corrupt? || DecodeOne(d[r.consumed..], max).Oversize?
            else DecodeOne(d[r.consumed..], max).Incomplete?
    decreases |d|
  {
    hide DecodeOne, DecodeAll;
    DecodeStep(d, max);
    match DecodeOne(d, max)
    case Complete(text, used) =>
      NothingCompleteIsLeft(d[used..], max);
      var r := DecodeAll(d[used..], max);
      assert d[used..][r.consumed..] == d[used + r.consumed..];
    case _ =>
      assert d[0..] == d;
  }

  /** One unfolding of `DecodeAll`. */
  lemma {:induction false} DecodeStep(d: Bytes, max: nat)
    ensures var o := DecodeOne(d, max);
            DecodeAll(d, max) == if o.Complete? then After(o.text, o.used, DecodeAll(d[o.used..], max))
                                 else Decoded([], 0, 0, !o.Incomplete?)
  {
    hide DecodeOne;
  }

  /** Decoding can stop at any byte and carry the unconsumed tail: nothing is lost or decoded twice. */
  lemma {:induction false} DecodeInTwo(a: Bytes, b: Bytes, max: nat)
    ensures var r := DecodeAll(a, max);
            DecodeAll(a + b, max) == if r.failed then r else Then(r, DecodeAll(a[r.consumed..] + b, max))
    decreases |a|
  {
    hide DecodeOne, DecodeAll;
    DecodeStep(a, max);
    DecodeStep(a + b, max);
    match DecodeOne(a, max)
    case Complete(text, used) =>
      DecodeOneStable(a, b, max);
      DecodeInTwo(a[used..], b, max);
      var r := DecodeAll(a[used..], max);
      assert (a + b)[used..] == a[used..] + b;
      assert a[used..][r.consumed..] == a[used + r.consumed..];
      ghost var more := DecodeAll(a[used..][r.consumed..] + b, max).text;
      assert text + (r.text + more) == (text + r.text) + more;
    case Incomplete =>
      assert a[0..] == a;
      assert [] + DecodeAll(a + b, max).text == DecodeAll(a + b, max).text;
    case _ =>
      DecodeOneStable(a, b, max);
  }

  /** How the decompressor ended: cleanly, out of input, on bad data, or stopped at the cap. */
  datatype Ending = Clean | EndOfInput | BadData | Capped

  /** One block: the decoding it ends, or goes on as. */
  lemma BlockStep(d: Bytes, at: nat, text: Bytes, max: nat)
    requires at + 5 <= |d| && |text| <= max
    ensures var from, n := at + 5, U16(d, at + 1);
            var got := Min(n, |d| - from);
            Body(d, at, text, max) ==
              if d[at] > 1 || n + U16(d, at + 3) != 0xffff then Corrupt
              else if |text| + got >= max then Oversize(text + d[from..from + max - |text|])
              else if got < n then Incomplete
              else if d[at] == 0 then Body(d, from + n, text + d[from..from + n], max)
              else Trailer(d, from + n, text + d[from..from + n])
  {
    hide U16, Trailer;
  }

  /**
   One member through the decompressor, starting at `pos`.  On any ending but `Clean` the
   bytes already produced are still handed over; the caller has to take them back.
   */
  method Inflate(data: Bytes, pos: nat, max: nat) returns (produced: Bytes, ending: Ending, next: nat)
    requires pos <= |data|
    ensures ending.Clean? <==> DecodeOne(data[pos..], max).Complete?
    ensures ending.EndOfInput? <==> DecodeOne(data[pos..], max).Incomplete?
    ensures ending.Capped? <==> DecodeOne(data[pos..], max).Oversize?
    ensures ending.Clean? ==> pos < next <= |data| && DecodeOne(data[pos..], max) == Complete(produced, next - pos)
    ensures ending.Capped? ==> DecodeOne(data[pos..], max) == Oversize(produced)
  {
    var d := data[pos..];
    produced, next := [], pos;
    if |d| < HEADER {
      ending := EndOfInput;
      return;
    }
    if d[..3] != MAGIC {
      ending := BadData;
      return;
    }
    assert DecodeOne(d, max) == Body(d, HEADER, [], max);
    var used;
    produced, ending, used := InflateBody(d, max);
    next := if ending.Clean? then pos + used else pos;
  }

  /** The blocks and the trailer of a member. */
  method InflateBody(d: Bytes, max: nat) returns (produced: Bytes, ending: Ending, used: nat)
    requires |d| >= HEADER
    ensures match Body(d, HEADER, [], max)
            case Complete(text, k) => ending.Clean? && produced == text && used == k && HEADER < used <= |d|
            case Incomplete => ending.EndOfInput?
            case Corrupt => ending.BadData?
            case Oversize(head) => ending.Capped? && produced == head
  {
    hide Body, U16, U32;
    var at: nat, last := HEADER, false;
    produced, used := [], 0;
    while !last
      invariant HEADER <= at <= |d| && |produced| <= max
      invariant Body(d, HEADER, [], max) == if last then Trailer(d, at, produced) else Body(d, at, produced, max)
      decreases !last, |d| - at
    {
      var from := at + 5;
      if |d| < from {
        TooShort(d, at, produced, max);
        ending := EndOfInput;
        return;
      }
      BlockStep(d, at, produced, max);
      if d[at] > 1 || U16(d, at + 1) + U16(d, at + 3) != 0xffff {
        ending := BadData;
        return;
      }
      var got := Min(U16(d, at + 1), |d| - from);
      if |produced| + got >= max {
        produced := produced + d[from..from + max - |produced|];
        ending := Capped;
        return;
      }
      if got < U16(d, at + 1) {
        produced := produced + d[from..from + got];
        ending := EndOfInput;
        return;
      }
      produced, last, at := produced + d[from..from + got], d[at] == 1, from + got;
    }
    if |d| < at + TRAILER {
      ending := EndOfInput;
    } else if U32(d, at + 4) != |produced| % 0x1_0000_0000 {
      ending := BadData;
    } else {
      ending, used := Clean, at + TRAILER;
    }
  }

  lemma {:induction false} TooShort(d: Bytes, at: nat, text: Bytes, max: nat)
    requires at <= |d| < at + 5 && |text| <= max
    ensures Body(d, at, text, max) == Incomplete
  {}

  /** A member more, as the loop counts it. */
  lemma {:induction false} MemberDone(data: Bytes, done: Decoded, produced: Bytes, next: nat, max: nat)
    requires done.consumed < next <= |data| && !done.failed
    requires DecodeAll(data, max) == Then(done, DecodeAll(data[done.consumed..], max))
    requires DecodeOne(data[done.consumed..], max) == Complete(produced, next - done.consumed)
    ensures DecodeAll(data, max)
         == Then(Decoded(done.text + produced, next, done.members + 1, false), DecodeAll(data[next..], max))
  {
    hide DecodeOne, DecodeAll;
    DecodeStep(data[done.consumed..], max);
    var rest := DecodeAll(data[next..], max);
    assert data[done.consumed..][next - done.consumed..] == data[next..];
    assert done.text + (produced + rest.text) == (done.text + produced) + rest.text;
  }

  /** No member more. */
  lemma {:induction false} MembersEnd(data: Bytes, done: Decoded, max: nat)
    requires done.consumed <= |data| && !done.failed && !DecodeOne(data[done.consumed..], max).Complete?
    requires DecodeAll(data, max) == Then(done, DecodeAll(data[done.consumed..], max))
    ensures DecodeAll(data, max) == done.(failed := !DecodeOne(data[done.consumed..], max).Incomplete?)
  {
    hide DecodeOne, DecodeAll;
    DecodeStep(data[done.consumed..], max);
    assert done.text + [] == done.text;
  }

  /**
   The text of the complete members that `data` begins with.  A partial member at the end
   is not an error; a corrupt or oversized one is, and everything before it is still
   reported.
   */
  method DecodeMembers(data: Bytes, max: nat) returns (res: Decoded)
    ensures res == DecodeAll(data, max)
  {
    hide DecodeOne, DecodeAll, Then;
    var buf: Bytes := [];
    var consumed, members := 0, 0;
    NoneDone(data, max);
    while consumed < |data|
      invariant 0 <= consumed <= |data|
      invariant DecodeAll(data, max) == Then(Decoded(buf, consumed, members, false), DecodeAll(data[consumed..], max))
      decreases |data| - consumed
    {
      var produced, ending, next := Inflate(data, consumed, max);
      ghost var done := Decoded(buf, consumed, members, false);
      buf := buf + produced;
      if !ending.Clean? {
        // Take back what this member wrote: it did not finish.
        buf := buf[..|buf| - |produced|];
        assert buf == done.text;
        MembersEnd(data, done, max);
        return Decoded(buf, consumed, members, !ending.EndOfInput?);
      }
      MemberDone(data, done, produced, next, max);
      consumed, members := next, members + 1;
    }
    NothingIncomplete(data[consumed..], max);
    MembersEnd(data, Decoded(buf, consumed, members, false), max);
    return Decoded(buf, consumed, members, false);
  }

  lemma {:induction false} NoneDone(data: Bytes, max: nat)
    ensures DecodeAll(data, max) == Then(Decoded([], 0, 0, false), DecodeAll(data[0..], max))
  {
    hide DecodeAll;
    assert data[0..] == data;
    assert [] + DecodeAll(data, max).text == DecodeAll(data, max).text;
  }

  lemma NothingIncomplete(d: Bytes, max: nat)
    requires |d| == 0
    ensures DecodeOne(d, max).Incomplete?
  {}

  // ---- Resynchronisation -----------------------------------------------------------

  /** How far a hunt for a member start may go. */
  const RESYNC_SCAN_LIMIT: nat := 0x40_0000

  /** The header has the magic and the three reserved flag bits are clear. */
  predicate PlausibleHeader(d: Bytes) {
    |d| >= HEADER && d[..3] == MAGIC && d[3] < 0x20
  }

  /** Continuation bytes at `at`: `n` of them, all of the form 10xxxxxx. */
  predicate Continues(s: Bytes, at: nat, n: nat) {
    at + n <= |s| && forall i | at <= i < at + n :: 0x80 <= s[i] < 0xc0
  }

  /** The length of the UTF-8 sequence at `at` (section 4 of RFC 3629), or 0 when it is malformed. */
  function RuneLength(s: Bytes, at: nat): (n: nat)
    requires at < |s|
    ensures at + n <= |s|
  {
    var b := s[at];
    if b < 0x80 then 1
    else if 0xc2 <= b < 0xe0 && Continues(s, at + 1, 1) then 2
    else if 0xe0 <= b < 0xf0 && Continues(s, at + 1, 2)
         && (b == 0xe0 ==> s[at + 1] >= 0xa0) && (b == 0xed ==> s[at + 1] < 0xa0) then 3
    else if 0xf0 <= b < 0xf5 && Continues(s, at + 1, 3)
         && (b == 0xf0 ==> s[at + 1] >= 0x90) && (b == 0xf4 ==> s[at + 1] < 0x90) then 4
    else 0
  }

  predicate ValidUtf8(s: Bytes, at: nat := 0)
    requires at <= |s|
    decreases |s| - at
  {
    at == |s| || (RuneLength(s, at) > 0 && ValidUtf8(s, at + RuneLength(s, at)))
  }

  /** The text holds the opening of a JSON object with a key. */
  predicate HoldsObject(s: Bytes) {
    exists i | 0 <= i < |s| - 1 :: s[i] == 0x7b && s[i + 1] == 0x22
  }

  predicate ArchiveText(s: Bytes) {
    s != [] && ValidUtf8(s) && HoldsObject(s)
  }

  /**
   A candidate start is believed only when it decodes into archive text and what follows
   is either another header or fewer bytes than the magic.
   */
  predicate PlausibleMemberAt(d: Bytes, max: nat) {
    && PlausibleHeader(d)
    && DecodeOne(d, max).Complete?
    && ArchiveText(DecodeOne(d, max).text)
    && var rest := d[DecodeOne(d, max).used..];
       |rest| < |MAGIC| || PlausibleHeader(rest)
  }

  predicate MagicAt(d: Bytes, i: nat, limit: nat) {
    i + 3 <= limit <= |d| && d[i..i + 3] == MAGIC
  }

  /** Where in `d` the magic next occurs at or after `from`, within `limit`; `limit` if nowhere. */
  method NextMagic(d: Bytes, from: nat, limit: nat) returns (j: nat)
    requires from <= limit <= |d|
    ensures from <= j <= limit
    ensures j < limit ==> MagicAt(d, j, limit)
    ensures forall i | from <= i < j :: !MagicAt(d, i, limit)
  {
    j := from;
    while j + 3 <= limit
      invariant from <= j <= limit
      invariant forall i | from <= i < j :: !MagicAt(d, i, limit)
    {
      if MagicAt(d, j, limit) {
        return;
      }
      j := j + 1;
    }
    j := limit;
  }

  /** A start that the hunt would accept. */
  predicate Accepts(d: Bytes, i: nat, max: nat) {
    i + 3 <= Min(|d|, RESYNC_SCAN_LIMIT) && PlausibleMemberAt(d[i..], max)
  }

  /** The first plausible member start in a buffer cut at an arbitrary byte. */
  method FindMemberStart(data: Bytes, max: nat) returns (off: nat, ok: bool)
    ensures ok ==> off < |data| && Accepts(data, off, max) && forall i | 0 <= i < off :: !Accepts(data, i, max)
    ensures !ok ==> forall i | 0 <= i < |data| :: !Accepts(data, i, max)
  {
    var limit := Min(|data|, RESYNC_SCAN_LIMIT);
    var i := 0;
    while i < limit
      invariant 0 <= i <= limit
      invariant forall j | 0 <= j < i :: !Accepts(data, j, max)
    {
      var j := NextMagic(data, i, limit);
      forall k | i <= k < j && k + 3 <= limit
        ensures !PlausibleMemberAt(data[k..], max)
      {
        assert !MagicAt(data, k, limit);
        assert data[k..][..3] == data[k..k + 3];
      }
      if j == limit {
        return 0, false;
      }
      i := j;
      var plausible := PlausibleMemberAt(data[i..], max);
      if plausible {
        return i, true;
      }
      i := i + 1;
    }
    return 0, false;
  }

  /**
   Exactly one member, with the bytes it covers; none consumed when it is incomplete.  An
   oversized member is cut at the cap and reported as consumed.
   */
  method DecodeMember(data: Bytes, max: nat) returns (text: Bytes, consumed: nat, failed: bool)
    requires max > 0
    ensures match DecodeOne(data, max)
            case Complete(t, used) => text == t && consumed == used && !failed
            case Incomplete => text == [] && consumed == 0 && !failed
            case Corrupt => failed
            case Oversize(head) => text == head && 0 < consumed <= |data| && !failed
  {
    assert data[0..] == data;
    var produced, ending, next := Inflate(data, 0, max);
    match ending
    case Clean => return produced, next, false;
    case EndOfInput => return [], 0, false;
    case BadData => return [], 0, true;
    case Capped => return produced, |data|, false;
  }
}
