/**
 The concurrent scan equals the sequential one: internal/scan.  Shards tile the file, each
 member belongs to the shard that holds its first byte, and the shards' lines are put back
 in index order whatever order the workers ran in.
 */
module Tiling {
  import opened Codec
  import opened Archive
  import opened Lines
  import opened Sharded

  // ---- Splitting a file --------------------------------------------------------------

  /** Consecutive ranges that cover `[0, size)` without a gap or an overlap. */
  predicate Tiles(ranges: seq<Range>, size: nat) {
    && |ranges| > 0
    && ranges[0].0 == 0
    && ranges[|ranges| - 1].1 == size
    && (forall k | 0 <= k < |ranges| :: ranges[k].0 <= ranges[k].1)
    && (forall k | 0 < k < |ranges| :: ranges[k - 1].1 == ranges[k].0)
  }

  /** `n` equal ranges, the last taking the rest, or a single one when they would be too small. */
  predicate IsSharding(ranges: seq<Range>, size: nat, n: int, minShard: nat) {
    && Tiles(ranges, size)
    && |ranges| == (if size / Max(n, 1) < minShard then 1 else Max(n, 1))
    && (forall k | 0 <= k < |ranges| - 1 :: ranges[k].1 - ranges[k].0 == size / |ranges|)
    && (forall k | 0 <= k < |ranges| :: ranges[k].1 - ranges[k].0 >= size / |ranges|)
  }

  /** The shards of a file. */
  method Shards(size: nat, n: int, minShard: nat) returns (out: seq<Range>)
    ensures IsSharding(out, size, n, minShard)
  {
    var n := Max(n, 1);
    var step := size / n;
    if step < minShard {
      return [(0, size)];
    }
    out := [];
    for i := 0 to n
      invariant |out| == i
      invariant forall k | 0 <= k < i :: out[k] == (k * step, if k == n - 1 then size else (k + 1) * step)
    {
      NextStep(i, step);
      var start := i * step;
      var end := start + step;
      if i == n - 1 {
        end := size;
      }
      out := out + [(start, end)];
    }
    forall k | 0 <= k < n
      ensures out[k].0 <= out[k].1 && out[k].1 - out[k].0 >= step
      ensures k < n - 1 ==> out[k].1 - out[k].0 == step
    {
      NextStep(k, step);
      StepsFit(k, n, size);
    }
  }

  lemma NextStep(k: nat, step: nat)
    ensures (k + 1) * step == k * step + step
  {}

  lemma StepsFit(k: nat, n: nat, size: nat)
    requires k < n
    ensures (k + 1) * (size / n) <= size
  {
    var step := size / n;
    assert (k + 1) * step <= n * step <= size;
  }

  // ---- The chain of members ----------------------------------------------------------

  /** A window on a sound file shows a member exactly when it holds all of the member's bytes. */
  lemma ThroughWindow(file: Bytes, p: nat, end: nat, max: nat)
    requires p <= end <= |file|
    requires At(file, p, max).Complete? || At(file, p, max).Incomplete?
    ensures var o := At(file, p, max);
            DecodeOne(file[p..end], max) == if o.Complete? && p + o.used <= end then o else Incomplete
  {
    hide DecodeOne;
    assert file[p..][..end - p] == file[p..end];
    if At(file, p, max).Complete? {
      MemberIsItsBytes(file[p..], end - p, max);
    } else if !DecodeOne(file[p..end], max).Incomplete? {
      assert file[p..] == file[p..end] + file[end..];
      DecodeOneStable(file[p..end], file[end..], max);
    }
  }

  /** No member of the chain is corrupt or oversized. */
  predicate Sound(file: Bytes, at: nat, max: nat)
    requires at <= |file|
  {
    !DecodeAll(file[at..], max).failed
  }

  lemma {:induction false} SoundStep(file: Bytes, at: nat, max: nat)
    requires at <= |file| && Sound(file, at, max)
    ensures At(file, at, max).Complete? || At(file, at, max).Incomplete?
    ensures var o := At(file, at, max);
            DecodeAll(file[at..], max) ==
              if o.Complete? then After(o.text, o.used, DecodeAll(file[at + o.used..], max)) else Decoded([], 0, 0, false)
    ensures At(file, at, max).Complete? ==> Sound(file, at + At(file, at, max).used, max)
  {
    hide DecodeOne, DecodeAll;
    DecodeStep(file[at..], max);
    var o := At(file, at, max);
    if o.Complete? {
      assert file[at..][o.used..] == file[at + o.used..];
    }
  }

  /** Read from its front, a sound file yields the text of every member that begins in it. */
  lemma {:induction false} SequentialText(file: Bytes, at: nat, max: nat)
    requires at <= |file| && Sound(file, at, max)
    ensures DecodeAll(file[at..], max).text == TextUntil(file, at, |file|, max)
    decreases |file| - at
  {
    hide DecodeOne, DecodeAll;
    SoundStep(file, at, max);
    if At(file, at, max).Complete? {
      SequentialText(file, at + At(file, at, max).used, max);
    }
  }

  lemma {:induction false} SoundAtStart(file: Bytes, at: nat, from: nat, max: nat)
    requires at <= |file| && Sound(file, at, max)
    ensures Sound(file, FirstStart(file, at, from, max), max)
    decreases |file| - at
  {
    hide DecodeOne, DecodeAll;
    SoundStep(file, at, max);
    if At(file, at, max).Complete? && at < from {
      SoundAtStart(file, at + At(file, at, max).used, from, max);
    } else {
      NoMemberAtEnd(file, max);
      DecodeStep(file[|file|..], max);
    }
  }

  /** The members before `mid`, then those from `mid` on, are the members before `end`. */
  lemma {:induction false} TextInTwo(file: Bytes, at: nat, mid: nat, end: nat, max: nat)
    requires at <= |file| && mid <= end
    ensures TextUntil(file, at, end, max)
         == TextUntil(file, at, mid, max) + TextUntil(file, FirstStart(file, at, mid, max), end, max)
    decreases |file| - at
  {
    hide DecodeOne;
    if at < mid && At(file, at, max).Complete? {
      TextInTwo(file, at + At(file, at, max).used, mid, end, max);
    } else if at < mid {
      NoMemberAtEnd(file, max);
    }
  }

  lemma NoMemberAtEnd(file: Bytes, max: nat)
    ensures At(file, |file|, max).Incomplete?
  {}

  /** Hunting for a start can be done in two hops. */
  lemma {:induction false} StartInTwo(file: Bytes, at: nat, mid: nat, from: nat, max: nat)
    requires at <= |file| && mid <= from
    ensures FirstStart(file, FirstStart(file, at, mid, max), from, max) == FirstStart(file, at, from, max)
    decreases |file| - at
  {
    hide DecodeOne;
    NoMemberAtEnd(file, max);
    if at < mid && At(file, at, max).Complete? {
      StartInTwo(file, at + At(file, at, max).used, mid, from, max);
    }
  }

  // ---- One worker --------------------------------------------------------------------

  /** The member that begins at `p` reaches at most `slack` bytes past `end`. */
  predicate Reaches(file: Bytes, p: nat, end: nat, caps: Caps)
    requires p <= |file|
  {
    At(file, p, caps.member).Complete? ==> p + At(file, p, caps.member).used <= end + caps.slack
  }

  /** Every member that begins before `end` can be finished by whoever owns it. */
  predicate SlackSuffices(file: Bytes, end: nat, caps: Caps) {
    forall p | 0 <= p < Min(end, |file|) && Starts(file, p, caps.member) :: Reaches(file, p, end, caps)
  }

  /** A member wholly inside the range is decoded first. */
  lemma DecodingStep(file: Bytes, at: nat, end: nat, caps: Caps)
    requires at <= end <= |file| && At(file, at, caps.member).Complete?
    requires at + At(file, at, caps.member).used <= end
    ensures var o := At(file, at, caps.member);
            var rest := Decoding(file, at + o.used, end, caps);
            Decoding(file, at, end, caps) == Ranged(o.text + rest.text, rest.failed)
  {
    hide DecodeOne, DecodeAll;
    var o := At(file, at, caps.member);
    ThroughWindow(file, at, end, caps.member);
    DecodeStep(file[at..end], caps.member);
    assert file[at..end][o.used..] == file[at + o.used..end];
  }

  /** The last thing a worker sees: the member that straddles its end, or an unfinished one. */
  lemma DecodingLast(file: Bytes, at: nat, end: nat, caps: Caps)
    requires at < end <= |file|
    requires At(file, at, caps.member).Complete? || At(file, at, caps.member).Incomplete?
    requires At(file, at, caps.member).Complete? ==> at + At(file, at, caps.member).used > end
    requires Reaches(file, at, end, caps)
    ensures var o := At(file, at, caps.member);
            Decoding(file, at, end, caps) == Ranged(if o.Complete? then o.text else [], false)
  {
    hide DecodeOne, DecodeAll;
    ThroughWindow(file, at, end, caps.member);
    DecodeStep(file[at..end], caps.member);
    ThroughWindow(file, at, Min(end + caps.slack, |file|), caps.member);
    var o := At(file, at, caps.member);
    assert o.Complete? ==> [] + o.text == o.text;
  }

  /**
   A worker hands over the member that straddles its end if and only if its one read past the
   end brings the rest of that member.
   */
  lemma StraddlerExactlyWhen(file: Bytes, at: nat, end: nat, caps: Caps, got: nat)
    requires at < end <= |file| && At(file, at, caps.member).Complete?
    requires at + At(file, at, caps.member).used > end
    ensures var o := At(file, at, caps.member);
            Decoding(file, at, end, caps.(slack := got)) == Ranged(if at + o.used - end <= got then o.text else [], false)
  {
    hide DecodeOne, DecodeAll;
    var o := At(file, at, caps.member);
    ThroughWindow(file, at, end, caps.member);
    DecodeStep(file[at..end], caps.member);
    ThroughWindow(file, at, Min(end + got, |file|), caps.member);
    assert [] + o.text == o.text;
  }

  /** Decoding from a true start yields exactly the members that begin before the end of the range. */
  lemma {:induction false} DecodingIsOwned(file: Bytes, at: nat, end: nat, caps: Caps)
    requires at <= end <= |file| && Sound(file, at, caps.member)
    requires SlackSuffices(file, end, caps)
    requires At(file, at, caps.member).Complete? ==> FirstStart(file, 0, at, caps.member) == at
    ensures Decoding(file, at, end, caps) == Ranged(TextUntil(file, at, end, caps.member), false)
    decreases |file| - at
  {
    hide DecodeOne, DecodeAll, Decoding;
    var max := caps.member;
    var o := At(file, at, max);
    SoundStep(file, at, max);
    if at == end {
      DecodingNothing(file, at, caps);
    } else if o.Complete? && at + o.used <= end {
      DecodingStep(file, at, end, caps);
      NextStart(file, at, max);
      DecodingIsOwned(file, at + o.used, end, caps);
    } else {
      assert o.Complete? ==> Starts(file, at, max) && TextUntil(file, at + o.used, end, max) == [];
      DecodingLast(file, at, end, caps);
    }
  }

  lemma DecodingNothing(file: Bytes, at: nat, caps: Caps)
    requires at <= |file|
    ensures Decoding(file, at, at, caps) == Ranged([], false)
  {
    hide DecodeOne;
    assert file[at..at] == [];
  }

  /** After a member comes the next one, or nothing. */
  lemma NextStart(file: Bytes, at: nat, max: nat)
    requires at <= |file| && At(file, at, max).Complete? && FirstStart(file, 0, at, max) == at
    ensures var next := at + At(file, at, max).used;
            FirstStart(file, 0, next, max) == if At(file, next, max).Complete? then next else |file|
  {
    hide DecodeOne;
    var next := at + At(file, at, max).used;
    StartInTwo(file, 0, at, next, max);
    assert FirstStart(file, at, next, max) == FirstStart(file, next, next, max);
  }

  /** Bytes are taken for a member start only where one of the file's own members begins. */
  ghost predicate NoFalseStarts(file: Bytes, max: nat) {
    forall q, end | 0 <= q <= end <= |file| :: PlausibleMemberAt(file[q..end], max) ==> Starts(file, q, max)
  }

  /** The worker believes the first member that begins in its range when it sees it. */
  predicate Resyncs(file: Bytes, r: Range, caps: Caps)
    requires r.0 <= r.1 <= |file|
  {
    var p := FirstStart(file, 0, r.0, caps.member);
    0 < r.0 && p < r.1 ==> Accepts(Window(file, r, caps), p - r.0, caps.member)
  }

  /**
   `Resyncs` in terms of sizes.  The window must hold the whole member and either the next
   ten header bytes or fewer than three bytes more: with three to nine, a true start is
   turned down.
   */
  lemma {:induction false} ResyncsWhen(file: Bytes, r: Range, caps: Caps)
    requires 0 < r.0 <= r.1 <= |file|
    requires FirstStart(file, 0, r.0, caps.member) < r.1
    ensures var p, end := FirstStart(file, 0, r.0, caps.member), r.0 + |Window(file, r, caps)|;
            var o := At(file, p, caps.member);
            Resyncs(file, r, caps) <==>
              && p - r.0 + 3 <= RESYNC_SCAN_LIMIT
              && p + o.used <= end
              && file[p..p + 3] == MAGIC && file[p + 3] < 0x20 && ArchiveText(o.text)
              && (end - (p + o.used) < 3 || PlausibleHeader(file[p + o.used..end]))
  {
    hide DecodeOne, ArchiveText, Window, PlausibleMemberAt, PlausibleHeader;
    WindowIs(file, r, caps);
    var p := FirstStart(file, 0, r.0, caps.member);
    var end := r.0 + |Window(file, r, caps)|;
    if p <= end {
      assert Window(file, r, caps)[p - r.0..] == file[p..end];
      PlausibleWhen(file, p, end, caps.member);
    }
  }

  /** A true start is believed when enough of the file follows it. */
  lemma PlausibleWhen(file: Bytes, p: nat, end: nat, max: nat)
    requires p <= end <= |file| && At(file, p, max).Complete?
    ensures var o := At(file, p, max);
            PlausibleMemberAt(file[p..end], max) <==>
              && p + o.used <= end
              && file[p..p + 3] == MAGIC && file[p + 3] < 0x20 && ArchiveText(o.text)
              && (end - (p + o.used) < 3 || PlausibleHeader(file[p + o.used..end]))
  {
    hide DecodeOne, ArchiveText;
    var o := At(file, p, max);
    ThroughWindow(file, p, end, max);
    if p + o.used <= end {
      assert file[p..end][..3] == file[p..p + 3] && file[p..end][o.used..] == file[p + o.used..end];
    }
  }

  lemma {:induction false} FirstStartIsFirst(file: Bytes, at: nat, from: nat, q: nat, max: nat)
    requires at <= |file| && from <= q < |file| && FirstStart(file, at, q, max) == q
    ensures FirstStart(file, at, from, max) <= q
    decreases |file| - at
  {
    hide DecodeOne;
    if At(file, at, max).Complete? && at < from {
      FirstStartIsFirst(file, at + At(file, at, max).used, from, q, max);
    }
  }

  lemma WindowIs(file: Bytes, r: Range, caps: Caps)
    requires r.0 <= r.1 <= |file|
    ensures var end := r.0 + |Window(file, r, caps)|; end <= |file| && Window(file, r, caps) == file[r.0..end]
  {}

  lemma NoFalseStart(file: Bytes, q: nat, end: nat, max: nat)
    requires NoFalseStarts(file, max) && q <= end <= |file| && PlausibleMemberAt(file[q..end], max)
    ensures Starts(file, q, max)
  {
    hide PlausibleMemberAt, FirstStart;
  }

  /** A worker only lands on true starts, and never before the first in its range. */
  lemma {:induction false} LandsOnStart(file: Bytes, r: Range, caps: Caps)
    requires 0 < r.0 <= r.1 <= |file| && NoFalseStarts(file, caps.member)
    ensures var p, q := FirstStart(file, 0, r.0, caps.member), Landing(file, r, caps);
            q < r.1 ==> Starts(file, q, caps.member) && r.0 <= q && p <= q
  {
    hide DecodeOne, Accepts, PlausibleMemberAt, Window, FirstStart, At, NoFalseStarts;
    WindowIs(file, r, caps);
    var win := Window(file, r, caps);
    var off := FirstAccepted(win, 0, caps.member);
    if off < |win| {
      AcceptsPlausible(win, off, caps.member);
      assert win[off..] == file[r.0 + off..r.0 + |win|];
      NoFalseStart(file, r.0 + off, r.0 + |win|, caps.member);
      FirstStartIsFirst(file, 0, r.0, r.0 + off, caps.member);
    }
  }

  /** It lands on the first start of its range exactly when it resynchronises. */
  lemma {:induction false} Landed(file: Bytes, r: Range, caps: Caps)
    requires 0 < r.0 <= r.1 <= |file| && NoFalseStarts(file, caps.member)
    requires FirstStart(file, 0, r.0, caps.member) < r.1
    ensures Landing(file, r, caps) == FirstStart(file, 0, r.0, caps.member) <==> Resyncs(file, r, caps)
  {
    hide DecodeOne, Accepts, PlausibleMemberAt, Window;
    var p := FirstStart(file, 0, r.0, caps.member);
    var win := Window(file, r, caps);
    LandsOnStart(file, r, caps);
    if Accepts(win, p - r.0, caps.member) {
      AcceptsPlausible(win, p - r.0, caps.member);
    }
  }

  lemma AcceptsPlausible(d: Bytes, i: nat, max: nat)
    requires Accepts(d, i, max)
    ensures i < |d| && PlausibleMemberAt(d[i..], max)
  {
    hide PlausibleMemberAt;
  }

  /**
   A worker that resynchronises decodes exactly the members that begin in its range, provided
   that its one read past the end brings the rest of the last of them.
   */
  lemma {:induction false} ReaderIsOwned(file: Bytes, r: Range, caps: Caps, got: nat)
    requires r.0 <= r.1 <= |file| && Sound(file, 0, caps.member)
    requires NoFalseStarts(file, caps.member) && SlackSuffices(file, r.1, caps.(slack := got))
    requires Resyncs(file, r, caps)
    ensures RangeRead(file, r, caps, got) == Ranged(Owned(file, r, caps.member), false)
  {
    hide DecodeOne, DecodeAll, Decoding, Resyncs;
    var max := caps.member;
    var p := FirstStart(file, 0, r.0, max);
    NoMemberAtEnd(file, max);
    if r.0 == 0 {
      if 0 < r.1 {
        DecodingIsOwned(file, 0, r.1, caps.(slack := got));
      }
    } else {
      LandsOnStart(file, r, caps);
      if p < r.1 {
        Landed(file, r, caps);
        SoundAtStart(file, 0, r.0, max);
        StartInTwo(file, 0, r.0, p, max);
        assert FirstStart(file, p, p, max) == p;
        DecodingIsOwned(file, p, r.1, caps.(slack := got));
      }
    }
  }

  /** The same of a worker whose read past the end is cut short by nothing but the file. */
  lemma {:induction false} WorkerIsOwned(file: Bytes, r: Range, caps: Caps)
    requires r.0 <= r.1 <= |file| && Sound(file, 0, caps.member)
    requires NoFalseStarts(file, caps.member) && SlackSuffices(file, r.1, caps)
    requires Resyncs(file, r, caps)
    ensures RangeText(file, r, caps) == Ranged(Owned(file, r, caps.member), false)
  {
    hide DecodeOne, DecodeAll, Decoding, Resyncs, Landing, SlackSuffices, NoFalseStarts, Sound, Owned;
    assert caps.(slack := caps.slack) == caps;
    ReaderIsOwned(file, r, caps, caps.slack);
  }

  // ---- Lines -------------------------------------------------------------------------

  /** Every member's text ends at the end of a line. */
  ghost predicate WholeLines(file: Bytes, max: nat) {
    forall p | 0 <= p < |file| && Starts(file, p, max) :: CarryFrom([], At(file, p, max).text) == []
  }

  /** Every member holds at least one line. */
  ghost predicate NoBlankMembers(file: Bytes, max: nat) {
    forall p | 0 <= p < |file| && Starts(file, p, max) :: LinesFrom([], At(file, p, max).text) != []
  }

  lemma {:induction false} TextHasWholeLines(file: Bytes, at: nat, end: nat, max: nat)
    requires at <= |file| && WholeLines(file, max)
    requires At(file, at, max).Complete? ==> FirstStart(file, 0, at, max) == at
    ensures CarryFrom([], TextUntil(file, at, end, max)) == []
    decreases |file| - at
  {
    hide DecodeOne, LinesFrom, CarryFrom;
    AtEnd([]);
    if at < end && At(file, at, max).Complete? {
      NextStart(file, at, max);
      assert Starts(file, at, max);
      var next := at + At(file, at, max).used;
      TextHasWholeLines(file, next, end, max);
      LinesSplit(At(file, at, max).text, TextUntil(file, next, end, max));
    }
  }

  /** The lines of the members before `mid`, then of those from `mid` on. */
  lemma LinesOfOwned(file: Bytes, from: nat, mid: nat, end: nat, max: nat)
    requires from <= mid <= end && WholeLines(file, max)
    ensures AllLines(Owned(file, (from, end), max))
         == AllLines(Owned(file, (from, mid), max)) + AllLines(Owned(file, (mid, end), max))
  {
    hide DecodeOne, LinesFrom, CarryFrom, AllLines;
    var p := FirstStart(file, 0, from, max);
    NoMemberAtEnd(file, max);
    StartInTwo(file, 0, from, mid, max);
    TextInTwo(file, p, mid, end, max);
    if At(file, p, max).Complete? {
      StartInTwo(file, 0, from, p, max);
      assert FirstStart(file, p, p, max) == p;
    }
    TextHasWholeLines(file, p, mid, max);
    LinesSplit(TextUntil(file, p, mid, max), TextUntil(file, FirstStart(file, p, mid, max), end, max));
  }

  /** A range that a member begins in has a line to hand over. */
  lemma {:induction false} OwnedHasLines(file: Bytes, from: nat, end: nat, max: nat)
    requires WholeLines(file, max) && NoBlankMembers(file, max)
    requires FirstStart(file, 0, from, max) < Min(end, |file|)
    ensures AllLines(Owned(file, (from, end), max)) != []
  {
    hide *;
    var p, rest := OwnedFirst(file, from, end, max);
    MemberHasLines(file, p, max);
    SomeLines(At(file, p, max).text, rest);
  }

  lemma MemberHasLines(file: Bytes, p: nat, max: nat)
    requires WholeLines(file, max) && NoBlankMembers(file, max) && Starts(file, p, max)
    ensures At(file, p, max).Complete?
    ensures CarryFrom([], At(file, p, max).text) == [] && LinesFrom([], At(file, p, max).text) != []
  {
    hide DecodeOne, LinesFrom, CarryFrom;
  }

  lemma {:induction false} SomeLines(text: Bytes, more: Bytes)
    requires CarryFrom([], text) == [] && LinesFrom([], text) != []
    ensures AllLines(text + more) != []
  {
    hide LinesFrom, CarryFrom, Handed;
    LinesSplit(text, more);
  }

  /** What a range owns begins with the first member in it. */
  lemma OwnedFirst(file: Bytes, from: nat, end: nat, max: nat) returns (p: nat, rest: Bytes)
    requires FirstStart(file, 0, from, max) < Min(end, |file|)
    ensures p < |file| && Starts(file, p, max) && At(file, p, max).Complete?
    ensures Owned(file, (from, end), max) == At(file, p, max).text + rest
  {
    hide DecodeOne;
    p := FirstStart(file, 0, from, max);
    rest := TextUntil(file, p + At(file, p, max).used, end, max);
    StartInTwo(file, 0, from, p, max);
    assert FirstStart(file, p, p, max) == p;
  }

  /** A worker that does not resynchronise loses lines, and its loss is not made up for. */
  lemma WorkerLosesLines(file: Bytes, r: Range, caps: Caps)
    requires r.0 <= r.1 <= |file| && Sound(file, 0, caps.member)
    requires NoFalseStarts(file, caps.member) && SlackSuffices(file, r.1, caps)
    requires WholeLines(file, caps.member) && NoBlankMembers(file, caps.member)
    requires !Resyncs(file, r, caps)
    ensures !RangeText(file, r, caps).failed
    ensures |AllLines(RangeText(file, r, caps).text)| < |AllLines(Owned(file, r, caps.member))|
  {
    hide DecodeOne, DecodeAll, Decoding, LinesFrom, CarryFrom, AllLines;
    var max := caps.member;
    LandsOnStart(file, r, caps);
    Landed(file, r, caps);
    var p, q := FirstStart(file, 0, r.0, max), Landing(file, r, caps);
    if q < r.1 {
      SoundAtStart(file, 0, q, max);
      DecodingIsOwned(file, q, r.1, caps);
      LinesOfOwned(file, r.0, q, r.1, max);
      OwnedHasLines(file, r.0, q, max);
    } else {
      AtEnd([]);
      OwnedHasLines(file, r.0, r.1, max);
      assert AllLines([]) == [] by {
        Nothing();
      }
    }
  }

  lemma Nothing()
    ensures AllLines([]) == []
  {}
}
