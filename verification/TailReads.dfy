/**
 How far one pass over a file gets: internal/tail/watcher.go.  A pass decodes chunk by chunk
 and gives up at the first chunk that shows a corrupt member, without using the sound members
 of that chunk.
 */
module TailReads {
  import opened Codec
  import opened Archive

  /** Where the reads of a pass that began at `o` ended, one after another. */
  predicate Ends(o: nat, ends: seq<nat>, limit: nat) {
    && (forall i | 0 <= i < |ends| :: o < ends[i] <= limit)
    && (forall i, j | 0 <= i < j < |ends| :: ends[i] < ends[j])
  }

  function ReadTo(o: nat, ends: seq<nat>): nat {
    if ends == [] then o else ends[|ends| - 1]
  }

  /** The offset after those reads: each adds what it completed, unless what it brought cannot be decoded. */
  function PassTo(content: Bytes, o: nat, ends: seq<nat>, max: nat): (p: nat)
    requires o <= |content| && Ends(o, ends, |content|)
    ensures o <= p <= ReadTo(o, ends)
  {
    if ends == [] then o
    else
      var n := |ends| - 1;
      var st := PassTo(content, o, ends[..n], max);
      assert st <= ends[n];
      var res := DecodeAll(content[st..ends[n]], max);
      if res.failed then st else st + res.consumed
  }

  /** What is there from `o` to `p` runs into a corrupt member. */
  predicate Fails(content: Bytes, o: nat, p: nat, max: nat)
    requires o <= p <= |content|
  {
    DecodeAll(content[o..p], max).failed
  }

  /** The last read that ended before the corruption showed; `o` if none did. */
  function LastSound(content: Bytes, o: nat, ends: seq<nat>, max: nat): (p: nat)
    requires o <= |content| && Ends(o, ends, |content|)
    ensures o <= p <= ReadTo(o, ends) && (p == o || p in ends)
  {
    if ends == [] then o
    else
      var n := |ends| - 1;
      if !Fails(content, o, ends[n], max) then ends[n] else LastSound(content, o, ends[..n], max)
  }

  lemma {:induction false} NothingFails(content: Bytes, o: nat, max: nat)
    requires o <= |content|
    ensures !Fails(content, o, o, max) && DecodeAll(content[o..o], max).consumed == 0
  {
    hide DecodeOne;
    assert content[o..o] == [];
    DecodeStep([], max);
  }

  /** Decoding to `q` is decoding to `p` and on from what that left. */
  lemma {:induction false} DecodedTo(content: Bytes, o: nat, p: nat, q: nat, max: nat)
    requires o <= p <= q <= |content| && !Fails(content, o, p, max)
    ensures var st := o + DecodeAll(content[o..p], max).consumed;
            st <= p && DecodeAll(content[o..q], max) == Then(DecodeAll(content[o..p], max), DecodeAll(content[st..q], max))
  {
    hide DecodeOne, DecodeAll;
    var st := o + DecodeAll(content[o..p], max).consumed;
    DecodeInTwo(content[o..p], content[p..q], max);
    assert content[o..p] + content[p..q] == content[o..q];
    assert content[o..p][st - o..] + content[p..q] == content[st..q];
  }

  lemma FailsOn(content: Bytes, o: nat, p: nat, q: nat, max: nat)
    requires o <= p <= q <= |content| && Fails(content, o, p, max)
    ensures Fails(content, o, q, max)
  {
    hide DecodeOne, DecodeAll;
    DecodeInTwo(content[o..p], content[p..q], max);
    assert content[o..p] + content[p..q] == content[o..q];
  }

  /**
   However its reads fall, a pass gets from its starting offset exactly as far as the last read
   before the first failing one decodes.
   */
  lemma {:induction false} PassIsLastSound(content: Bytes, o: nat, ends: seq<nat>, max: nat)
    requires o <= |content| && Ends(o, ends, |content|)
    ensures var to := LastSound(content, o, ends, max);
            !Fails(content, o, to, max) && PassTo(content, o, ends, max) == o + DecodeAll(content[o..to], max).consumed
  {
    hide DecodeAll;
    if ends == [] {
      NothingFails(content, o, max);
    } else {
      var n := |ends| - 1;
      PassIsLastSound(content, o, ends[..n], max);
      var to := LastSound(content, o, ends[..n], max);
      assert to <= ends[n];
      DecodedTo(content, o, to, ends[n], max);
    }
  }

  /** The byte at which the corruption shows: no shorter stretch from `o` fails. */
  function Shows(content: Bytes, o: nat, from: nat, max: nat): (p: nat)
    requires o <= from <= |content| && Fails(content, o, |content|, max)
    ensures from <= p <= |content|
    decreases |content| - from
  {
    if Fails(content, o, from, max) then from else Shows(content, o, from + 1, max)
  }

  lemma {:induction false} ShowsFirst(content: Bytes, o: nat, from: nat, max: nat)
    requires o <= from <= |content| && Fails(content, o, |content|, max)
    ensures var p := Shows(content, o, from, max);
            Fails(content, o, p, max) && forall q | from <= q < p :: !Fails(content, o, q, max)
    decreases |content| - from
  {
    hide Fails;
    if !Fails(content, o, from, max) {
      ShowsFirst(content, o, from + 1, max);
    }
  }

  lemma {:induction false} ShowsExactly(content: Bytes, o: nat, p: nat, max: nat)
    requires o <= p <= |content| && Fails(content, o, |content|, max)
    ensures Fails(content, o, p, max) <==> Shows(content, o, o, max) <= p
  {
    hide Fails;
    ShowsFirst(content, o, o, max);
    if Shows(content, o, o, max) <= p {
      FailsOn(content, o, Shows(content, o, o, max), p, max);
    }
  }

  /** Where the sound members end. */
  function SoundEnd(content: Bytes, o: nat, max: nat): (e: nat)
    requires o <= |content|
    ensures o <= e <= |content|
  {
    o + DecodeAll(content[o..], max).consumed
  }

  /** A stretch that does not fail decodes to all sound members just when it reaches the last of them. */
  lemma {:induction false} ReachesSoundEnd(content: Bytes, o: nat, p: nat, max: nat)
    requires o <= p <= |content| && !Fails(content, o, p, max)
    ensures o + DecodeAll(content[o..p], max).consumed == SoundEnd(content, o, max) <==> SoundEnd(content, o, max) <= p
  {
    hide DecodeOne, DecodeAll;
    var st := o + DecodeAll(content[o..p], max).consumed;
    assert content[o..|content|] == content[o..] && content[st..|content|] == content[st..];
    DecodedTo(content, o, p, |content|, max);
    NothingCompleteIsLeft(content[o..p], max);
    assert content[o..p][st - o..] == content[st..p];
    DecodeStep(content[st..], max);
    assert content[st..][..p - st] == content[st..p];
    if DecodeOne(content[st..], max).Complete? {
      MemberIsItsBytes(content[st..], p - st, max);
    }
  }

  /**
   The sound members before a corrupt one all pass if and only if some read ends after the last
   of them and before the byte at which the corruption shows.
   */
  lemma {:induction false} SoundMembersPass(content: Bytes, o: nat, ends: seq<nat>, max: nat)
    requires o <= |content| && Ends(o, ends, |content|) && Fails(content, o, |content|, max)
    ensures var end := SoundEnd(content, o, max);
            PassTo(content, o, ends, max) == end <==>
            end == o || exists i | 0 <= i < |ends| :: end <= ends[i] < Shows(content, o, o, max)
  {
    hide DecodeAll, Fails, Shows, PassTo;
    var end, to := SoundEnd(content, o, max), LastSound(content, o, ends, max);
    PassIsLastSound(content, o, ends, max);
    ReachesSoundEnd(content, o, to, max);
    ShowsExactly(content, o, to, max);
    if i :| 0 <= i < |ends| && end <= ends[i] < Shows(content, o, o, max) {
      LastSoundIsLast(content, o, ends, i, max);
    } else if to != o {
      var i :| 0 <= i < |ends| && ends[i] == to;
    }
  }

  lemma {:induction false} LastSoundIsLast(content: Bytes, o: nat, ends: seq<nat>, i: nat, max: nat)
    requires o <= |content| && Ends(o, ends, |content|) && Fails(content, o, |content|, max)
    requires i < |ends| && ends[i] < Shows(content, o, o, max)
    ensures ends[i] <= LastSound(content, o, ends, max)
  {
    hide DecodeAll, Fails, Shows;
    var n := |ends| - 1;
    ShowsExactly(content, o, ends[n], max);
    if i == n {
    } else if Fails(content, o, ends[n], max) {
      LastSoundIsLast(content, o, ends[..n], i, max);
    }
  }

  /** More bytes at the end of a file do not change how far earlier reads got. */
  lemma {:induction false} PassToGrows(a: Bytes, b: Bytes, o: nat, ends: seq<nat>, max: nat)
    requires o <= |a| && Ends(o, ends, |a|) && a <= b
    ensures Ends(o, ends, |b|) && PassTo(b, o, ends, max) == PassTo(a, o, ends, max)
  {
    hide DecodeAll;
    if ends != [] {
      var n := |ends| - 1;
      PassToGrows(a, b, o, ends[..n], max);
      var st := PassTo(a, o, ends[..n], max);
      assert a[st..ends[n]] == b[st..ends[n]];
    }
  }

  lemma {:induction false} OneMoreRead(content: Bytes, o: nat, ends: seq<nat>, end: nat, max: nat)
    requires o <= |content| && Ends(o, ends, |content|) && ReadTo(o, ends) < end <= |content|
    ensures Ends(o, ends + [end], |content|) && ReadTo(o, ends + [end]) == end
    ensures var st := PassTo(content, o, ends, max);
            var res := DecodeAll(content[st..end], max);
            PassTo(content, o, ends + [end], max) == if res.failed then st else st + res.consumed
  {
    hide DecodeAll;
    assert (ends + [end])[..|ends|] == ends;
  }
}
