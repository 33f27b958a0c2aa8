/** Cutting a thread's rendered turns into chunks: internal/summary/digest.go. */
module Digests {
  /** Only a digest without chunks is without characters. */
  type Digest = d: Chunked | d.chars == 0 <==> d.chunks == [] witness Digest([], 0, 0)

  datatype Chunked = Digest(chunks: seq<string>, chars: nat, turns: nat)
  {
    /** One pass over each chunk. */
    function Passes(): nat {
      |chunks|
    }
  }

  function Text(blocks: seq<string>): string {
    if blocks == [] then "" else Text(blocks[..|blocks| - 1]) + blocks[|blocks| - 1]
  }

  /** The turns that rendered to something. */
  function Rendered(blocks: seq<string>): seq<string> {
    if blocks == [] then []
    else Rendered(blocks[..|blocks| - 1]) + if blocks[|blocks| - 1] == "" then [] else [blocks[|blocks| - 1]]
  }

  function Flat(groups: seq<seq<string>>): seq<string> {
    if groups == [] then [] else Flat(groups[..|groups| - 1]) + groups[|groups| - 1]
  }

  function Texts(groups: seq<seq<string>>): (texts: seq<string>)
    ensures |texts| == |groups|
    ensures forall i | 0 <= i < |groups| :: texts[i] == Text(groups[i])
  {
    seq(|groups|, i requires 0 <= i < |groups| => Text(groups[i]))
  }

  /** A chunk keeps to the budget, unless a single turn is over it. */
  predicate Fits(group: seq<string>, max: nat) {
    group != [] && (|Text(group)| <= max || |group| == 1)
  }

  /** Consecutive turns in chunks that fit: the rule every chunking obeys. */
  ghost predicate Chunking(groups: seq<seq<string>>, blocks: seq<string>, max: nat) {
    Flat(groups) == blocks && forall i | 0 <= i < |groups| :: Fits(groups[i], max)
  }

  /** No chunking of these turns under the same rule has fewer chunks; one with as many ends no later. */
  ghost predicate Ahead(groups: seq<seq<string>>, blocks: seq<string>, max: nat) {
    forall other | Chunking(other, blocks, max) ::
      && |groups| <= |other|
      && (|groups| == |other| && groups != [] ==> |groups[|groups| - 1]| <= |other[|other| - 1]|)
  }

  lemma {:induction false} TextAppend(a: seq<string>, b: seq<string>)
    ensures Text(a + b) == Text(a) + Text(b)
    decreases |b|
  {
    if b == [] {
      assert a + b == a;
    } else {
      var n := |b| - 1;
      assert (a + b)[..|a| + n] == a + b[..n];
      TextAppend(a, b[..n]);
    }
  }

  lemma {:induction false} TextOfFlat(groups: seq<seq<string>>)
    ensures Text(Flat(groups)) == Text(Texts(groups))
  {
    if groups != [] {
      var n := |groups| - 1;
      TextOfFlat(groups[..n]);
      TextAppend(Flat(groups[..n]), groups[n]);
      assert Texts(groups)[..n] == Texts(groups[..n]);
    }
  }

  lemma {:induction false} TextOfRendered(blocks: seq<string>)
    ensures Text(Rendered(blocks)) == Text(blocks)
  {
    if blocks != [] {
      var n := |blocks| - 1;
      TextOfRendered(blocks[..n]);
      TextAppend(Rendered(blocks[..n]), if blocks[n] == "" then [] else [blocks[n]]);
    }
  }

  lemma {:induction false} FlatStep(groups: seq<seq<string>>, g: seq<string>)
    ensures Flat(groups + [g]) == Flat(groups) + g
  {
    assert (groups + [g])[..|groups|] == groups;
  }

  /** The shorter of two ends of the same turns has no more text. */
  lemma {:induction false} SuffixIsShorter(blocks: seq<string>, a: seq<string>, b: seq<string>)
    requires |a| <= |b| <= |blocks| && a == blocks[|blocks| - |a|..] && b == blocks[|blocks| - |b|..]
    ensures |Text(a)| <= |Text(b)|
  {
    assert b == b[..|b| - |a|] + a;
    TextAppend(b[..|b| - |a|], a);
  }

  lemma LastIsSuffix(groups: seq<seq<string>>)
    requires groups != []
    ensures var flat, last := Flat(groups), groups[|groups| - 1];
            |last| <= |flat| && last == flat[|flat| - |last|..]
  {}

  /** What any chunking looks like one turn earlier. */
  lemma Without(other: seq<seq<string>>, blocks: seq<string>, b: string, max: nat) returns (earlier: seq<seq<string>>)
    requires Chunking(other, blocks + [b], max)
    ensures other != [] && Chunking(earlier, blocks, max)
    ensures var last := other[|other| - 1];
            if |last| == 1 then |earlier| == |other| - 1
            else |earlier| == |other| && earlier[|earlier| - 1] + [b] == last && |Text(last)| <= max
  {
    assert Flat([]) == [];
    assert Flat(other) != [];
    var n := |other| - 1;
    var last := other[n];
    assert Flat(other) == Flat(other[..n]) + last;
    assert Fits(last, max);
    assert last[|last| - 1] == (blocks + [b])[|blocks|];
    if |last| == 1 {
      earlier := other[..n];
      assert Flat(earlier) == (Flat(earlier) + last)[..|blocks|] == blocks;
    } else {
      var h := last[..|last| - 1];
      earlier := other[..n] + [h];
      FlatStep(other[..n], h);
      assert last == h + [b];
      TextAppend(h, [b]);
      assert Flat(other[..n]) + h == (Flat(other[..n]) + last)[..|blocks|];
      assert forall i | 0 <= i < n :: earlier[i] == other[i];
    }
  }

  /** The greedy step: a new chunk is begun exactly when the block would take the current one over the budget. */
  ghost function Greedy(done: seq<seq<string>>, cur: seq<string>, b: string, max: nat): (seq<seq<string>>, seq<string>) {
    if cur != [] && |Text(cur)| + |b| > max then (done + [cur], [b]) else (done, cur + [b])
  }

  lemma GreedyChunks(done: seq<seq<string>>, cur: seq<string>, blocks: seq<string>, b: string, max: nat)
    requires Chunking(done + [cur], blocks, max)
    ensures var (d, c) := Greedy(done, cur, b, max); Chunking(d + [c], blocks + [b], max)
  {
    hide Flat, Text;
    var groups := done + [cur];
    var (d, c) := Greedy(done, cur, b, max);
    assert groups[|done|] == cur && Fits(cur, max);
    FlatStep(done, cur);
    FlatStep(d, c);
    TextAppend(cur, [b]);
    assert Text([b]) == b by {
      TextOfOne(b);
    }
    assert forall i | 0 <= i < |done| :: (d + [c])[i] == groups[i];
  }

  lemma TextOfOne(b: string)
    ensures Text([b]) == b
  {}

  lemma GreedyKeepsAhead(done: seq<seq<string>>, cur: seq<string>, blocks: seq<string>, b: string, max: nat,
                         other: seq<seq<string>>)
    requires Chunking(done + [cur], blocks, max) && Ahead(done + [cur], blocks, max)
    requires Chunking(other, blocks + [b], max)
    ensures other != []
    ensures var (d, c) := Greedy(done, cur, b, max);
            |d| + 1 <= |other| && (|d| + 1 == |other| ==> |c| <= |other[|other| - 1]|)
  {
    hide Flat, Text;
    var groups := done + [cur];
    assert groups[|done|] == cur && Fits(cur, max);
    var earlier := Without(other, blocks, b, max);
    assert |groups| <= |earlier|;
    assert Fits(other[|other| - 1], max);
    if |other[|other| - 1]| > 1 && |groups| == |earlier| {
      var h := earlier[|earlier| - 1];
      assert |cur| <= |h|;
      LastIsSuffix(groups);
      LastIsSuffix(earlier);
      SuffixIsShorter(blocks, cur, h);
      TextAppend(h, [b]);
      TextOfOne(b);
    }
  }

  /** The greedy chunking keeps ahead of every other one. */
  lemma GreedyStep(done: seq<seq<string>>, cur: seq<string>, blocks: seq<string>, b: string, max: nat)
    requires Chunking(done + [cur], blocks, max) && Ahead(done + [cur], blocks, max)
    ensures var (d, c) := Greedy(done, cur, b, max);
            Chunking(d + [c], blocks + [b], max) && Ahead(d + [c], blocks + [b], max)
  {
    hide Chunking, Flat, Text;
    GreedyChunks(done, cur, blocks, b, max);
    var (d, c) := Greedy(done, cur, b, max);
    forall other | Chunking(other, blocks + [b], max)
      ensures |d| + 1 <= |other| && (|d| + 1 == |other| ==> |c| <= |other[|other| - 1]|)
    {
      GreedyKeepsAhead(done, cur, blocks, b, max, other);
    }
  }

  lemma GreedyStart(b: string, max: nat)
    ensures Chunking([[b]], [b], max) && Ahead([[b]], [b], max)
  {
    assert Flat([[b]]) == [b];
    forall other | Chunking(other, [b], max)
      ensures |other| >= 1 && |other[|other| - 1]| >= 1
    {
      assert [b] == [] + [b];
      var earlier := Without(other, [], b, max);
      assert Fits(other[|other| - 1], max);
    }
  }

  /**
   Renders turns into chunks, cutting at turn boundaries only.  Nothing is lost or moved, the
   size is exact, every chunk fits the budget unless it is one turn, and no chunking under
   that rule needs fewer chunks.
   */
  method Build(blocks: seq<string>, max: nat) returns (d: Digest, ghost groups: seq<seq<string>>)
    ensures d.chunks == Texts(groups) && Chunking(groups, Rendered(blocks), max)
    ensures Text(d.chunks) == Text(blocks) && d.chars == |Text(blocks)| && d.turns == |blocks|
    ensures forall other | Chunking(other, Rendered(blocks), max) :: d.Passes() <= |other|
    ensures forall i | 0 <= i < |d.chunks| :: |d.chunks[i]| <= max || |groups[i]| == 1
    ensures 0 < |Text(blocks)| <= max ==> |d.chunks| == 1
    ensures d.chars == 0 <==> d.chunks == []
  {
    hide Ahead, Chunking, Text, Rendered;
    var chunks: seq<string>, current := [], "";
    ghost var done: seq<seq<string>>, cur: seq<string> := [], [];
    NoText();
    for i := 0 to |blocks|
      invariant chunks == Texts(done) && current == Text(cur)
      invariant |current| > 0 <==> cur != []
      invariant Leads(done, cur, Rendered(blocks[..i]), max)
    {
      var block := blocks[i];
      RenderedStep(blocks, i);
      if block == "" {
        continue;
      }
      ghost var before := Rendered(blocks[..i]);
      LeadsOn(done, cur, before, block, max);
      TextAppend(cur, [block]);
      TextOfOne(block);
      ghost var next := Greedy(done, cur, block, max);
      if |current| > 0 && |current| + |block| > max {
        chunks, current := chunks + [current], "";
        assert Texts(done + [cur]) == Texts(done) + [Text(cur)];
      }
      current := current + block;
      done, cur := next.0, next.1;
    }
    assert blocks[..|blocks|] == blocks;
    groups := if cur == [] then [] else done + [cur];
    if |current| > 0 {
      chunks := chunks + [current];
    }
    assert chunks == Texts(groups);
    var chars := Size(chunks);
    Summed(groups, blocks, max);
    WithinBudget(groups, Rendered(blocks), max);
    if 0 < |Text(blocks)| <= max {
      OneIsEnough(blocks, max);
      assert |chunks| <= |[Rendered(blocks)]|;
    }
    d := Digest(chunks, chars, |blocks|);
  }

  lemma WithinBudget(groups: seq<seq<string>>, blocks: seq<string>, max: nat)
    requires Chunking(groups, blocks, max)
    ensures forall i | 0 <= i < |groups| :: |Text(groups[i])| <= max || |groups[i]| == 1
  {
    assert forall i | 0 <= i < |groups| :: Fits(groups[i], max);
  }

  /** Turns that fit the budget together need one chunk. */
  lemma {:induction false} OneIsEnough(blocks: seq<string>, max: nat)
    requires 0 < |Text(blocks)| <= max
    ensures Rendered(blocks) != [] && Chunking([Rendered(blocks)], Rendered(blocks), max)
  {
    TextOfRendered(blocks);
    NoText();
    FlatStep([], Rendered(blocks));
    assert [] + [Rendered(blocks)] == [Rendered(blocks)] && Flat([]) == [];
  }

  /** The state of the chunking loop: nothing yet, or the greedy chunks so far. */
  ghost predicate Leads(done: seq<seq<string>>, cur: seq<string>, blocks: seq<string>, max: nat) {
    if cur == [] then done == [] && blocks == []
    else Chunking(done + [cur], blocks, max) && Ahead(done + [cur], blocks, max)
  }

  lemma LeadsOn(done: seq<seq<string>>, cur: seq<string>, blocks: seq<string>, b: string, max: nat)
    requires Leads(done, cur, blocks, max)
    ensures var (d, c) := Greedy(done, cur, b, max); Leads(d, c, blocks + [b], max)
  {
    hide Chunking, Ahead;
    if cur == [] {
      GreedyStart(b, max);
      assert [] + [b] == [b] && [] + [[b]] == [[b]];
    } else {
      GreedyStep(done, cur, blocks, b, max);
    }
  }

  lemma NoText()
    ensures Text([]) == "" && Rendered([]) == []
  {}

  lemma RenderedStep(blocks: seq<string>, i: nat)
    requires i < |blocks|
    ensures Rendered(blocks[..i + 1])
         == if blocks[i] == "" then Rendered(blocks[..i]) else Rendered(blocks[..i]) + [blocks[i]]
  {
    assert blocks[..i + 1][..i] == blocks[..i];
  }

  /** The total size of the chunks. */
  method Size(chunks: seq<string>) returns (chars: nat)
    ensures chars == |Text(chunks)|
  {
    chars := 0;
    for i := 0 to |chunks|
      invariant chars == |Text(chunks[..i])|
    {
      assert chunks[..i + 1][..i] == chunks[..i];
      chars := chars + |chunks[i]|;
    }
    assert chunks[..|chunks|] == chunks;
  }

  lemma {:induction false} Summed(groups: seq<seq<string>>, blocks: seq<string>, max: nat)
    requires if groups == [] then Rendered(blocks) == []
             else (Chunking(groups, Rendered(blocks), max) && Ahead(groups, Rendered(blocks), max))
    ensures Chunking(groups, Rendered(blocks), max)
    ensures Text(Texts(groups)) == Text(blocks)
    ensures |Text(blocks)| == 0 <==> groups == []
    ensures forall other | Chunking(other, Rendered(blocks), max) :: |groups| <= |other|
  {
    TextOfFlat(groups);
    TextOfRendered(blocks);
    if groups != [] {
      SomeText(blocks);
    }
  }

  lemma {:induction false} SomeText(blocks: seq<string>)
    ensures Rendered(blocks) != [] ==> |Text(blocks)| > 0
  {
    if blocks != [] {
      SomeText(blocks[..|blocks| - 1]);
    }
  }
}
