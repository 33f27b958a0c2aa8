/** The model calls that one digest takes: internal/summary/summary.go and plan.go. */
module SummaryCalls {
  import opened Digests

  /** The predicted cost: one call per chunk, plus one to combine them when there are several. */
  function CallsFor(d: Digest): nat {
    if d.Passes() > 1 then d.Passes() + 1 else d.Passes()
  }

  /** What a model call, or a whole digest, came back with. */
  datatype Outcome = Prose | Blank | Failure

  /** The call to make next: the only one, that for one of several chunks, or the one that joins them. */
  datatype Stage = Sole | Part(i: nat) | Combine | Over(result: Outcome)

  function Enter(d: Digest): Stage {
    if |d.chunks| == 0 then Over(Blank)
    else if |d.chunks| == 1 then Sole
    else Part(0)
  }

  /** A part that fails ends it all; prose or not, the last answer is the digest's. */
  function After(d: Digest, stage: Stage, outcome: Outcome): Stage
    requires !stage.Over?
  {
    match stage
    case Sole => Over(outcome)
    case Part(i) =>
      if outcome.Failure? then Over(Failure)
      else if i + 1 < |d.chunks| then Part(i + 1)
      else Combine
    case Combine => Over(outcome)
  }

  /** Where a digest stands after some calls. */
  function Walk(d: Digest, outcomes: seq<Outcome>): Stage {
    if outcomes == [] then Enter(d)
    else
      var n := |outcomes| - 1;
      var stage := Walk(d, outcomes[..n]);
      if stage.Over? then stage else After(d, stage, outcomes[n])
  }

  /** No call is made once the digest is over. */
  ghost predicate Asked(d: Digest, outcomes: seq<Outcome>) {
    forall i | 0 <= i < |outcomes| :: !Walk(d, outcomes[..i]).Over?
  }

  /** The calls that are still to come if none fails. */
  function ToCome(d: Digest, stage: Stage): nat {
    match stage
    case Sole => 1
    case Part(i) => if i < |d.chunks| then |d.chunks| - i + 1 else 2
    case Combine => 1
    case Over(_) => 0
  }

  /** The estimate counts the calls that the chunks ask for. */
  lemma EnterCosts(d: Digest)
    ensures ToCome(d, Enter(d)) == CallsFor(d)
  {}

  /** A call is one fewer to come, and a failure leaves none. */
  lemma AfterCosts(d: Digest, stage: Stage, outcome: Outcome)
    requires !stage.Over?
    ensures var next := After(d, stage, outcome);
            && ToCome(d, next) + 1 <= ToCome(d, stage)
            && (!outcome.Failure? ==> ToCome(d, next) + 1 == ToCome(d, stage))
  {}

  /** Under any failures a digest takes at most the predicted calls, and exactly those when none fails. */
  lemma {:induction false} DigestCosts(d: Digest, outcomes: seq<Outcome>)
    requires Asked(d, outcomes)
    ensures var stage := Walk(d, outcomes);
            && |outcomes| + ToCome(d, stage) <= CallsFor(d)
            && (Failure !in outcomes ==> |outcomes| + ToCome(d, stage) == CallsFor(d))
  {
    hide CallsFor, ToCome;
    if outcomes == [] {
      EnterCosts(d);
    } else {
      var n := |outcomes| - 1;
      assert Asked(d, outcomes[..n]) by {
        assert forall i | 0 <= i < n :: outcomes[..n][..i] == outcomes[..i];
      }
      DigestCosts(d, outcomes[..n]);
      assert !Walk(d, outcomes[..n]).Over?;
      AfterCosts(d, Walk(d, outcomes[..n]), outcomes[n]);
    }
  }

  // ---- The loop over the chunks -----------------------------------------------------------

  /** What a call sends: a whole digest, one part of several, or the parts' summaries. */
  datatype Prompt = Whole(chunk: string) | PartOf(i: nat, n: nat, chunk: string) | Joined(parts: seq<string>)

  datatype Reply = Said(text: string) | Refused

  datatype Call = Call(prompt: Prompt, reply: Reply)

  /** The model, as the record of the calls made to it. */
  class Client {
    ghost var log: seq<Call>

    constructor ()
      ensures log == []
    {
      log := [];
    }

    method Complete(prompt: Prompt) returns (reply: Reply)
      modifies this
      ensures log == old(log) + [Call(prompt, reply)]
    {
      reply := *;
      log := log + [Call(prompt, reply)];
    }
  }

  function OutcomeOf(reply: Reply): Outcome {
    match reply
    case Said(text) => if text == "" then Blank else Prose
    case Refused => Failure
  }

  function Outcomes(calls: seq<Call>): (outcomes: seq<Outcome>)
    ensures |outcomes| == |calls|
    ensures forall i | 0 <= i < |calls| :: outcomes[i] == OutcomeOf(calls[i].reply)
  {
    seq(|calls|, i requires 0 <= i < |calls| => OutcomeOf(calls[i].reply))
  }

  lemma {:induction false} OneMoreCall(d: Digest, calls: seq<Call>, call: Call)
    requires Asked(d, Outcomes(calls)) && !Walk(d, Outcomes(calls)).Over?
    ensures Asked(d, Outcomes(calls + [call]))
    ensures Walk(d, Outcomes(calls + [call])) == After(d, Walk(d, Outcomes(calls)), OutcomeOf(call.reply))
  {
    var was, now := Outcomes(calls), Outcomes(calls + [call]);
    assert now[..|calls|] == was;
    forall i | 0 <= i < |now|
      ensures !Walk(d, now[..i]).Over?
    {
      assert now[..i] == was[..i];
      assert was[..|was|] == was;
    }
  }

  lemma {:induction false} NoCallYet(d: Digest)
    ensures Asked(d, Outcomes([])) && Walk(d, Outcomes([])) == Enter(d)
  {}

  /** What the parts said. */
  function Texts(calls: seq<Call>): seq<string> {
    if calls == [] then []
    else Texts(calls[..|calls| - 1]) + match calls[|calls| - 1].reply case Said(text) => [text] case Refused => []
  }

  /** When every call said something, that is one text for each, in the order of the calls. */
  lemma {:induction false} TextsAre(calls: seq<Call>)
    requires forall i | 0 <= i < |calls| :: calls[i].reply.Said?
    ensures |Texts(calls)| == |calls| && forall i | 0 <= i < |calls| :: Texts(calls)[i] == calls[i].reply.text
  {
    if calls != [] {
      TextsAre(calls[..|calls| - 1]);
    }
  }

  /** The parts of a digest, sent in order and each once. */
  ghost predicate SendsParts(d: Digest, calls: seq<Call>) {
    |calls| <= |d.chunks| && forall i | 0 <= i < |calls| :: calls[i].prompt == PartOf(i, |d.chunks|, d.chunks[i])
  }

  /**
   Summarises one digest: nothing to ask for an empty one, one call for a single chunk, and
   otherwise the parts one after another and then all they said, unless a part fails.  What
   it asks for is what the estimate counts.
   */
  method SummariseDigest(c: Client, d: Digest) returns (r: Reply, ghost made: seq<Call>)
    modifies c
    ensures c.log == old(c.log) + made
    ensures Asked(d, Outcomes(made))
    ensures Walk(d, Outcomes(made)) == Over(if r.Refused? then Failure else if r.text == "" then Blank else Prose)
    ensures |made| <= CallsFor(d) && (Failure !in Outcomes(made) ==> |made| == CallsFor(d))
    ensures |d.chunks| == 1 ==> made == [Call(Whole(d.chunks[0]), r)]
    ensures |d.chunks| > 1 && !r.Refused? ==>
              var n := |d.chunks|;
              |made| == n + 1 && SendsParts(d, made[..n]) && made[n] == Call(Joined(Texts(made[..n])), r)
  {
    hide Walk, Asked, CallsFor;
    made := [];
    NoCallYet(d);
    if |d.chunks| == 0 {
      DigestCosts(d, Outcomes(made));
      return Said(""), made;
    }
    if |d.chunks| == 1 {
      r := c.Complete(Whole(d.chunks[0]));
      OneMoreCall(d, made, Call(Whole(d.chunks[0]), r));
      made := made + [Call(Whole(d.chunks[0]), r)];
      DigestCosts(d, Outcomes(made));
      return;
    }
    var parts;
    r, parts, made := SummariseParts(c, d);
    if r.Refused? {
      DigestCosts(d, Outcomes(made));
      return;
    }
    r := c.Complete(Joined(parts));
    ghost var last := Call(Joined(parts), r);
    OneMoreCall(d, made, last);
    assert (made + [last])[..|made|] == made;
    made := made + [last];
    DigestCosts(d, Outcomes(made));
  }

  /** The calls for the parts of a digest; `r` is the last reply. */
  method SummariseParts(c: Client, d: Digest) returns (r: Reply, parts: seq<string>, ghost made: seq<Call>)
    requires |d.chunks| > 1
    modifies c
    ensures c.log == old(c.log) + made && SendsParts(d, made)
    ensures Asked(d, Outcomes(made)) && Walk(d, Outcomes(made)) == if r.Refused? then Over(Failure) else Combine
    ensures r.Refused? ==> Failure in Outcomes(made)
    ensures !r.Refused? ==> |made| == |d.chunks| && parts == Texts(made)
  {
    hide Walk, Asked;
    made, parts, r := [], [], Said("");
    NoCallYet(d);
    for i := 0 to |d.chunks|
      invariant c.log == old(c.log) + made && |made| == i && !r.Refused?
      invariant Asked(d, Outcomes(made)) && Walk(d, Outcomes(made)) == if i < |d.chunks| then Part(i) else Combine
      invariant SendsParts(d, made) && parts == Texts(made)
    {
      var prompt := PartOf(i, |d.chunks|, d.chunks[i]);
      r := c.Complete(prompt);
      OneMoreCall(d, made, Call(prompt, r));
      assert (made + [Call(prompt, r)])[..|made|] == made;
      made := made + [Call(prompt, r)];
      if r.Refused? {
        assert Outcomes(made)[i] == Failure;
        return;
      }
      parts := parts + [r.text];
    }
  }
}
