/**
 The store behind the live view and its subscribers: internal/live/live.go and subscribe.go.
 Every method but `Emit` holds the store's lock from start to end, so any order of their calls
 is an interleaving; `Emit` gives the lock up once, between recording and broadcasting.
 */
module LiveStore {
  import opened Order
  import opened Live
  import opened LiveRing

  type Snapshot = Forest

  /** The capacity of a subscriber's queue. */
  const SUB_QUEUE: nat := 4

  /** `part` can be had from `whole` by leaving some of it out. */
  predicate Subsequence<T(==)>(part: seq<T>, whole: seq<T>) {
    part == [] ||
    (whole != [] &&
     ((part[|part| - 1] == whole[|whole| - 1] && Subsequence(part[..|part| - 1], whole[..|whole| - 1]))
      || Subsequence(part, whole[..|whole| - 1])))
  }

  lemma {:induction false} SubsequenceSkips<T>(part: seq<T>, whole: seq<T>, x: T)
    requires Subsequence(part, whole)
    ensures Subsequence(part, whole + [x])
  {
    assert (whole + [x])[..|whole|] == whole;
  }

  lemma {:induction false} SubsequenceTakes<T>(part: seq<T>, whole: seq<T>, x: T)
    requires Subsequence(part, whole)
    ensures Subsequence(part + [x], whole + [x])
  {
    assert (whole + [x])[..|whole|] == whole && (part + [x])[..|part|] == part;
  }

  /** What a subscriber was sent: its primer and then later broadcasts, some left out. */
  ghost predicate Follows(sent: seq<Snapshot>, primer: Snapshot, since: nat, log: seq<Snapshot>) {
    since <= |log| && Subsequence(sent, [primer] + log[since..])
  }

  lemma FollowsFromStart(snap: Snapshot, log: seq<Snapshot>)
    ensures Follows([snap], snap, |log|, log)
  {
    assert [snap] + log[|log|..] == [] + [snap];
    SubsequenceTakes([], [], snap);
  }

  lemma FollowsOffered(sent: seq<Snapshot>, primer: Snapshot, since: nat, log: seq<Snapshot>, snap: Snapshot)
    requires Follows(sent, primer, since, log)
    ensures Follows(sent, primer, since, log + [snap]) && Follows(sent + [snap], primer, since, log + [snap])
  {
    hide Subsequence;
    assert [primer] + (log + [snap])[since..] == ([primer] + log[since..]) + [snap];
    SubsequenceSkips(sent, [primer] + log[since..], snap);
    SubsequenceTakes(sent, [primer] + log[since..], snap);
  }

  /** A bounded channel.  Its preconditions are what would panic or block. */
  class Channel {
    var queue: seq<Snapshot>
    var closed: bool
    /** What was put in, and what the reader has taken out. */
    ghost var sent: seq<Snapshot>
    ghost var received: seq<Snapshot>
    /** The view it is primed with, and how many broadcasts came before. */
    ghost const primer: Snapshot
    ghost const since: nat

    ghost predicate Valid()
      reads this
    {
      |queue| <= SUB_QUEUE && sent == received + queue
    }

    /** Not closed, and has been sent its primer and later broadcasts only. */
    ghost predicate Hears(log: seq<Snapshot>)
      reads this
    {
      Valid() && !closed && Follows(sent, primer, since, log)
    }

    constructor (ghost primer: Snapshot, ghost since: nat)
      ensures Valid() && queue == [] && !closed && sent == [] && this.primer == primer && this.since == since
    {
      queue, closed, sent, received := [], false, [], [];
      this.primer, this.since := primer, since;
    }

    /** Sending to a closed channel panics; sending to a full one blocks. */
    method Send(snap: Snapshot)
      requires Valid() && !closed && |queue| < SUB_QUEUE
      modifies this`queue, this`sent
      ensures Valid() && queue == old(queue) + [snap]
      ensures sent == old(sent) + [snap] && received == old(received)
    {
      queue, sent := queue + [snap], sent + [snap];
    }

    /** Sends when there is room and otherwise drops the snapshot, without waiting. */
    method Offer(snap: Snapshot, ghost log: seq<Snapshot>)
      requires Hears(log)
      modifies this`queue, this`sent
      ensures Hears(log + [snap])
      ensures queue == if |old(queue)| < 4 then old(queue) + [snap] else old(queue)
      ensures sent == if |old(queue)| < 4 then old(sent) + [snap] else old(sent)
    {
      hide Follows;
      FollowsOffered(sent, primer, since, log, snap);
      if |queue| < SUB_QUEUE {
        Send(snap);
      }
    }

    /** Closing a closed channel panics.  What is queued can still be read. */
    method Close()
      requires !closed
      modifies this`closed
      ensures closed
    {
      closed := true;
    }

    /** The reader takes the oldest snapshot, when there is one. */
    method Receive() returns (snap: seq<Snapshot>)
      requires Valid()
      modifies this`queue, this`received
      ensures Valid() && received == old(received) + snap && queue == old(queue)[|snap|..] && snap == old(queue)[..|snap|]
      ensures |snap| == if old(queue) == [] then 0 else 1
    {
      if queue == [] {
        return [];
      }
      snap := queue[..1];
      queue, received := queue[1..], received + snap;
    }
  }

  /** What `Subscribe` hands back: the channel, and the state of its cancel function. */
  class Subscription {
    const id: nat
    const ch: Channel
    var once: bool

    constructor (id: nat, ch: Channel)
      ensures this.id == id && this.ch == ch && !once
    {
      this.id, this.ch, once := id, ch, false;
    }
  }

  datatype Options = Options(retainTurns: nat, retainWindow: nat, includeProbe: bool, never: Time)

  /** The last `n` turns. */
  function Newest(turns: seq<Turn>, n: nat): (kept: seq<Turn>)
    ensures |kept| == if |turns| < n then |turns| else n
    ensures turns == turns[..|turns| - |kept|] + kept
  {
    if |turns| > n then turns[|turns| - n..] else turns
  }

  /** The turns of a batch that the store keeps. */
  function Wanted(opts: Options, batch: seq<Turn>): seq<Turn> {
    if batch == [] then []
    else
      var t := batch[|batch| - 1];
      Wanted(opts, batch[..|batch| - 1]) + if !opts.includeProbe && t.probe then [] else [t]
  }

  lemma {:induction false} WantedOf(opts: Options, a: seq<Turn>, b: seq<Turn>)
    ensures Wanted(opts, a + b) == Wanted(opts, a) + Wanted(opts, b)
    decreases |b|
  {
    if b == [] {
      assert a + b == a;
    } else {
      assert (a + b)[..|a + b| - 1] == a + b[..|b| - 1];
      WantedOf(opts, a, b[..|b| - 1]);
    }
  }

  /** The turns that are wanted stay, in order; probes are dropped unless they are asked for. */
  lemma {:induction false} WantedIs(opts: Options, batch: seq<Turn>)
    ensures opts.includeProbe || (forall t | t in batch :: !t.probe) ==> Wanted(opts, batch) == batch
    ensures !opts.includeProbe && (forall t | t in batch :: t.probe) ==> Wanted(opts, batch) == []
    ensures forall t :: t in Wanted(opts, batch) <==> t in batch && (opts.includeProbe || !t.probe)
  {
    if batch != [] {
      var n := |batch| - 1;
      assert batch == batch[..n] + [batch[n]] && batch[n] in batch;
      WantedIs(opts, batch[..n]);
    }
  }

  /** The index of exactly the retained threads: open, recent, or ancestors of such. */
  ghost predicate IsWindow(turns: seq<Turn>, never: Time, running: seq<string>, cutoff: Time, ix: Index) {
    exists keep: set<string> | IsKept(Indexed(turns, never), running, cutoff, keep) ::
      ix == Restrict(Indexed(turns, never), keep)
  }

  /** A thread of the window with a turn in the ring since the cutoff, or that is open, is indexed and has a place. */
  ghost predicate Shows(turns: seq<Turn>, running: seq<string>, cutoff: Time, ix: Index, snap: Snapshot) {
    && (forall i, id | 0 <= i < |turns| && CountsTo(turns[i], id) && (id in running || turns[i].lastTs >= cutoff) ::
          id in ix.threads && HasPlace(snap, id))
  }

  lemma {:induction false} WindowShows(turns: seq<Turn>, never: Time, running: seq<string>, cutoff: Time, ix: Index, snap: Snapshot)
    requires IsWindow(turns, never, running, cutoff, ix) && IsForest(ix, snap)
    ensures Shows(turns, running, cutoff, ix, snap)
  {
    hide IsKept, Indexed, IsForest, CountsTo, HasPlace;
    var keep: set<string> :| IsKept(Indexed(turns, never), running, cutoff, keep) && ix == Restrict(Indexed(turns, never), keep);
    forall i, id | 0 <= i < |turns| && CountsTo(turns[i], id) && (id in running || turns[i].lastTs >= cutoff)
      ensures id in ix.threads && HasPlace(snap, id)
    {
      ActiveIsKept(turns, never, running, cutoff, keep, id);
      KeptIsIndexed(turns, never, running, cutoff, keep, id);
      EveryThreadHasPlace(ix, snap, id);
    }
  }

  lemma {:induction false} KeptIsIndexed(turns: seq<Turn>, never: Time, running: seq<string>, cutoff: Time, keep: set<string>, id: string)
    requires IsKept(Indexed(turns, never), running, cutoff, keep) && id in keep
    ensures id in Indexed(turns, never).threads
  {}

  /** No channel is registered twice. */
  ghost predicate Apart(subs: map<nat, Channel>) {
    forall i, j | i in subs && j in subs && i != j :: subs[i] != subs[j]
  }

  lemma OthersDiffer(subs: map<nat, Channel>, id: nat)
    requires Apart(subs) && id in subs
    ensures forall i | i in subs && i != id :: subs[i] != subs[id]
  {}

  class Store {
    const opts: Options
    var turns: seq<Turn>
    var ix: Index
    var subs: map<nat, Channel>
    var nextSub: nat
    /** Every broadcast so far. */
    ghost var log: seq<Snapshot>

    /** Only open channels are registered, each once. */
    ghost predicate Linked()
      reads this`subs, this`nextSub, this`log, subs.Values
    {
      && (forall id | id in subs :: id < nextSub && subs[id].Hears(log))
      && Apart(subs)
    }

    ghost predicate Valid()
      reads this, subs.Values
    {
      "" !in ix.threads && Linked()
    }

    constructor (opts: Options)
      ensures Valid() && subs == map[] && turns == [] && this.opts == opts
    {
      this.opts := opts;
      turns, ix := [], Index(map[], map[]);
      subs, nextSub := map[], 0;
      log := [];
    }

    // ---- Recording ----------------------------------------------------------------------

    /**
     Records a batch and rebuilds the index from the ring alone, so what is shown is exactly
     what the ring says.
     */
    method Record(batch: seq<Turn>, running: seq<string>, now: Time) returns (snap: Snapshot)
      requires Valid()
      modifies this`turns, this`ix
      ensures Valid()
      ensures turns == Newest(old(turns) + Wanted(opts, batch), opts.retainTurns)
      ensures IsWindow(turns, opts.never, running, now - opts.retainWindow, ix)
      ensures IsForest(ix, snap) && Shows(turns, running, now - opts.retainWindow, ix, snap)
    {
      hide IsForest, Linked, Indexed, IsKept, Wanted, Restrict, IsWindow, Shows, Newest;
      Append(batch);
      Trim();
      Rebuild(running, now - opts.retainWindow);
      snap := Assemble(ix);
      WindowShows(turns, opts.never, running, now - opts.retainWindow, ix, snap);
    }

    method Append(batch: seq<Turn>)
      modifies this`turns
      ensures turns == old(turns) + Wanted(opts, batch)
    {
      for i := 0 to |batch|
        invariant turns == old(turns) + Wanted(opts, batch[..i])
      {
        assert batch[..i + 1][..i] == batch[..i];
        if opts.includeProbe || !batch[i].probe {
          turns := turns + [batch[i]];
        }
      }
      assert batch[..|batch|] == batch;
    }

    method Trim()
      modifies this`turns
      ensures turns == Newest(old(turns), opts.retainTurns)
    {
      if |turns| <= opts.retainTurns {
        return;
      }
      turns := turns[|turns| - opts.retainTurns..];
    }

    method Rebuild(running: seq<string>, cutoff: Time)
      modifies this`ix
      ensures IsWindow(turns, opts.never, running, cutoff, ix) && "" !in ix.threads
    {
      hide IsKept, Indexed;
      var full := IndexRing();
      var gone := Evictable(full, running, cutoff);
      ix := Restrict(full, full.threads.Keys - gone);
    }

    /** The index of the ring, turn by turn. */
    method IndexRing() returns (full: Index)
      ensures full == Indexed(turns, opts.never)
    {
      hide Observe;
      var threads: map<string, Thread>, owner: map<string, string> := map[], map[];
      for i := 0 to |turns|
        invariant Index(threads, owner) == Indexed(turns[..i], opts.never)
      {
        assert turns[..i + 1][..i] == turns[..i];
        var t := turns[i];
        var id := ThreadKey(t);
        if id == "" {
          continue;
        }
        var th := if id in threads then threads[id] else Thread("", "", opts.never);
        threads := threads[id := Observe(th, t)];
        if t.turnId != "" {
          owner := owner[t.turnId := id];
        }
      }
      assert turns[..|turns|] == turns;
      full := Index(threads, owner);
    }

    // ---- Subscribers --------------------------------------------------------------------

    /** Registers a subscriber, primed with the current view. */
    method Subscribe() returns (sub: Subscription)
      requires Valid()
      modifies this`subs, this`nextSub
      ensures Valid() && fresh(sub) && fresh(sub.ch) && !sub.once
      ensures sub.id == old(nextSub) && subs == old(subs)[sub.id := sub.ch] && sub.id !in old(subs)
      ensures sub.ch.queue == [sub.ch.primer] && IsForest(ix, sub.ch.primer) && sub.ch.since == |log|
    {
      hide IsForest;
      var id := nextSub;
      nextSub := nextSub + 1;
      var snap := Assemble(ix);
      var ch := Primed(snap);
      subs := subs[id := ch];
      sub := new Subscription(id, ch);
    }

    method Primed(snap: Snapshot) returns (ch: Channel)
      ensures fresh(ch) && ch.Hears(log) && ch.queue == [snap] && ch.primer == snap && ch.since == |log|
    {
      hide Follows;
      ch := new Channel(snap, |log|);
      ch.Send(snap);
      FollowsFromStart(snap, log);
      assert ch.sent == [snap];
    }

    /** Stops a subscription; doing so twice, or after the store closed, does nothing. */
    method Cancel(sub: Subscription)
      requires Valid()
      modifies this`subs, sub, sub.ch`closed
      ensures Valid() && sub.once
      ensures subs == if !old(sub.once) && sub.id in old(subs) && old(subs)[sub.id] == sub.ch
                      then old(subs) - {sub.id} else old(subs)
      ensures old(!sub.once && sub.id in subs && subs[sub.id] == sub.ch) ==> sub.ch.closed
    {
      hide Follows;
      if sub.once {
        return;
      }
      sub.once := true;
      if sub.id in subs && subs[sub.id] == sub.ch {
        subs := subs - {sub.id};
        sub.ch.Close();
      }
    }

    /** A reader takes from its queue without the lock, and the store never notices. */
    method Read(sub: Subscription) returns (snap: seq<Snapshot>)
      requires Valid() && sub.ch.Valid()
      modifies sub.ch`queue, sub.ch`received
      ensures Valid() && sub.ch.Valid()
    {
      hide Follows;
      snap := sub.ch.Receive();
    }

    /**
     Offers a snapshot to all channels in turn.  A full queue stays as it is, and what happens
     to one channel touches no other.
     */
    method Broadcast(snap: Snapshot)
      requires Valid()
      modifies this`log, subs.Values
      ensures Valid() && log == old(log) + [snap]
      ensures forall id | id in subs ::
                subs[id].queue == if |old(subs[id].queue)| < SUB_QUEUE then old(subs[id].queue) + [snap]
                                  else old(subs[id].queue)
    {
      hide Channel.Hears, Apart;
      ghost var next := log + [snap];
      var left := subs.Keys;
      while left != {}
        invariant left <= subs.Keys && log == old(log)
        invariant forall id | id in left :: subs[id].Hears(log) && subs[id].queue == old(subs[id].queue)
        invariant forall id | id in subs && id !in left :: subs[id].Hears(next)
        invariant forall id | id in subs && id !in left ::
                    subs[id].queue == if |old(subs[id].queue)| < SUB_QUEUE then old(subs[id].queue) + [snap]
                                      else old(subs[id].queue)
        decreases left
      {
        var id :| id in left;
        left := left - {id};
        OthersDiffer(subs, id);
        subs[id].Offer(snap, log);
      }
      log := next;
    }

    /** Disconnects every subscriber, each exactly once; what is queued stays to be read. */
    method Close()
      requires Valid()
      modifies this`subs, subs.Values
      ensures Valid() && subs == map[]
      ensures forall id | id in old(subs) :: old(subs)[id].closed
      ensures forall ch | ch in old(subs.Values) :: unchanged(ch`queue) && unchanged(ch`sent)
    {
      hide Linked, Apart, Channel.Hears, Channel.Valid;
      OpenOnce(subs.Values);
      DisconnectAll(subs.Values);
      Nobody();
    }

    method DisconnectAll(ghost channels: set<Channel>)
      requires Apart(subs) && forall id | id in subs :: !subs[id].closed && subs[id] in channels
      modifies this`subs, channels
      ensures subs == map[]
      ensures forall id | id in old(subs) :: old(subs)[id].closed
      ensures forall ch | ch in channels :: unchanged(ch`queue) && unchanged(ch`sent)
    {
      hide Apart;
      ghost var all := subs;
      while subs != map[]
        invariant subs.Keys <= all.Keys
        invariant forall id | id in subs :: subs[id] == all[id] && !all[id].closed
        invariant forall id | id in all && id !in subs :: all[id].closed
        invariant forall ch: Channel | ch in channels :: unchanged(ch`queue) && unchanged(ch`sent)
        decreases subs.Keys
      {
        var id :| id in subs.Keys;
        OthersDiffer(all, id);
        Disconnect(id, subs[id]);
      }
    }

    lemma OpenOnce(channels: set<Channel>)
      requires Linked() && channels == subs.Values
      ensures forall id | id in subs :: !subs[id].closed && subs[id] in channels
      ensures Apart(subs)
    {
      hide Follows;
    }

    method Disconnect(id: nat, ch: Channel)
      requires id in subs && subs[id] == ch && !ch.closed
      modifies this`subs, ch`closed
      ensures subs == old(subs) - {id} && ch.closed
    {
      ch.Close();
      subs := subs - {id};
    }

    lemma Nobody()
      requires subs == map[]
      ensures Linked()
    {}

    /**
     The lock is free: others may record, subscribe, cancel, broadcast or close any number of
     times.  The body does nothing; callers know no more than the contract.
     */
    method Unlocked()
      requires Valid()
      modifies this, subs.Values
      ensures Valid() && old(log) <= log && fresh(subs.Values - old(subs.Values))
    {}

    /**
     Records a batch, shows what that gives, and offers it to whoever subscribes by then.  It
     cannot fail and waits for no reader.
     */
    method Emit(batch: seq<Turn>, running: seq<string>, now: Time)
        returns (ghost ring: seq<Turn>, ghost shown: Index, ghost snap: Snapshot)
      requires Valid()
      modifies this, subs.Values
      ensures Valid()
      ensures ring == Newest(old(turns) + Wanted(opts, batch), opts.retainTurns)
      ensures IsWindow(ring, opts.never, running, now - opts.retainWindow, shown) && IsForest(shown, snap)
      ensures |log| > |old(log)| && old(log) <= log && log[|log| - 1] == snap
    {
      hide IsForest, IsWindow, Wanted, Newest, Linked;
      var view := Record(batch, running, now);
      ring, shown, snap := turns, ix, view;
      Unlocked();
      Broadcast(view);
    }
  }
}
