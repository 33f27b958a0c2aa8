/**
 What the live index says of the ring of turns it is rebuilt from: internal/live/live.go and
 view.go.
 */
module LiveRing {
  import opened Live
  import opened Order

  // ---- One thread ---------------------------------------------------------------------------

  /** Which turns count to a thread: by thread id, or by session id where there is none. */
  predicate CountsTo(t: Turn, id: string) {
    id != "" && if t.threadId != "" then id == t.threadId else t.sessionId != "" && id == "session:" + t.sessionId
  }

  lemma CountsToKey(t: Turn, id: string)
    ensures CountsTo(t, id) <==> id != "" && id == ThreadKey(t)
  {}

  /** The value that the last turn of the thread to name one gives it; empty if none does. */
  ghost predicate IsLatest(turns: seq<Turn>, id: string, names: Turn -> string, value: string) {
    if value == "" then forall i | 0 <= i < |turns| && CountsTo(turns[i], id) :: names(turns[i]) == ""
    else exists i :: LastNaming(turns, id, names, i) && names(turns[i]) == value
  }

  /** Turn `i` of the thread names something and no later one does. */
  ghost predicate LastNaming(turns: seq<Turn>, id: string, names: Turn -> string, i: int) {
    && 0 <= i < |turns| && CountsTo(turns[i], id) && names(turns[i]) != ""
    && forall j | i < j < |turns| && CountsTo(turns[j], id) :: names(turns[j]) == ""
  }

  lemma {:induction false} LatestGrows(turns: seq<Turn>, t: Turn, id: string, names: Turn -> string, was: string)
    requires IsLatest(turns, id, names, was)
    ensures IsLatest(turns + [t], id, names, if CountsTo(t, id) && names(t) != "" then names(t) else was)
  {
    hide CountsTo;
    var all := turns + [t];
    assert forall i | 0 <= i < |turns| :: all[i] == turns[i];
    if CountsTo(t, id) && names(t) != "" {
      assert all[|turns|] == t && LastNaming(all, id, names, |turns|);
    } else if was != "" {
      var i :| LastNaming(turns, id, names, i) && names(turns[i]) == was;
      assert LastNaming(all, id, names, i);
    }
  }

  /** The latest time of the thread's turns. */
  ghost predicate IsLastSeen(turns: seq<Turn>, id: string, never: Time, at: Time) {
    && at >= never
    && (forall i | 0 <= i < |turns| && CountsTo(turns[i], id) :: turns[i].lastTs <= at)
    && (at == never || exists i :: 0 <= i < |turns| && CountsTo(turns[i], id) && turns[i].lastTs == at)
  }

  lemma {:induction false} LastSeenGrows(turns: seq<Turn>, t: Turn, id: string, never: Time, was: Time)
    requires IsLastSeen(turns, id, never, was)
    ensures IsLastSeen(turns + [t], id, never, if CountsTo(t, id) && t.lastTs > was then t.lastTs else was)
  {
    hide CountsTo;
    var all := turns + [t];
    assert forall i | 0 <= i < |turns| :: all[i] == turns[i];
    assert all[|turns|] == t;
    if !(CountsTo(t, id) && t.lastTs > was) && was != never {
      var i :| 0 <= i < |turns| && CountsTo(turns[i], id) && turns[i].lastTs == was;
      assert CountsTo(all[i], id);
    }
  }

  /** What the index holds of a thread is what its turns in the ring say, the later ones first. */
  ghost predicate Tells(turns: seq<Turn>, never: Time, id: string, th: Thread) {
    && IsLatest(turns, id, (t: Turn) => t.parentThread, th.parentThread)
    && IsLatest(turns, id, (t: Turn) => t.parentTurn, th.parentTurn)
    && IsLastSeen(turns, id, never, th.lastSeen)
  }

  ghost predicate HasTurn(turns: seq<Turn>, id: string) {
    exists i :: 0 <= i < |turns| && CountsTo(turns[i], id)
  }

  lemma {:induction false} NoTurnYet(turns: seq<Turn>, never: Time, id: string)
    requires !HasTurn(turns, id)
    ensures Tells(turns, never, id, Thread("", "", never))
  {
    hide CountsTo;
  }

  lemma {:induction false} TellsGrows(turns: seq<Turn>, t: Turn, never: Time, id: string, th: Thread)
    requires Tells(turns, never, id, th)
    ensures Tells(turns + [t], never, id, if CountsTo(t, id) then Observe(th, t) else th)
  {
    hide CountsTo, IsLatest, IsLastSeen;
    LatestGrows(turns, t, id, (t: Turn) => t.parentThread, th.parentThread);
    LatestGrows(turns, t, id, (t: Turn) => t.parentTurn, th.parentTurn);
    LastSeenGrows(turns, t, id, never, th.lastSeen);
  }

  /** Exactly the threads with a turn in the ring are indexed, each as its turns tell. */
  lemma {:induction false} IndexTells(turns: seq<Turn>, never: Time, id: string)
    ensures var ix := Indexed(turns, never);
            && (id in ix.threads <==> HasTurn(turns, id))
            && Tells(turns, never, id, if id in ix.threads then ix.threads[id] else Thread("", "", never))
  {
    if turns == [] {
      NoTurnYet(turns, never, id);
    } else {
      var before, t := turns[..|turns| - 1], turns[|turns| - 1];
      assert turns == before + [t];
      IndexTells(before, never, id);
      CountsToKey(t, id);
      var ix := Indexed(before, never);
      hide CountsTo, Observe, Tells, ThreadKey;
      TellsGrows(before, t, never, id, if id in ix.threads then ix.threads[id] else Thread("", "", never));
      OneMoreTurn(before, t, id);
    }
  }

  lemma {:induction false} OneMoreTurn(turns: seq<Turn>, t: Turn, id: string)
    ensures HasTurn(turns + [t], id) <==> HasTurn(turns, id) || CountsTo(t, id)
  {
    hide CountsTo;
    var all := turns + [t];
    assert all[|turns|] == t && forall i | 0 <= i < |turns| :: all[i] == turns[i];
    if HasTurn(turns, id) {
      var i :| 0 <= i < |turns| && CountsTo(turns[i], id);
      assert CountsTo(all[i], id);
    }
    if CountsTo(t, id) {
      assert CountsTo(all[|turns|], id);
    }
  }

  // ---- Owners of turns ------------------------------------------------------------------------

  /** Ring entry `i` ran the turn, on some thread, and no later one did. */
  ghost predicate LastRun(turns: seq<Turn>, turnId: string, i: int) {
    && 0 <= i < |turns| && turns[i].turnId == turnId && ThreadKey(turns[i]) != ""
    && forall j | i < j < |turns| && turns[j].turnId == turnId :: ThreadKey(turns[j]) == ""
  }

  /** A turn belongs to the thread of the last ring entry that ran it. */
  lemma {:induction false} OwnerIs(turns: seq<Turn>, never: Time, turnId: string)
    ensures var ix := Indexed(turns, never);
            && (turnId in ix.turnOwner <==> turnId != "" && exists i :: LastRun(turns, turnId, i))
            && (forall i | LastRun(turns, turnId, i) && turnId != "" :: ix.turnOwner[turnId] == ThreadKey(turns[i]))
  {
    hide ThreadKey, Observe;
    if turns != [] {
      var n := |turns| - 1;
      var before, t := turns[..n], turns[n];
      OwnerIs(before, never, turnId);
      if ThreadKey(t) != "" && t.turnId == turnId {
        assert LastRun(turns, turnId, n);
      } else {
        forall i | LastRun(before, turnId, i)
          ensures LastRun(turns, turnId, i)
        {}
        forall i | LastRun(turns, turnId, i)
          ensures LastRun(before, turnId, i)
        {}
      }
    }
  }

  // ---- What is kept, and where it is shown ------------------------------------------------------

  /** A kept thread keeps both its parents: the thread it names and the one that ran its parent turn. */
  lemma {:induction false} BothParentsAreKept(ix: Index, running: seq<string>, cutoff: Time, keep: set<string>, id: string)
    requires IsKept(ix, running, cutoff, keep) && id in keep
    ensures ix.threads[id].parentThread in ix.threads ==> ix.threads[id].parentThread in keep
    ensures var turn := ix.threads[id].parentTurn;
            turn != "" && turn in ix.turnOwner && ix.turnOwner[turn] in ix.threads ==> ix.turnOwner[turn] in keep
  {
    assert Links(ix, id) <= keep;
    var th := ix.threads[id];
    assert th.parentThread in ix.threads ==> th.parentThread in Links(ix, id);
    assert OwnerOf(ix, th.parentTurn) in ix.threads ==> OwnerOf(ix, th.parentTurn) in Links(ix, id);
  }

  /** A thread is kept that is open, or that has a turn in the ring at or past the cutoff. */
  lemma {:induction false} ActiveIsKept(turns: seq<Turn>, never: Time, running: seq<string>, cutoff: Time, keep: set<string>,
                                        id: string)
    requires IsKept(Indexed(turns, never), running, cutoff, keep) && HasTurn(turns, id)
    requires id in running || exists i :: 0 <= i < |turns| && CountsTo(turns[i], id) && turns[i].lastTs >= cutoff
    ensures id in keep
  {
    hide CountsTo, Indexed;
    IndexTells(turns, never, id);
    assert Recent(Indexed(turns, never), running, cutoff, id);
  }

  /** When nothing is open and no turn is recent, nothing is kept. */
  lemma {:induction false} IdleIsEmpty(turns: seq<Turn>, never: Time, cutoff: Time, keep: set<string>)
    requires IsKept(Indexed(turns, never), [], cutoff, keep)
    requires never < cutoff && forall i | 0 <= i < |turns| :: turns[i].lastTs < cutoff
    ensures keep == {}
  {
    hide CountsTo, Indexed;
    var ix := Indexed(turns, never);
    forall id | id in ix.threads
      ensures !Recent(ix, [], cutoff, id)
    {
      IndexTells(turns, never, id);
    }
    assert Closed(ix, {});
  }

  /** The thread names another as its parent: by thread id or, if by none, by a turn which that one ran. */
  predicate Names(ix: Index, id: string, p: string)
    requires id in ix.threads
  {
    var th := ix.threads[id];
    && p != "" && p != id
    && if th.parentThread != "" then th.parentThread == p
       else th.parentTurn != "" && th.parentTurn in ix.turnOwner && ix.turnOwner[th.parentTurn] == p
  }

  /** A thread hangs under the one it names when that is in the index, and is an orphan when it is not. */
  lemma {:induction false} HangsUnder(ix: Index, id: string)
    requires id in ix.threads
    ensures Hangs(ix, id) <==> exists p :: Names(ix, id, p) && p in ix.threads
    ensures Orphaned(ix, id) <==> exists p :: Names(ix, id, p) && p !in ix.threads
    ensures Hangs(ix, id) ==> Names(ix, id, ParentOf(ix, id))
  {
    var p := Named(ix.threads[id], ix.turnOwner);
    assert p != "" && p != id ==> Names(ix, id, p);
  }

  /** In a ranked list what was heard of later comes first, and of two heard of at once the smaller id. */
  lemma {:induction false} RankedMeans(ix: Index, ids: seq<string>, i: nat, j: nat)
    requires Ranked(ix, ids) && i < j < |ids|
    ensures ix.threads[ids[i]].lastSeen >= ix.threads[ids[j]].lastSeen
    ensures ix.threads[ids[i]].lastSeen == ix.threads[ids[j]].lastSeen ==> Less(ids[i], ids[j])
  {}

  /** Every thread of a forest has a place in it. */
  ghost predicate HasPlace(f: Forest, id: string) {
    id in f.roots || exists p :: id in Below(f, p)
  }

  lemma {:induction false} EveryThreadHasPlace(ix: Index, f: Forest, id: string)
    requires IsForest(ix, f) && id in ix.threads
    ensures HasPlace(f, id)
  {
    hide Ranked;
    if Hangs(ix, id) {
      assert id in Below(f, ParentOf(ix, id));
    }
  }
}
