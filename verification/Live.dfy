/** The live window over recent turns: internal/live/live.go. */
module Live {
  import opened Order
  import opened Wrappers

  type Time = int

  datatype Turn = Turn(
    threadId: string, sessionId: string, turnId: string,
    parentThread: string, parentTurn: string, lastTs: Time, probe: bool)

  datatype Thread = Thread(parentThread: string, parentTurn: string, lastSeen: Time)

  /** Every thread of the ring, and the thread that ran each server turn. */
  datatype Index = Index(threads: map<string, Thread>, turnOwner: map<string, string>)

  // ---- The index, rebuilt from the ring -----------------------------------------------

  /** Which thread a turn is counted to; empty when it says nothing about that. */
  function ThreadKey(t: Turn): string {
    if t.threadId != "" then t.threadId
    else if t.sessionId != "" then "session:" + t.sessionId
    else ""
  }

  function Latest(was: string, now: string): string {
    if now != "" then now else was
  }

  function Observe(th: Thread, t: Turn): Thread {
    Thread(Latest(th.parentThread, t.parentThread), Latest(th.parentTurn, t.parentTurn),
           if t.lastTs > th.lastSeen then t.lastTs else th.lastSeen)
  }

  /** `never` is the time before any, which a fresh thread starts from. */
  function Indexed(turns: seq<Turn>, never: Time): (ix: Index)
    ensures "" !in ix.threads
    ensures forall t | t in ix.turnOwner :: ix.turnOwner[t] in ix.threads
  {
    if turns == [] then Index(map[], map[])
    else
      var t := turns[|turns| - 1];
      var ix := Indexed(turns[..|turns| - 1], never);
      var id := ThreadKey(t);
      if id == "" then ix
      else
        var th := if id in ix.threads then ix.threads[id] else Thread("", "", never);
        Index(ix.threads[id := Observe(th, t)],
              if t.turnId == "" then ix.turnOwner else ix.turnOwner[t.turnId := id])
  }

  // ---- What eviction keeps ------------------------------------------------------------

  /** The thread that ran a turn; empty when unknown. */
  function OwnerOf(ix: Index, turn: string): string {
    if turn != "" && turn in ix.turnOwner then ix.turnOwner[turn] else ""
  }

  /** Both parent links of a thread, as far as they lead to one in the index. */
  function Links(ix: Index, id: string): set<string>
    requires id in ix.threads
  {
    var th := ix.threads[id];
    set p | p in {th.parentThread, OwnerOf(ix, th.parentTurn)} && p in ix.threads
  }

  ghost predicate Closed(ix: Index, keep: set<string>) {
    forall id | id in keep && id in ix.threads :: Links(ix, id) <= keep
  }

  /** Open, or heard of since the cutoff. */
  predicate Recent(ix: Index, running: seq<string>, cutoff: Time, id: string) {
    id in ix.threads && (id in running || ix.threads[id].lastSeen >= cutoff)
  }

  /** The least set of threads that holds the open and recent ones and both parents of each of its own. */
  ghost predicate IsKept(ix: Index, running: seq<string>, cutoff: Time, keep: set<string>) {
    && keep <= ix.threads.Keys
    && Closed(ix, keep)
    && (forall id | Recent(ix, running, cutoff, id) :: id in keep)
    && (forall other: set<string> | Closed(ix, other) && (forall id | Recent(ix, running, cutoff, id) :: id in other) ::
          keep <= other)
  }

  /** Whatever order the map is visited in, the result is the same. */
  lemma KeptIsUnique(ix: Index, running: seq<string>, cutoff: Time, a: set<string>, b: set<string>)
    requires IsKept(ix, running, cutoff, a) && IsKept(ix, running, cutoff, b)
    ensures a == b
  {}

  /** Keeps a thread and, through both links, everything it descends from. */
  method Protect(ix: Index, id: string, keep: set<string>) returns (kept: set<string>)
    requires keep <= ix.threads.Keys && "" !in ix.threads
    ensures keep <= kept <= ix.threads.Keys
    ensures id in ix.threads ==> id in kept
    ensures forall x | x in kept && x !in keep :: Links(ix, x) <= kept
    ensures forall other: set<string> | Closed(ix, other) && (id in ix.threads ==> id in other) :: kept <= keep + other
    decreases ix.threads.Keys - keep
  {
    if id !in ix.threads || id in keep {
      return keep;
    }
    var th := ix.threads[id];
    kept := keep + {id};
    ghost var first := kept;
    if th.parentThread != "" {
      kept := Protect(ix, th.parentThread, kept);
    }
    ghost var second := kept;
    if th.parentTurn != "" {
      kept := Protect(ix, OwnerOf(ix, th.parentTurn), kept);
    }
    assert Links(ix, id) <= kept;
    forall other: set<string> | Closed(ix, other) && id in other
      ensures kept <= keep + other
    {
      assert Links(ix, id) <= other;
      assert th.parentThread in ix.threads ==> th.parentThread in Links(ix, id);
      assert OwnerOf(ix, th.parentTurn) in ix.threads ==> OwnerOf(ix, th.parentTurn) in Links(ix, id);
      assert second <= first + other;
    }
  }

  /** The threads outside the least kept set. */
  method Evictable(ix: Index, running: seq<string>, cutoff: Time) returns (out: set<string>)
    requires "" !in ix.threads
    ensures out <= ix.threads.Keys
    ensures IsKept(ix, running, cutoff, ix.threads.Keys - out)
  {
    var keep: set<string> := {};
    for i := 0 to |running|
      invariant keep <= ix.threads.Keys && Closed(ix, keep)
      invariant forall k | 0 <= k < i && running[k] in ix.threads :: running[k] in keep
      invariant forall other: set<string> | Closed(ix, other) && (forall r | r in running && r in ix.threads :: r in other) ::
                  keep <= other
    {
      keep := Protect(ix, running[i], keep);
    }
    var left := ix.threads.Keys;
    while left != {}
      invariant left <= ix.threads.Keys && keep <= ix.threads.Keys && Closed(ix, keep)
      invariant forall r | r in running && r in ix.threads :: r in keep
      invariant forall id | id in ix.threads && id !in left && ix.threads[id].lastSeen >= cutoff :: id in keep
      invariant forall other: set<string> |
                  Closed(ix, other) && (forall id | Recent(ix, running, cutoff, id) :: id in other) ::
                  keep <= other
      decreases left
    {
      var id :| id in left;
      left := left - {id};
      if !(ix.threads[id].lastSeen < cutoff) {
        assert Recent(ix, running, cutoff, id);
        keep := Protect(ix, id, keep);
      }
    }
    out := ix.threads.Keys - keep;
    assert ix.threads.Keys - out == keep;
  }

  // ---- The forest ---------------------------------------------------------------------

  /** The parent a thread names: its parent thread or, failing that, the owner of the turn that spawned it. */
  function Named(th: Thread, turnOwner: map<string, string>): string {
    if th.parentThread != "" then th.parentThread
    else if th.parentTurn != "" && th.parentTurn in turnOwner then turnOwner[th.parentTurn]
    else ""
  }

  /** A child hangs under the parent it names when that is shown and is not the thread itself. */
  predicate Hangs(ix: Index, id: string) {
    id in ix.threads && var p := Named(ix.threads[id], ix.turnOwner); p != "" && p != id && p in ix.threads
  }

  /** A thread that names a parent which is not shown. */
  predicate Orphaned(ix: Index, id: string) {
    id in ix.threads && var p := Named(ix.threads[id], ix.turnOwner); p != "" && p != id && p !in ix.threads
  }

  function ParentOf(ix: Index, id: string): (p: string)
    requires Hangs(ix, id)
    ensures p in ix.threads && p != id
  {
    Named(ix.threads[id], ix.turnOwner)
  }

  /** The index with only some of its threads; owners of turns are not forgotten. */
  function Restrict(ix: Index, keep: set<string>): Index {
    Index(map id | id in ix.threads && id in keep :: ix.threads[id], ix.turnOwner)
  }

  /** Eviction never turns a thread with a parent into an orphan. */
  lemma EvictionMakesNoOrphans(ix: Index, running: seq<string>, cutoff: Time, keep: set<string>, id: string)
    requires IsKept(ix, running, cutoff, keep) && id in keep
    ensures Orphaned(Restrict(ix, keep), id) <==> Orphaned(ix, id)
    ensures Hangs(Restrict(ix, keep), id) <==> Hangs(ix, id)
  {
    var p := Named(ix.threads[id], ix.turnOwner);
    assert p in ix.threads ==> p in Links(ix, id);
  }

  /** Newest activity first, then by id. */
  predicate Above(ix: Index, a: string, b: string)
    requires a in ix.threads && b in ix.threads
  {
    ix.threads[a].lastSeen > ix.threads[b].lastSeen
    || (ix.threads[a].lastSeen == ix.threads[b].lastSeen && Less(a, b))
  }

  ghost predicate Ranked(ix: Index, ids: seq<string>) {
    && (forall i | 0 <= i < |ids| :: ids[i] in ix.threads)
    && (forall i, j | 0 <= i < j < |ids| :: Above(ix, ids[i], ids[j]))
  }

  lemma AboveTotal(ix: Index, a: string, b: string)
    requires a in ix.threads && b in ix.threads && a != b
    ensures Above(ix, a, b) <==> !Above(ix, b, a)
  {
    LessTotal(a, b);
    if Less(a, b) {
      LessAsymmetric(a, b);
    }
    if Less(b, a) {
      LessAsymmetric(b, a);
    }
  }

  lemma AboveTransitive(ix: Index, a: string, b: string, c: string)
    requires a in ix.threads && b in ix.threads && c in ix.threads && Above(ix, a, b) && Above(ix, b, c)
    ensures Above(ix, a, c)
  {
    if Less(a, b) && Less(b, c) {
      LessTransitive(a, b, c);
    }
  }

  lemma AboveIrreflexive(ix: Index, a: string)
    requires a in ix.threads
    ensures !Above(ix, a, a)
  {
    if Less(a, a) {
      LessAsymmetric(a, a);
    }
  }

  /** The order is total, so the view does not reshuffle: one ranking per set of threads. */
  lemma {:induction false} RankingIsUnique(ix: Index, a: seq<string>, b: seq<string>)
    requires Ranked(ix, a) && Ranked(ix, b) && forall id :: id in a <==> id in b
    ensures a == b
    decreases |a|
  {
    hide Above;
    if a == [] {
      FirstIsMember(b);
    } else {
      assert a[0] in b && b != [];
      assert b[0] in a;
      RankedDistinct(ix, a);
      RankedDistinct(ix, b);
      var i :| 0 <= i < |b| && b[i] == a[0];
      var j :| 0 <= j < |a| && a[j] == b[0];
      if i > 0 {
        assert Above(ix, b[0], b[i]);
        assert j > 0 && Above(ix, a[0], a[j]);
        AboveTotal(ix, a[0], b[0]);
      }
      assert a[0] == b[0];
      assert a[0] !in a[1..] && b[0] !in b[1..];
      forall id
        ensures id in a[1..] <==> id in b[1..]
      {
        assert id in a <==> id == a[0] || id in a[1..];
        assert id in b <==> id == b[0] || id in b[1..];
      }
      RankingIsUnique(ix, a[1..], b[1..]);
    }
  }

  lemma FirstIsMember(ids: seq<string>)
    ensures ids == [] || ids[0] in ids
  {}

  lemma RankedDistinct(ix: Index, ids: seq<string>)
    requires Ranked(ix, ids)
    ensures forall i, j | 0 <= i < j < |ids| :: ids[i] != ids[j]
  {
    hide Above;
    forall i, j | 0 <= i < j < |ids|
      ensures ids[i] != ids[j]
    {
      AboveIrreflexive(ix, ids[i]);
    }
  }

  /** Sorts distinct threads by rank. */
  method SortThreads(ix: Index, ids: seq<string>) returns (sorted: seq<string>)
    requires forall i | 0 <= i < |ids| :: ids[i] in ix.threads
    requires Distinct(ids)
    ensures Ranked(ix, sorted) && forall id :: id in sorted <==> id in ids
  {
    hide Above;
    sorted := [];
    for i := 0 to |ids|
      invariant Ranked(ix, sorted)
      invariant forall id :: id in sorted <==> id in ids[..i]
    {
      assert ids[..i + 1] == ids[..i] + [ids[i]];
      assert ids[i] !in ids[..i];
      sorted := InsertThread(ix, sorted, ids[i]);
    }
    assert ids[..|ids|] == ids;
  }

  method InsertThread(ix: Index, sorted: seq<string>, id: string) returns (more: seq<string>)
    requires Ranked(ix, sorted) && id in ix.threads && id !in sorted
    ensures Ranked(ix, more) && forall x :: x in more <==> x == id || x in sorted
  {
    hide Above;
    var at := 0;
    while at < |sorted| && Above(ix, sorted[at], id)
      invariant at <= |sorted| && forall i | 0 <= i < at :: Above(ix, sorted[i], id)
    {
      at := at + 1;
    }
    forall i | at <= i < |sorted|
      ensures Above(ix, id, sorted[i])
    {
      AboveTotal(ix, id, sorted[at]);
      if i > at {
        AboveTransitive(ix, id, sorted[at], sorted[i]);
      }
    }
    more := sorted[..at] + [id] + sorted[at..];
    assert sorted == sorted[..at] + sorted[at..];
  }

  /** Roots and children as they are shown: every thread in one place, each list ranked. */
  datatype Forest = Forest(roots: seq<string>, children: map<string, seq<string>>, orphans: set<string>)

  function Below(f: Forest, id: string): seq<string> {
    if id in f.children then f.children[id] else []
  }

  ghost predicate IsForest(ix: Index, f: Forest) {
    && Ranked(ix, f.roots)
    && (forall id :: id in f.roots <==> id in ix.threads && !Hangs(ix, id))
    && (forall p :: Ranked(ix, Below(f, p)))
    && (forall p, id :: id in Below(f, p) <==> Hangs(ix, id) && ParentOf(ix, id) == p)
    && (forall id :: id in f.orphans <==> Orphaned(ix, id))
  }

  method ParentNamed(ix: Index, id: string) returns (parent: string)
    requires id in ix.threads
    ensures parent == Named(ix.threads[id], ix.turnOwner)
  {
    parent := ix.threads[id].parentThread;
    if parent == "" && ix.threads[id].parentTurn != "" {
      parent := if ix.threads[id].parentTurn in ix.turnOwner then ix.turnOwner[ix.threads[id].parentTurn] else "";
    }
  }

  lemma Placement(ix: Index, id: string)
    requires id in ix.threads
    ensures var p := Named(ix.threads[id], ix.turnOwner);
            && (Hangs(ix, id) <==> p != "" && p != id && p in ix.threads)
            && (Orphaned(ix, id) <==> p != "" && p != id && p !in ix.threads)
            && (Hangs(ix, id) ==> ParentOf(ix, id) == p)
  {}

  /** The threads in `done` have each been put in their one place. */
  ghost predicate Placed(ix: Index, done: set<string>, roots: seq<string>, children: map<string, seq<string>>, orphans: set<string>) {
    && Distinct(roots)
    && (forall id :: id in roots <==> id in done && !Hangs(ix, id))
    && (forall p | p in children :: Distinct(children[p]))
    && (forall p, id :: id in (if p in children then children[p] else []) <==> id in done && Hangs(ix, id) && ParentOf(ix, id) == p)
    && (forall id :: id in orphans <==> id in done && Orphaned(ix, id))
  }

  lemma PlaceRoot(ix: Index, done: set<string>, roots: seq<string>, children: map<string, seq<string>>, orphans: set<string>, id: string)
    requires Placed(ix, done, roots, children, orphans) && id !in done && !Hangs(ix, id)
    ensures Placed(ix, done + {id}, roots + [id], children, if Orphaned(ix, id) then orphans + {id} else orphans)
  {
    hide Hangs, Orphaned, ParentOf;
  }

  lemma PlaceChild(ix: Index, done: set<string>, roots: seq<string>, children: map<string, seq<string>>, orphans: set<string>, id: string)
    requires Placed(ix, done, roots, children, orphans) && id !in done && Hangs(ix, id) && !Orphaned(ix, id)
    ensures var p := ParentOf(ix, id);
            var siblings := if p in children then children[p] else [];
            Placed(ix, done + {id}, roots, children[p := siblings + [id]], orphans)
  {
    hide Hangs, Orphaned, ParentOf, Distinct;
    var p := ParentOf(ix, id);
    var siblings := if p in children then children[p] else [];
    assert id !in siblings;
    DistinctAppend(siblings, id);
    var more := children[p := siblings + [id]];
    forall q, x
      ensures x in (if q in more then more[q] else []) <==> x in done + {id} && Hangs(ix, x) && ParentOf(ix, x) == q
    {
      assert x in (if q in children then children[q] else []) <==> x in done && Hangs(ix, x) && ParentOf(ix, x) == q;
    }
  }

  lemma DistinctAppend(ids: seq<string>, id: string)
    requires (ids == [] || Distinct(ids)) && id !in ids
    ensures Distinct(ids + [id])
  {}

  /** Assembles the forest in whatever order the map is visited; a parent not shown makes its child a root. */
  method Assemble(ix: Index) returns (f: Forest)
    requires "" !in ix.threads
    ensures IsForest(ix, f)
  {
    hide Above, Less, Placed, Hangs, Orphaned, ParentOf, Named, IsForest, Ranked;
    var roots: seq<string>, children: map<string, seq<string>>, orphans: set<string> := [], map[], {};
    NothingPlaced(ix);
    assert ix.threads.Keys - ix.threads.Keys == {};
    var left := ix.threads.Keys;
    while left != {}
      invariant left <= ix.threads.Keys
      invariant Placed(ix, ix.threads.Keys - left, roots, children, orphans)
      decreases left
    {
      var id :| id in left;
      assert ix.threads.Keys - (left - {id}) == (ix.threads.Keys - left) + {id};
      ghost var done := ix.threads.Keys - left;
      left := left - {id};
      var parent := ParentNamed(ix, id);
      Placement(ix, id);
      if parent != "" && parent != id && parent in ix.threads {
        PlaceChild(ix, done, roots, children, orphans, id);
        var siblings := if parent in children then children[parent] else [];
        children := children[parent := siblings + [id]];
      } else {
        PlaceRoot(ix, done, roots, children, orphans, id);
        if parent != "" && parent != id {
          orphans := orphans + {id};
        }
        roots := roots + [id];
      }
    }
    assert ix.threads.Keys - {} == ix.threads.Keys;
    AllPlaced(ix, roots, children, orphans);
    var rankedRoots := SortThreads(ix, roots);
    var rankedChildren := SortAll(ix, children);
    f := Forest(rankedRoots, rankedChildren, orphans);
    PlacedIsForest(ix, roots, children, f);
  }

  lemma NothingPlaced(ix: Index)
    ensures Placed(ix, {}, [], map[], {})
  {}

  lemma AllPlaced(ix: Index, roots: seq<string>, children: map<string, seq<string>>, orphans: set<string>)
    requires Placed(ix, ix.threads.Keys, roots, children, orphans)
    ensures Distinct(roots) && forall i | 0 <= i < |roots| :: roots[i] in ix.threads
    ensures forall p | p in children :: Distinct(children[p]) && forall i | 0 <= i < |children[p]| :: children[p][i] in ix.threads
  {
    hide Hangs, ParentOf, Orphaned;
    forall p, i | p in children && 0 <= i < |children[p]|
      ensures children[p][i] in ix.threads
    {
      assert children[p][i] in children[p];
    }
    forall i | 0 <= i < |roots|
      ensures roots[i] in ix.threads
    {
      assert roots[i] in roots;
    }
  }

  lemma PlacedIsForest(ix: Index, roots: seq<string>, children: map<string, seq<string>>, f: Forest)
    requires Placed(ix, ix.threads.Keys, roots, children, f.orphans)
    requires Ranked(ix, f.roots) && forall id :: id in f.roots <==> id in roots
    requires f.children.Keys == children.Keys
    requires forall p | p in children :: Ranked(ix, f.children[p]) && forall id :: id in f.children[p] <==> id in children[p]
    ensures IsForest(ix, f)
  {
    hide Above, Distinct, Named, Hangs, ParentOf;
    assert Ranked(ix, []);
    hide Ranked;
    forall p
      ensures Ranked(ix, Below(f, p))
      ensures forall id :: id in Below(f, p) <==> Hangs(ix, id) && ParentOf(ix, id) == p
    {
      BelowIs(ix, roots, children, f, p);
    }
  }

  lemma BelowIs(ix: Index, roots: seq<string>, children: map<string, seq<string>>, f: Forest, p: string)
    requires Placed(ix, ix.threads.Keys, roots, children, f.orphans) && f.children.Keys == children.Keys
    requires p in children ==> Ranked(ix, f.children[p]) && forall id :: id in f.children[p] <==> id in children[p]
    ensures Ranked(ix, Below(f, p))
    ensures forall id :: id in Below(f, p) <==> Hangs(ix, id) && ParentOf(ix, id) == p
  {
    hide Above, Distinct, Named, Hangs, ParentOf;
    forall id
      ensures id in Below(f, p) <==> Hangs(ix, id) && ParentOf(ix, id) == p
    {
      assert id in Below(f, p) <==> id in (if p in children then children[p] else []);
      assert Hangs(ix, id) ==> id in ix.threads by {
        HangsIsThread(ix, id);
      }
    }
  }

  lemma HangsIsThread(ix: Index, id: string)
    ensures Hangs(ix, id) ==> id in ix.threads
  {}

  method SortAll(ix: Index, lists: map<string, seq<string>>) returns (sorted: map<string, seq<string>>)
    requires forall p | p in lists :: Distinct(lists[p]) && forall i | 0 <= i < |lists[p]| :: lists[p][i] in ix.threads
    ensures sorted.Keys == lists.Keys
    ensures forall p | p in lists :: Ranked(ix, sorted[p]) && forall id :: id in sorted[p] <==> id in lists[p]
  {
    hide Above, Less;
    sorted := map[];
    var left := lists.Keys;
    while left != {}
      invariant left <= lists.Keys && sorted.Keys == lists.Keys - left
      invariant forall p | p in sorted :: Ranked(ix, sorted[p]) && forall id :: id in sorted[p] <==> id in lists[p]
      decreases left
    {
      var p :| p in left;
      left := left - {p};
      var ids := SortThreads(ix, lists[p]);
      sorted := sorted[p := ids];
    }
  }

  // ---- Who can be seen ----------------------------------------------------------------

  /** A way down from a root, ending at its last thread. */
  ghost predicate Path(f: Forest, path: seq<string>) {
    && path != []
    && path[0] in f.roots
    && forall i | 0 < i < |path| :: path[i] in Below(f, path[i - 1])
  }

  ghost predicate Shown(f: Forest, id: string) {
    exists path: seq<string> | Path(f, path) :: path[|path| - 1] == id
  }

  /** No threads hang under each other in a ring. */
  ghost predicate Acyclic(ix: Index) {
    forall ring: set<string> | ring != {} && ring <= ix.threads.Keys ::
      exists id | id in ring :: !(Hangs(ix, id) && ParentOf(ix, id) in ring)
  }

  lemma OneParent(ix: Index, f: Forest, p: string, q: string, id: string)
    requires IsForest(ix, f) && id in Below(f, p)
    ensures id !in f.roots && (id in Below(f, q) ==> p == q)
  {
    hide Ranked;
    assert Hangs(ix, id) && ParentOf(ix, id) == p;
    if id in Below(f, q) {
      assert ParentOf(ix, id) == q;
    }
  }

  /** There is never more than one way to a thread. */
  lemma {:induction false} PathIsUnique(ix: Index, f: Forest, a: seq<string>, b: seq<string>)
    requires IsForest(ix, f) && Path(f, a) && Path(f, b) && a[|a| - 1] == b[|b| - 1]
    ensures a == b
    decreases |a|
  {
    hide IsForest;
    var id := a[|a| - 1];
    if |a| > 1 {
      OneParent(ix, f, a[|a| - 2], if |b| > 1 then b[|b| - 2] else "", id);
    }
    if |b| > 1 {
      OneParent(ix, f, b[|b| - 2], if |a| > 1 then a[|a| - 2] else "", id);
    }
    if |a| == 1 || |b| == 1 {
      assert a == [id] && b == [id];
    } else {
      PathIsUnique(ix, f, a[..|a| - 1], b[..|b| - 1]);
      assert a == a[..|a| - 1] + [id] && b == b[..|b| - 1] + [id];
    }
  }

  lemma ShownBelow(f: Forest, p: string, id: string)
    requires Shown(f, p) && id in Below(f, p)
    ensures Shown(f, id)
  {
    var path: seq<string> :| Path(f, path) && path[|path| - 1] == p;
    var longer := path + [id];
    assert Path(f, longer);
  }

  lemma ShownRoot(f: Forest, id: string)
    requires id in f.roots
    ensures Shown(f, id)
  {
    assert Path(f, [id]) && [id][|[id]| - 1] == id;
  }

  /** Walking up a shown thread leaves any set it started in. */
  lemma {:induction false} PathLeaves(ix: Index, f: Forest, path: seq<string>, ring: set<string>)
    requires IsForest(ix, f) && Path(f, path) && path[|path| - 1] in ring
    ensures exists id | id in ring :: !(Hangs(ix, id) && ParentOf(ix, id) in ring)
    decreases |path|
  {
    hide Ranked;
    var id := path[|path| - 1];
    if |path| > 1 {
      var p := path[|path| - 2];
      assert id in Below(f, p);
      if p in ring {
        PathLeaves(ix, f, path[..|path| - 1], ring);
      }
    }
  }

  /**
   Every kept thread is shown, by exactly one way down from a root, exactly when no parent
   links form a ring.  (Only a thread naming itself is treated as a root.)
   */
  lemma AllShownExactlyWhenAcyclic(ix: Index, f: Forest)
    requires IsForest(ix, f)
    ensures (forall id | id in ix.threads :: Shown(f, id)) <==> Acyclic(ix)
  {
    hide IsForest, Shown, Acyclic;
    if forall id | id in ix.threads :: Shown(f, id) {
      ShownHasNoRing(ix, f);
    }
    if Acyclic(ix) {
      NoRingIsShown(ix, f);
    }
  }

  lemma ShownHasNoRing(ix: Index, f: Forest)
    requires IsForest(ix, f) && forall id | id in ix.threads :: Shown(f, id)
    ensures Acyclic(ix)
  {
    hide IsForest, Shown, Hangs;
    forall ring: set<string> | ring != {} && ring <= ix.threads.Keys
      ensures exists id | id in ring :: !(Hangs(ix, id) && ParentOf(ix, id) in ring)
    {
      var id :| id in ring;
      ShownPath(f, id);
      var path: seq<string> :| Path(f, path) && path[|path| - 1] == id;
      PathLeaves(ix, f, path, ring);
    }
  }

  lemma NoRingIsShown(ix: Index, f: Forest)
    requires IsForest(ix, f) && Acyclic(ix)
    ensures forall id | id in ix.threads :: Shown(f, id)
  {
    hide Ranked, Shown;
    var hidden := set id | id in ix.threads && !Shown(f, id);
    assert hidden <= ix.threads.Keys;
    if hidden != {} {
      var id: string :| id in hidden && !(Hangs(ix, id) && ParentOf(ix, id) in hidden);
      if Hangs(ix, id) {
        assert ParentOf(ix, id) !in hidden;
        ShownBelow(f, ParentOf(ix, id), id);
      } else {
        ShownRoot(f, id);
      }
    }
    forall id | id in ix.threads
      ensures Shown(f, id)
    {
      assert id !in hidden;
    }
  }

  lemma ShownPath(f: Forest, id: string)
    requires Shown(f, id)
    ensures exists path: seq<string> | Path(f, path) :: path[|path| - 1] == id
  {}

  lemma NoRootsNoneShown(f: Forest)
    requires f.roots == []
    ensures forall id :: !Shown(f, id)
  {}

  /** The index of two turns of threads that name each other. */
  lemma {:induction false} TwoTurns(x: Turn, y: Turn, never: Time)
    requires ThreadKey(x) != "" && ThreadKey(y) != "" && ThreadKey(x) != ThreadKey(y)
    requires x.parentThread == ThreadKey(y) && y.parentThread == ThreadKey(x)
    ensures var ix := Indexed([x, y], never);
            && ix.threads.Keys == {ThreadKey(x), ThreadKey(y)}
            && ix.threads[ThreadKey(x)].parentThread == ThreadKey(y)
            && ix.threads[ThreadKey(y)].parentThread == ThreadKey(x)
  {
    hide ThreadKey;
    assert [x, y][..1] == [x] && [x][..0] == [];
    assert Indexed([], never) == Index(map[], map[]);
    assert Indexed([x], never).threads == map[ThreadKey(x) := Observe(Thread("", "", never), x)];
  }

  /**
   After one turn each of two threads that name each other, the first of them still open, both
   are retained and neither can be seen.
   */
  lemma {:induction false} TwoCycleVanishes(x: Turn, y: Turn, never: Time, running: seq<string>, cutoff: Time,
                                            keep: set<string>, f: Forest)
    requires ThreadKey(x) != "" && ThreadKey(y) != "" && ThreadKey(x) != ThreadKey(y)
    requires x.parentThread == ThreadKey(y) && y.parentThread == ThreadKey(x)
    requires ThreadKey(x) in running && IsKept(Indexed([x, y], never), running, cutoff, keep)
    requires IsForest(Restrict(Indexed([x, y], never), keep), f)
    ensures keep == {ThreadKey(x), ThreadKey(y)}
    ensures f.roots == [] && !Shown(f, ThreadKey(x)) && !Shown(f, ThreadKey(y))
  {
    hide Ranked, Shown, ThreadKey, Indexed;
    TwoTurns(x, y, never);
    var full := Indexed([x, y], never);
    var ix := Restrict(full, keep);
    assert Recent(full, running, cutoff, ThreadKey(x));
    assert ThreadKey(y) in Links(full, ThreadKey(x));
    assert Hangs(ix, ThreadKey(x)) && Hangs(ix, ThreadKey(y));
    FirstIsMember(f.roots);
    NoRootsNoneShown(f);
  }
}
