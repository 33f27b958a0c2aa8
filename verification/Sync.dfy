/** Planning which remote captures to fetch, and under which name: cmd/clbsync/main.go. */
module Sync {
  import opened Wrappers

  /** A remote or local capture.  All local ones lie in one directory, so a name is a path. */
  datatype File = File(name: string, size: int, fp: string)

  datatype Kind = New | Grown | Replaced | Current

  datatype Action = Action(remote: File, kind: Kind, target: string, from: int)

  const EXT: string := ".jsonl.gz"

  // ---- Generation names -----------------------------------------------------------------

  function Itoa(n: nat): string {
    if n < 10 then [Digit(n)] else Itoa(n / 10) + [Digit(n % 10)]
  }

  function Digit(d: nat): (c: char)
    requires d < 10
    ensures '0' <= c <= '9' && c as int - '0' as int == d
  {
    ('0' as int + d) as char
  }

  function Atoi(s: string): int {
    if s == "" then 0 else 10 * Atoi(s[..|s| - 1]) + (s[|s| - 1] as int - '0' as int)
  }

  lemma {:induction false} ItoaBack(n: nat)
    ensures Atoi(Itoa(n)) == n
  {
    if n < 10 {
      assert Itoa(n)[..0] == "";
    } else {
      ItoaBack(n / 10);
      assert Itoa(n)[..|Itoa(n)| - 1] == Itoa(n / 10);
    }
  }

  function TrimSuffix(text: string, suffix: string): string {
    if |suffix| <= |text| && text[|text| - |suffix|..] == suffix then text[..|text| - |suffix|] else text
  }

  function Candidate(name: string, gen: nat): string {
    TrimSuffix(name, EXT) + ".gen" + Itoa(gen) + EXT
  }

  lemma CandidatesDiffer(name: string, m: nat, n: nat)
    requires Candidate(name, m) == Candidate(name, n)
    ensures m == n
  {
    var base := TrimSuffix(name, EXT) + ".gen";
    var a, b := Candidate(name, m), Candidate(name, n);
    assert a[|base|..|a| - |EXT|] == Itoa(m) && b[|base|..|b| - |EXT|] == Itoa(n);
    ItoaBack(m);
    ItoaBack(n);
  }

  /** The first free generation. */
  ghost predicate IsNextGeneration(name: string, taken: set<string>, target: string) {
    exists gen: nat | gen >= 2 && target == Candidate(name, gen) ::
      target !in taken && forall m: nat | 2 <= m < gen :: Candidate(name, m) in taken
  }

  /** Names a recreated capture; only finitely many names are taken, so the search ends. */
  method NextGeneration(name: string, taken: set<string>) returns (target: string)
    ensures IsNextGeneration(name, taken, target)
  {
    hide Candidate;
    var gen: nat := 2;
    ghost var tried: set<string> := {};
    while Candidate(name, gen) in taken
      invariant gen >= 2 && tried <= taken
      invariant forall m: nat | 2 <= m < gen :: Candidate(name, m) in taken
      invariant forall c | c in tried :: exists m: nat | 2 <= m < gen :: c == Candidate(name, m)
      decreases taken - tried
    {
      assert Candidate(name, gen) !in tried by {
        if Candidate(name, gen) in tried {
          var m: nat :| 2 <= m < gen && Candidate(name, gen) == Candidate(name, m);
          CandidatesDiffer(name, gen, m);
        }
      }
      tried := tried + {Candidate(name, gen)};
      gen := gen + 1;
    }
    target := Candidate(name, gen);
  }

  lemma NextGenerationIsUnique(name: string, taken: set<string>, a: string, b: string)
    requires IsNextGeneration(name, taken, a) && IsNextGeneration(name, taken, b)
    ensures a == b
  {}

  // ---- The plan -------------------------------------------------------------------------

  /** The local capture with a fingerprint; of several, the last listed. */
  function LastWith(local: seq<File>, fp: string): Option<File> {
    if local == [] then None
    else if local[|local| - 1].fp == fp then Some(local[|local| - 1])
    else LastWith(local[..|local| - 1], fp)
  }

  /** Names that are in use once some actions are decided: local ones and new generations. */
  function Taken(local: seq<File>, before: seq<Action>): set<string> {
    (set l | l in local :: l.name) + (set a | a in before && a.kind == Replaced :: a.target)
  }

  ghost predicate Decides(local: seq<File>, taken: set<string>, r: File, a: Action) {
    a.remote == r &&
    match LastWith(local, r.fp)
    case Some(l) => a.kind == (if r.size > l.size then Grown else Current) && a.target == l.name && a.from == l.size
    case None =>
      a.from == 0
      && if r.name in taken then a.kind == Replaced && IsNextGeneration(r.name, taken, a.target)
         else a.kind == New && a.target == r.name
  }

  ghost predicate IsPlan(remote: seq<File>, local: seq<File>, actions: seq<Action>) {
    |actions| == |remote|
    && forall i | 0 <= i < |remote| :: Decides(local, Taken(local, actions[..i]), remote[i], actions[i])
  }

  /** Decides what to do about each remote file. */
  method Plan(remote: seq<File>, local: seq<File>) returns (out: seq<Action>)
    ensures IsPlan(remote, local, out)
  {
    hide IsNextGeneration;
    var byFP: map<string, File> := map[];
    var taken: set<string> := {};
    for i := 0 to |local|
      invariant forall fp :: LastWith(local[..i], fp) == if fp in byFP then Some(byFP[fp]) else None
      invariant taken == set l | l in local[..i] :: l.name
    {
      assert local[..i + 1][..i] == local[..i];
      assert local[..i + 1] == local[..i] + [local[i]];
      byFP := byFP[local[i].fp := local[i]];
      taken := taken + {local[i].name};
    }
    assert local[..|local|] == local;
    out := [];
    assert taken == Taken(local, out);
    for i := 0 to |remote|
      invariant IsPlan(remote[..i], local, out) && taken == Taken(local, out)
    {
      var r := remote[i];
      var a: Action;
      ghost var before := taken;
      if r.fp in byFP {
        var l := byFP[r.fp];
        a := Action(r, if r.size > l.size then Grown else Current, l.name, l.size);
      } else if r.name in taken {
        var target := NextGeneration(r.name, taken);
        taken := taken + {target};
        a := Action(r, Replaced, target, 0);
      } else {
        a := Action(r, New, r.name, 0);
      }
      assert Decides(local, before, r, a);
      PlanGrows(remote[..i], local, out, r, a);
      TakenGrows(local, out, a);
      assert remote[..i + 1] == remote[..i] + [r];
      out := out + [a];
    }
    assert remote[..|remote|] == remote;
  }

  lemma PlanGrows(remote: seq<File>, local: seq<File>, actions: seq<Action>, r: File, a: Action)
    requires IsPlan(remote, local, actions) && Decides(local, Taken(local, actions), r, a)
    ensures IsPlan(remote + [r], local, actions + [a])
  {
    hide Decides, Taken;
    forall i | 0 <= i < |remote| + 1
      ensures Decides(local, Taken(local, (actions + [a])[..i]), (remote + [r])[i], (actions + [a])[i])
    {
      assert (actions + [a])[..i] == actions[..i];
      assert actions[..|actions|] == actions;
    }
  }

  lemma TakenGrows(local: seq<File>, actions: seq<Action>, a: Action)
    ensures Taken(local, actions + [a]) == Taken(local, actions) + if a.kind == Replaced then {a.target} else {}
  {}

  /** The plan depends on nothing but the two listings. */
  lemma {:induction false} PlanIsUnique(remote: seq<File>, local: seq<File>, a: seq<Action>, b: seq<Action>)
    requires IsPlan(remote, local, a) && IsPlan(remote, local, b)
    ensures a == b
  {
    hide IsNextGeneration, Taken;
    if remote != [] {
      var n := |remote| - 1;
      PlanShrinks(remote, local, a);
      PlanShrinks(remote, local, b);
      PlanIsUnique(remote[..n], local, a[..n], b[..n]);
      assert Decides(local, Taken(local, a[..n]), remote[n], a[n]) && Decides(local, Taken(local, b[..n]), remote[n], b[n]);
      if a[n].kind == Replaced {
        NextGenerationIsUnique(remote[n].name, Taken(local, a[..n]), a[n].target, b[n].target);
      }
      assert a == a[..n] + [a[n]] && b == b[..n] + [b[n]];
    }
  }

  lemma PlanShrinks(remote: seq<File>, local: seq<File>, actions: seq<Action>)
    requires IsPlan(remote, local, actions) && remote != []
    ensures IsPlan(remote[..|remote| - 1], local, actions[..|remote| - 1])
  {
    hide Decides, Taken;
    var n := |remote| - 1;
    forall i | 0 <= i < n
      ensures Decides(local, Taken(local, actions[..n][..i]), remote[..n][i], actions[..n][i])
    {
      assert actions[..n][..i] == actions[..i];
    }
  }

  // ---- What a plan never does -----------------------------------------------------------

  ghost predicate DistinctNames(files: seq<File>) {
    forall i, j | 0 <= i < j < |files| :: files[i].name != files[j].name
  }

  ghost predicate DistinctCaptures(files: seq<File>) {
    forall i, j | 0 <= i < j < |files| :: files[i].fp != files[j].fp
  }

  ghost predicate IsGenerationName(name: string) {
    exists base: string, gen: nat :: gen >= 2 && name == Candidate(base, gen)
  }

  lemma {:induction false} LastWithIsListed(local: seq<File>, fp: string)
    ensures LastWith(local, fp).Some? ==> LastWith(local, fp).value in local && LastWith(local, fp).value.fp == fp
    ensures LastWith(local, fp) == None <==> forall l | l in local :: l.fp != fp
  {
    if local != [] {
      LastWithIsListed(local[..|local| - 1], fp);
      assert local == local[..|local| - 1] + [local[|local| - 1]];
    }
  }

  /** What each kind of action may write to. */
  lemma TargetOf(remote: seq<File>, local: seq<File>, actions: seq<Action>, i: nat)
    requires IsPlan(remote, local, actions) && i < |actions|
    ensures actions[i].remote == remote[i]
    ensures actions[i].kind in {Grown, Current} ==>
              exists l | l in local :: l.name == actions[i].target && l.fp == remote[i].fp
    ensures actions[i].kind in {New, Replaced} ==> forall l | l in local :: l.name != actions[i].target && l.fp != remote[i].fp
    ensures actions[i].kind == New ==> actions[i].target == remote[i].name
    ensures actions[i].kind == Replaced ==>
              IsGenerationName(actions[i].target)
              && forall k | 0 <= k < i && actions[k].kind == Replaced :: actions[k].target != actions[i].target
  {
    hide Candidate;
    assert Decides(local, Taken(local, actions[..i]), remote[i], actions[i]);
    LastWithIsListed(local, remote[i].fp);
    forall k | 0 <= k < i && actions[k].kind == Replaced
      ensures actions[k].target in Taken(local, actions[..i])
    {
      assert actions[k] == actions[..i][k];
    }
    forall l | l in local
      ensures l.name in Taken(local, actions[..i])
    {}
  }

  lemma {:induction false} LastIsLast(local: seq<File>, fp: string, k: nat)
    requires k < |local| && local[k].fp == fp && forall m | k < m < |local| :: local[m].fp != fp
    ensures LastWith(local, fp) == Some(local[k])
  {
    if k < |local| - 1 {
      LastIsLast(local[..|local| - 1], fp, k);
    }
  }

  /**
   Of a capture that is here, only what is missing at its end is fetched, and nothing when nothing
   is; of several local files with it, the last listed counts.
   */
  lemma {:induction false} KnownCapture(remote: seq<File>, local: seq<File>, actions: seq<Action>, i: nat, k: nat)
    requires IsPlan(remote, local, actions) && i < |remote| && k < |local| && local[k].fp == remote[i].fp
    requires forall m | k < m < |local| :: local[m].fp != remote[i].fp
    ensures |actions| == |remote|
    ensures var kind := if remote[i].size <= local[k].size then Current else Grown;
            actions[i] == Action(remote[i], kind, local[k].name, local[k].size)
  {
    SameLength(remote, local, actions);
    assert Decides(local, Taken(local, actions[..i]), remote[i], actions[i]);
    LastIsLast(local, remote[i].fp, k);
  }

  /** Any other capture is fetched whole, under its own name if that is free. */
  lemma {:induction false} UnknownCapture(remote: seq<File>, local: seq<File>, actions: seq<Action>, i: nat)
    requires IsPlan(remote, local, actions) && i < |remote| && forall l | l in local :: l.fp != remote[i].fp
    ensures |actions| == |remote|
    ensures actions[i].remote == remote[i] && actions[i].from == 0 && actions[i].kind in {New, Replaced}
    ensures actions[i].kind == New <==> actions[i].target == remote[i].name
    ensures actions[i].kind == New <==>
              (forall l | l in local :: l.name != remote[i].name)
              && forall k | 0 <= k < i && actions[k].kind == Replaced :: actions[k].target != remote[i].name
  {
    hide Candidate;
    SameLength(remote, local, actions);
    assert Decides(local, Taken(local, actions[..i]), remote[i], actions[i]);
    LastWithIsListed(local, remote[i].fp);
    TakenIs(local, actions, i, remote[i].name);
  }

  lemma TakenIs(local: seq<File>, actions: seq<Action>, i: nat, name: string)
    requires i <= |actions|
    ensures name in Taken(local, actions[..i]) <==>
              (exists l :: l in local && l.name == name) || exists k :: 0 <= k < i && actions[k].kind == Replaced && actions[k].target == name
  {
    forall k | 0 <= k < i
      ensures actions[k] in actions[..i]
    {
      assert actions[..i][k] == actions[k];
    }
  }

  /** A fetch overwrites a local capture only with more of the same capture. */
  lemma NothingIsOverwritten(remote: seq<File>, local: seq<File>, actions: seq<Action>, i: nat, l: File)
    requires IsPlan(remote, local, actions) && DistinctNames(local)
    requires i < |actions| && actions[i].kind != Current && l in local && l.name == actions[i].target
    ensures actions[i].kind == Grown && l.fp == remote[i].fp && remote[i].size > l.size
  {
    TargetOf(remote, local, actions, i);
    assert Decides(local, Taken(local, actions[..i]), remote[i], actions[i]);
    LastWithIsListed(local, remote[i].fp);
  }

  /** The name of a new remote file is the first free generation of one that is fetched anew after it. */
  ghost predicate PlannedOver(local: seq<File>, actions: seq<Action>, i: nat, j: nat)
    requires i < j < |actions|
  {
    && actions[i].kind == New && actions[j].kind == Replaced
    && IsNextGeneration(actions[j].remote.name, Taken(local, actions[..j]), actions[i].remote.name)
  }

  /** Two fetches of a plan write to the same file if and only if the earlier is planned over by the later. */
  lemma TargetsCoincideExactlyWhen(remote: seq<File>, local: seq<File>, actions: seq<Action>, i: nat, j: nat)
    requires IsPlan(remote, local, actions)
    requires DistinctNames(local) && DistinctNames(remote) && DistinctCaptures(remote)
    requires i < j < |actions| && actions[i].kind != Current && actions[j].kind != Current
    ensures actions[i].target == actions[j].target <==> PlannedOver(local, actions, i, j)
  {
    SameLength(remote, local, actions);
    assert Decides(local, Taken(local, actions[..j]), remote[j], actions[j]);
    if actions[i].kind == Replaced {
      ReplacedBefore(local, actions, i, j);
    }
    TargetOf(remote, local, actions, i);
    TargetOf(remote, local, actions, j);
    if actions[j].kind == Replaced && PlannedOver(local, actions, i, j) {
      NextGenerationIsUnique(remote[j].name, Taken(local, actions[..j]), actions[i].target, actions[j].target);
    }
  }

  lemma ReplacedBefore(local: seq<File>, actions: seq<Action>, i: nat, j: nat)
    requires i < j <= |actions| && actions[i].kind == Replaced
    ensures actions[i].target in Taken(local, actions[..j])
  {
    assert actions[i] == actions[..j][i];
  }

  /** No two fetches of a plan write to the same file. */
  lemma TargetsAreDistinct(remote: seq<File>, local: seq<File>, actions: seq<Action>, i: nat, j: nat)
    requires IsPlan(remote, local, actions)
    requires DistinctNames(local) && DistinctNames(remote) && DistinctCaptures(remote)
    requires forall r | r in remote :: !IsGenerationName(r.name)
    requires i < j < |actions| && actions[i].kind != Current && actions[j].kind != Current
    ensures actions[i].target != actions[j].target
  {
    hide IsPlan, Decides, Candidate;
    SameLength(remote, local, actions);
    TargetOf(remote, local, actions, i);
    TargetsCoincideExactlyWhen(remote, local, actions, i, j);
    assert remote[i] in remote;
  }

  lemma SameLength(remote: seq<File>, local: seq<File>, actions: seq<Action>)
    requires IsPlan(remote, local, actions)
    ensures |actions| == |remote|
  {}

  /** A remote file already named as a generation can be planned over by the next generation of another. */
  lemma GenerationNamesCollide(actions: seq<Action>)
    requires IsPlan([File("a.gen2.jsonl.gz", 1, "x"), File("a.jsonl.gz", 1, "y")], [File("a.jsonl.gz", 1, "z")], actions)
    ensures actions[0].kind == New && actions[1].kind == Replaced && actions[0].target == actions[1].target
  {
    var remote, local := [File("a.gen2.jsonl.gz", 1, "x"), File("a.jsonl.gz", 1, "y")], [File("a.jsonl.gz", 1, "z")];
    LastWithIsListed(local, "x");
    LastWithIsListed(local, "y");
    hide Candidate, LastWith;
    var first, second := Taken(local, actions[..0]), Taken(local, actions[..1]);
    assert first == {"a.jsonl.gz"};
    assert actions[..1] == [actions[0]];
    assert Decides(local, first, remote[0], actions[0]) && Decides(local, second, remote[1], actions[1]);
    assert "a.gen2.jsonl.gz" != "a.jsonl.gz" by {
      assert |"a.gen2.jsonl.gz"| != |"a.jsonl.gz"|;
    }
    assert actions[0].kind == New;
    assert second == {"a.jsonl.gz"};
    SecondGeneration();
  }

  lemma SecondGeneration()
    ensures Candidate("a.jsonl.gz", 2) == "a.gen2.jsonl.gz"
  {
    assert "a.jsonl.gz"[1..] == EXT && TrimSuffix("a.jsonl.gz", EXT) == "a";
    assert Itoa(2) == "2";
  }
}
