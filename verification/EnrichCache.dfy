/** What the enrichment cache holds after any run of stores and lookups: internal/enrich/enrich.go. */
module EnrichCache {
  import opened Recency
  import opened Wrappers

  /** A request-log row; the columns that are only copied onto a turn are one value. */
  datatype Row = Row(id: int, requestId: string, archiveRequestId: string, columns: string)

  /** Rows and aliases by response id, response ids by alias, and response ids by recency. */
  datatype Cache = Cache(
    rows: map<string, Row>, aliases: map<string, string>, byArchive: map<string, string>, lru: seq<string>)

  const EMPTY := Cache(map[], map[], map[], [])

  // ---- One step -------------------------------------------------------------------------

  /** A move to the front. */
  function Touch(lru: seq<string>, id: string): seq<string> {
    [id] + Without(lru, id)
  }

  function Point(byArchive: map<string, string>, alias: string, id: string): map<string, string> {
    if alias != "" then byArchive[alias := id] else byArchive
  }

  /** A row replacing the one stored for the same id. */
  function Replace(c: Cache, row: Row, withAlias: bool): Cache
    requires row.requestId in c.aliases
  {
    var id := row.requestId;
    var was := c.aliases[id];
    var alias := if withAlias then row.archiveRequestId else was;
    var kept := if withAlias && was != row.archiveRequestId && was != "" then c.byArchive - {was} else c.byArchive;
    Cache(c.rows[id := row], c.aliases[id := alias], Point(kept, alias, id), Touch(c.lru, id))
  }

  /** A row for a new id, before anything is evicted. */
  function Insert(c: Cache, row: Row, withAlias: bool): Cache {
    var id := row.requestId;
    var alias := if withAlias then row.archiveRequestId else "";
    Cache(c.rows[id := row], c.aliases[id := alias], Point(c.byArchive, alias, id), [id] + c.lru)
  }

  function Evict(c: Cache): Cache
    requires c.lru != []
  {
    var oldest := c.lru[|c.lru| - 1];
    var alias := if oldest in c.aliases then c.aliases[oldest] else "";
    Cache(c.rows - {oldest}, c.aliases - {oldest}, if alias != "" then c.byArchive - {alias} else c.byArchive,
          c.lru[..|c.lru| - 1])
  }

  function Store(c: Cache, cap: nat, row: Row, withAlias: bool): Cache {
    if row.requestId == "" then c
    else if row.requestId in c.rows && row.requestId in c.aliases then Replace(c, row, withAlias)
    else
      var more := Insert(c, row, withAlias);
      if |more.lru| > cap then Evict(more) else more
  }

  /** The response id that answers a lookup: by response id first, then by alias. */
  function Hit(c: Cache, responseId: string, requestId: string): Option<string> {
    if responseId != "" && responseId in c.rows then Some(responseId)
    else if requestId != "" && requestId in c.byArchive then Some(c.byArchive[requestId])
    else None
  }

  function Lookup(c: Cache, responseId: string, requestId: string): Cache {
    var hit := Hit(c, responseId, requestId);
    if hit.Some? then c.(lru := Touch(c.lru, hit.value)) else c
  }

  // ---- What every step keeps ------------------------------------------------------------

  /** The list holds each resident id once, within the cap, and aliases point to residents that carry them. */
  ghost predicate Sound(c: Cache, cap: nat) {
    && Distinct(c.lru) && |c.lru| <= cap
    && (forall id :: id in c.rows <==> id in c.lru)
    && c.aliases.Keys == c.rows.Keys && "" !in c.rows
    && (forall id | id in c.rows :: c.rows[id].requestId == id)
    && Pointed(c.aliases, c.byArchive)
  }

  /** Every alias leads to a resident that carries it. */
  ghost predicate Pointed(aliases: map<string, string>, byArchive: map<string, string>) {
    forall x | x in byArchive :: x != "" && byArchive[x] in aliases && aliases[byArchive[x]] == x
  }

  lemma TouchKeeps(lru: seq<string>, id: string)
    requires Distinct(lru) && id in lru
    ensures Distinct(Touch(lru, id)) && |Touch(lru, id)| == |lru|
    ensures forall x :: x in Touch(lru, id) <==> x in lru
  {
    WithoutDistinct(lru, id);
    WithoutMembers(lru, id);
  }

  lemma LookupKeeps(c: Cache, cap: nat, responseId: string, requestId: string)
    requires Sound(c, cap)
    ensures Sound(Lookup(c, responseId, requestId), cap)
  {
    hide Distinct, Touch;
    var hit := Hit(c, responseId, requestId);
    if hit.Some? {
      TouchKeeps(c.lru, hit.value);
    }
  }

  lemma ReplaceKeeps(c: Cache, cap: nat, row: Row, withAlias: bool)
    requires Sound(c, cap) && row.requestId in c.rows
    ensures Sound(Replace(c, row, withAlias), cap)
  {
    hide Distinct, Touch;
    TouchKeeps(c.lru, row.requestId);
  }

  lemma InsertKeeps(c: Cache, cap: nat, row: Row, withAlias: bool)
    requires Sound(c, cap) && row.requestId !in c.rows && row.requestId != ""
    ensures Sound(Insert(c, row, withAlias), cap + 1)
  {}

  lemma EvictKeeps(c: Cache, cap: nat)
    requires Sound(c, cap) && c.lru != []
    ensures Sound(Evict(c), |c.lru| - 1)
  {
    var front, oldest := c.lru[..|c.lru| - 1], c.lru[|c.lru| - 1];
    assert c.lru == front + [oldest] && oldest !in front && Distinct(front);
    assert oldest in c.rows;
    EvictKeepsPointed(c.aliases, c.byArchive, oldest);
    hide Pointed, Distinct;
  }

  lemma EvictKeepsPointed(aliases: map<string, string>, byArchive: map<string, string>, oldest: string)
    requires Pointed(aliases, byArchive) && oldest in aliases
    ensures Pointed(aliases - {oldest},
                    if aliases[oldest] != "" then byArchive - {aliases[oldest]} else byArchive)
  {}

  /** A new row keeps the cache sound once the oldest has made room. */
  lemma InsertWithinKeeps(c: Cache, cap: nat, row: Row, withAlias: bool)
    requires Sound(c, cap) && row.requestId !in c.rows && row.requestId != ""
    ensures var more := Insert(c, row, withAlias);
            Sound(if |more.lru| > cap then Evict(more) else more, cap)
  {
    SizeAgrees(c, cap, row.requestId);
    InsertSize(c, row, withAlias);
    InsertKeeps(c, cap, row, withAlias);
    hide Sound, Insert, Evict;
    var more := Insert(c, row, withAlias);
    if |more.lru| > cap {
      EvictKeeps(more, cap + 1);
    } else {
      SoundWithin(more, cap + 1, cap);
    }
  }

  lemma StoreKeeps(c: Cache, cap: nat, row: Row, withAlias: bool)
    requires Sound(c, cap) && cap >= 1
    ensures Sound(Store(c, cap, row, withAlias), cap)
  {
    SizeAgrees(c, cap, row.requestId);
    hide Sound, Replace, Insert, Evict;
    if row.requestId == "" {
    } else if row.requestId in c.rows {
      ReplaceKeeps(c, cap, row, withAlias);
    } else {
      InsertWithinKeeps(c, cap, row, withAlias);
    }
  }

  lemma SizeAgrees(c: Cache, cap: nat, id: string)
    requires Sound(c, cap)
    ensures |c.lru| <= cap && (id in c.rows <==> id in c.aliases)
  {
    hide Distinct, Pointed;
  }

  lemma InsertSize(c: Cache, row: Row, withAlias: bool)
    ensures |Insert(c, row, withAlias).lru| == |c.lru| + 1
  {}

  lemma SoundWithin(c: Cache, cap: nat, less: nat)
    requires Sound(c, cap) && |c.lru| <= less
    ensures Sound(c, less)
  {}

  /** What was just stored is in front and is never what gets evicted. */
  lemma StoredIsInFront(c: Cache, cap: nat, row: Row, withAlias: bool)
    requires Sound(c, cap) && cap >= 1 && row.requestId != ""
    ensures var d := Store(c, cap, row, withAlias);
            row.requestId in d.rows && d.rows[row.requestId] == row && d.lru != [] && d.lru[0] == row.requestId
  {
    hide Distinct, Pointed, Without;
    if row.requestId !in c.rows && |c.lru| == cap {
      assert c.lru[|c.lru| - 1] in c.rows;
    }
  }

  // ---- Runs -----------------------------------------------------------------------------

  datatype Op = StoreOp(row: Row, withAlias: bool) | LookupOp(responseId: string, requestId: string)

  function Step(c: Cache, cap: nat, op: Op): Cache {
    match op
    case StoreOp(row, withAlias) => Store(c, cap, row, withAlias)
    case LookupOp(responseId, requestId) => Lookup(c, responseId, requestId)
  }

  function Run(ops: seq<Op>, cap: nat): Cache {
    if ops == [] then EMPTY else Step(Run(ops[..|ops| - 1], cap), cap, ops[|ops| - 1])
  }

  /** The id a step uses, if it uses one. */
  function Used(c: Cache, op: Op): seq<string> {
    match op
    case StoreOp(row, _) => if row.requestId == "" then [] else [row.requestId]
    case LookupOp(responseId, requestId) =>
      var hit := Hit(c, responseId, requestId);
      if hit.Some? then [hit.value] else []
  }

  function Uses(ops: seq<Op>, cap: nat): seq<string> {
    if ops == [] then []
    else Uses(ops[..|ops| - 1], cap) + Used(Run(ops[..|ops| - 1], cap), ops[|ops| - 1])
  }

  function LastStored(ops: seq<Op>, id: string): Option<Row> {
    if ops == [] then None
    else
      var op := ops[|ops| - 1];
      if op.StoreOp? && op.row.requestId == id && id != "" then Some(op.row)
      else LastStored(ops[..|ops| - 1], id)
  }

  lemma StepKeeps(c: Cache, cap: nat, op: Op)
    requires Sound(c, cap) && cap >= 1
    ensures Sound(Step(c, cap, op), cap)
  {
    hide Sound, Store, Lookup;
    if op.StoreOp? {
      StoreKeeps(c, cap, op.row, op.withAlias);
    } else {
      LookupKeeps(c, cap, op.responseId, op.requestId);
    }
  }

  /** After any run the list, the rows and the aliases agree, within the cap. */
  lemma {:induction false} RunIsSound(ops: seq<Op>, cap: nat)
    requires cap >= 1
    ensures Sound(Run(ops, cap), cap)
  {
    if ops != [] {
      RunIsSound(ops[..|ops| - 1], cap);
      StepKeeps(Run(ops[..|ops| - 1], cap), cap, ops[|ops| - 1]);
    }
  }

  lemma StepTouches(c: Cache, cap: nat, op: Op)
    requires Sound(c, cap) && cap >= 1
    ensures var used := Used(c, op);
            Step(c, cap, op).lru == if used == [] then c.lru
                                    else if used[0] in c.lru then Touch(c.lru, used[0])
                                    else First([used[0]] + c.lru, cap)
  {
    hide Distinct, Touch;
  }

  /** The cache holds the `cap` distinct ids used last, the latest in front. */
  lemma {:induction false} HoldsTheMostRecent(ops: seq<Op>, cap: nat)
    requires cap >= 1
    ensures Run(ops, cap).lru == First(MostRecent(Uses(ops, cap)), cap)
  {
    if ops != [] {
      hide Step, Used, Without, First, Sound;
      var before := ops[..|ops| - 1];
      var c := Run(before, cap);
      var used := Used(c, ops[|ops| - 1]);
      HoldsTheMostRecent(before, cap);
      RunIsSound(before, cap);
      StepTouches(c, cap, ops[|ops| - 1]);
      if used != [] {
        assert used == [used[0]];
        TouchFollows(Uses(before, cap), cap, used[0]);
      } else {
        assert Uses(before, cap) + used == Uses(before, cap);
      }
    }
  }

  lemma {:induction false} RowIsLastStored(ops: seq<Op>, cap: nat, id: string)
    requires cap >= 1 && id in Run(ops, cap).rows
    ensures LastStored(ops, id) == Some(Run(ops, cap).rows[id])
  {
    if ops != [] {
      var before := ops[..|ops| - 1];
      RunIsSound(before, cap);
      StepKeepsRow(Run(before, cap), cap, ops[|ops| - 1], id);
      if id in Run(before, cap).rows {
        RowIsLastStored(before, cap, id);
      }
    }
  }

  /** A row changes only when it is stored, and only then can a new one appear. */
  lemma StepKeepsRow(c: Cache, cap: nat, op: Op, id: string)
    requires Sound(c, cap) && cap >= 1 && id in Step(c, cap, op).rows
    ensures if op.StoreOp? && op.row.requestId == id then id != "" && Step(c, cap, op).rows[id] == op.row
            else id in c.rows && Step(c, cap, op).rows[id] == c.rows[id]
  {
    hide Distinct, Pointed, Touch;
    if op.StoreOp? && op.row.requestId == id && id != "" {
      StoredIsInFront(c, cap, op.row, op.withAlias);
    }
  }

  /**
   A response id is answered from the cache exactly while fewer than `cap` other ids were used
   since it was, and then with the row stored for it last.
   */
  lemma {:induction false} HitExactlyWhenRecent(ops: seq<Op>, cap: nat, id: string, requestId: string)
    requires cap >= 1 && id != ""
    ensures var uses := Uses(ops, cap);
            Hit(Run(ops, cap), id, requestId) == Some(id) && id in Run(ops, cap).rows
            <==> id in uses && |Members(Since(uses, id))| < cap
    ensures id in Run(ops, cap).rows ==> LastStored(ops, id) == Some(Run(ops, cap).rows[id])
  {
    hide Run, Uses, MostRecent, First, Since, LastStored;
    RunIsSound(ops, cap);
    HoldsTheMostRecent(ops, cap);
    RememberedExactlyWhen(Uses(ops, cap), cap, id);
    if id in Run(ops, cap).rows {
      RowIsLastStored(ops, cap, id);
    }
  }

  // ---- Aliases --------------------------------------------------------------------------

  /** Every resident that carries an alias is found by it. */
  ghost predicate Resolves(c: Cache) {
    forall id | id in c.aliases && c.aliases[id] != "" ::
      c.aliases[id] in c.byArchive && c.byArchive[c.aliases[id]] == id
  }

  /** The row brings an alias under which another resident is found. */
  predicate Clashes(c: Cache, row: Row, withAlias: bool) {
    withAlias && row.requestId != "" && row.archiveRequestId in c.byArchive
    && c.byArchive[row.archiveRequestId] != row.requestId
  }

  lemma ReplaceResolves(c: Cache, cap: nat, row: Row, withAlias: bool)
    requires Sound(c, cap) && Resolves(c) && row.requestId in c.rows
    ensures Resolves(Replace(c, row, withAlias)) <==> !Clashes(c, row, withAlias)
  {
    hide Distinct, Touch;
    var d := Replace(c, row, withAlias);
    if Clashes(c, row, withAlias) {
      var other := c.byArchive[row.archiveRequestId];
      assert other in d.aliases && d.aliases[other] == row.archiveRequestId;
    }
  }

  lemma InsertResolves(c: Cache, cap: nat, row: Row, withAlias: bool)
    requires Sound(c, cap) && Resolves(c) && row.requestId !in c.rows && row.requestId != ""
    ensures Resolves(Insert(c, row, withAlias)) <==> !Clashes(c, row, withAlias)
  {
    hide Distinct;
    var d := Insert(c, row, withAlias);
    if Clashes(c, row, withAlias) {
      var other := c.byArchive[row.archiveRequestId];
      assert other in d.aliases && d.aliases[other] == row.archiveRequestId;
    }
  }

  lemma EvictResolves(c: Cache, cap: nat)
    requires Sound(c, cap) && c.lru != [] && Resolves(c)
    ensures Resolves(Evict(c))
  {
    hide Distinct;
  }

  /** When the new row took another's alias, evicting either leaves the one that is left unresolved. */
  lemma EvictKeepsClash(c: Cache, cap: nat, row: Row)
    requires Sound(c, cap) && Resolves(c) && row.requestId !in c.rows && row.requestId != "" && c.lru != []
    requires Clashes(c, row, true)
    ensures !Resolves(Evict(Insert(c, row, true)))
  {
    var d := Insert(c, row, true);
    var oldest := d.lru[|d.lru| - 1];
    var other := c.byArchive[row.archiveRequestId];
    assert oldest == c.lru[|c.lru| - 1] && oldest != row.requestId;
    assert other in d.aliases && d.aliases[other] == row.archiveRequestId;
    if oldest != other {
      assert other in Evict(d).aliases;
    } else {
      assert row.requestId in Evict(d).aliases && row.archiveRequestId !in Evict(d).byArchive;
    }
  }

  /** One store keeps every alias findable exactly when it does not take an alias from another resident. */
  lemma StoreResolvesExactlyWhen(c: Cache, cap: nat, row: Row, withAlias: bool)
    requires Sound(c, cap) && cap >= 1 && Resolves(c)
    ensures Resolves(Store(c, cap, row, withAlias)) <==> !Clashes(c, row, withAlias)
  {
    hide Resolves, Clashes, Replace, Evict;
    if row.requestId == "" {
      NothingClashes(c, row, withAlias);
    } else if row.requestId in c.rows {
      ReplaceResolves(c, cap, row, withAlias);
    } else {
      InsertResolves(c, cap, row, withAlias);
      InsertKeeps(c, cap, row, withAlias);
      var more := Insert(c, row, withAlias);
      if |more.lru| > cap {
        if Resolves(more) {
          EvictResolves(more, cap + 1);
        } else {
          OnlyWithAlias(c, row, withAlias);
          EvictKeepsClash(c, cap, row);
        }
      }
    }
  }

  lemma NothingClashes(c: Cache, row: Row, withAlias: bool)
    requires row.requestId == ""
    ensures !Clashes(c, row, withAlias)
  {}

  lemma OnlyWithAlias(c: Cache, row: Row, withAlias: bool)
    requires Clashes(c, row, withAlias)
    ensures withAlias
  {}

  /** No two response ids are ever stored under one alias. */
  ghost predicate AliasesUnique(ops: seq<Op>) {
    forall i, j | 0 <= i < |ops| && 0 <= j < |ops| && Brings(ops[i]) && Brings(ops[j])
        && ops[i].row.archiveRequestId == ops[j].row.archiveRequestId ::
      ops[i].row.requestId == ops[j].row.requestId
  }

  predicate Brings(op: Op) {
    op.StoreOp? && op.withAlias && op.row.requestId != "" && op.row.archiveRequestId != ""
  }

  /** An alias in use was brought by some store of that response id. */
  lemma {:induction false} AliasWasBrought(ops: seq<Op>, cap: nat, id: string) returns (at: nat)
    requires cap >= 1 && id in Run(ops, cap).aliases && Run(ops, cap).aliases[id] != ""
    ensures at < |ops| && Brings(ops[at]) && ops[at].row.requestId == id
    ensures ops[at].row.archiveRequestId == Run(ops, cap).aliases[id]
  {
    var before, op := ops[..|ops| - 1], ops[|ops| - 1];
    if Brings(op) && op.row.requestId == id && op.row.archiveRequestId == Run(ops, cap).aliases[id] {
      at := |ops| - 1;
    } else {
      StepKeepsAlias(Run(before, cap), cap, op, id);
      at := AliasWasBrought(before, cap, id);
    }
  }

  lemma StepKeepsAlias(c: Cache, cap: nat, op: Op, id: string)
    requires cap >= 1 && id in Step(c, cap, op).aliases && Step(c, cap, op).aliases[id] != ""
    requires !(Brings(op) && op.row.requestId == id && op.row.archiveRequestId == Step(c, cap, op).aliases[id])
    ensures id in c.aliases && c.aliases[id] == Step(c, cap, op).aliases[id]
  {
    hide Without;
  }

  /** With one alias per response, every resident alias resolves after any run. */
  lemma {:induction false} UniqueAliasesResolve(ops: seq<Op>, cap: nat)
    requires cap >= 1 && AliasesUnique(ops)
    ensures Resolves(Run(ops, cap))
  {
    if ops != [] {
      var before, op := ops[..|ops| - 1], ops[|ops| - 1];
      assert AliasesUnique(before);
      UniqueAliasesResolve(before, cap);
      RunIsSound(before, cap);
      var c := Run(before, cap);
      if op.StoreOp? {
        UniqueNeverClash(ops, cap);
        StoreResolvesExactlyWhen(c, cap, op.row, op.withAlias);
      }
    }
  }

  lemma UniqueNeverClash(ops: seq<Op>, cap: nat)
    requires cap >= 1 && AliasesUnique(ops) && ops != [] && ops[|ops| - 1].StoreOp?
    ensures !Clashes(Run(ops[..|ops| - 1], cap), ops[|ops| - 1].row, ops[|ops| - 1].withAlias)
  {
    var c, op := Run(ops[..|ops| - 1], cap), ops[|ops| - 1];
    RunIsSound(ops[..|ops| - 1], cap);
    if Clashes(c, op.row, op.withAlias) {
      var at := AliasWasBrought(ops[..|ops| - 1], cap, c.byArchive[op.row.archiveRequestId]);
    }
  }

  /**
   The alias a response id goes by: that of the last store that gave one, while it stayed in the
   cache since.
   */
  function AliasOf(ops: seq<Op>, cap: nat, id: string): string {
    if ops == [] then ""
    else
      var before, op := ops[..|ops| - 1], ops[|ops| - 1];
      if op.LookupOp? || op.row.requestId != id then AliasOf(before, cap, id)
      else if op.withAlias then op.row.archiveRequestId
      else if id in Run(before, cap).lru then AliasOf(before, cap, id)
      else ""
  }

  lemma {:induction false} StepAlias(c: Cache, cap: nat, op: Op, id: string)
    requires Sound(c, cap) && cap >= 1 && id in Step(c, cap, op).rows
    ensures id in Step(c, cap, op).aliases && id != ""
    ensures Step(c, cap, op).aliases[id] ==
              if op.LookupOp? || op.row.requestId != id then (if id in c.aliases then c.aliases[id] else "")
              else if op.withAlias then op.row.archiveRequestId
              else if id in c.lru then (if id in c.aliases then c.aliases[id] else "")
              else ""
    ensures op.LookupOp? || op.row.requestId != id ==> id in c.rows
  {
    hide Distinct, Pointed, Without;
    StepKeeps(c, cap, op);
  }

  lemma {:induction false} AliasIs(ops: seq<Op>, cap: nat, id: string)
    requires cap >= 1 && id in Run(ops, cap).rows
    ensures id in Run(ops, cap).aliases && Run(ops, cap).aliases[id] == AliasOf(ops, cap, id)
  {
    hide Step, Sound;
    var before, op := ops[..|ops| - 1], ops[|ops| - 1];
    var c := Run(before, cap);
    RunIsSound(before, cap);
    StepAlias(c, cap, op, id);
    Residents(c, cap, id);
    if id in c.rows {
      AliasIs(before, cap, id);
    }
  }

  lemma Residents(c: Cache, cap: nat, id: string)
    requires Sound(c, cap)
    ensures id in c.lru <==> id in c.rows
    ensures id in c.rows <==> id in c.aliases
    ensures id in c.rows ==> id != ""
  {
    hide Distinct, Pointed;
  }

  /**
   A lookup that no response id answers is answered by request id `x` if and only if some cached
   response goes by that alias, which is then used last; its row is the one stored for it last.
   */
  lemma {:induction false} AnsweredByAliasExactlyWhen(ops: seq<Op>, cap: nat, responseId: string, x: string)
    requires cap >= 1 && AliasesUnique(ops)
    requires responseId == "" || responseId !in Run(ops, cap).lru
    ensures var c := Run(ops, cap);
            && (Hit(c, responseId, x).Some? <==> x != "" && exists id :: id in c.lru && AliasOf(ops, cap, id) == x)
            && (forall id | x != "" && id in c.lru && AliasOf(ops, cap, id) == x ::
                  && Hit(c, responseId, x) == Some(id) && id in c.rows && LastStored(ops, id) == Some(c.rows[id])
                  && Lookup(c, responseId, x).lru != [] && Lookup(c, responseId, x).lru[0] == id)
            && (Hit(c, responseId, x).None? ==> Lookup(c, responseId, x) == c)
  {
    hide Run, AliasesUnique, AliasOf, LastStored, Without, Distinct;
    var c := Run(ops, cap);
    RunIsSound(ops, cap);
    UniqueAliasesResolve(ops, cap);
    forall id | id in c.lru
      ensures id in c.rows && c.aliases[id] == AliasOf(ops, cap, id) && LastStored(ops, id) == Some(c.rows[id])
    {
      Residents(c, cap, id);
      AliasIs(ops, cap, id);
      RowIsLastStored(ops, cap, id);
    }
    if x in c.byArchive {
      Residents(c, cap, c.byArchive[x]);
    }
  }

  /** Two responses under one alias: the second takes it over, and evicting the first drops it for both. */
  lemma SharedAliasIsLost(a: Row, b: Row, r: Row)
    requires a.requestId != "" && b.requestId != "" && r.requestId != "" && a.archiveRequestId == b.archiveRequestId != ""
    requires a.requestId != b.requestId && r.requestId != a.requestId && r.requestId != b.requestId
    ensures var c := Store(Store(Store(EMPTY, 2, a, true), 2, b, true), 2, r, false);
            b.requestId in c.rows && c.aliases[b.requestId] == b.archiveRequestId && b.archiveRequestId !in c.byArchive
  {
    var one := Store(EMPTY, 2, a, true);
    assert one.lru == [a.requestId];
    var two := Store(one, 2, b, true);
    assert two.lru == [b.requestId, a.requestId];
  }
}
