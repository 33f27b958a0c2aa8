/** The enrichment cache as it is kept, with shared mutable entries: internal/enrich/enrich.go. */
module Enrich {
  import opened Recency
  import opened EnrichCache
  import opened Wrappers

  class Entry {
    var row: Row
    var archiveAlias: string
    /** What its list node holds. */
    const id: string

    constructor (row: Row, archiveAlias: string)
      ensures this.row == row && this.archiveAlias == archiveAlias && id == row.requestId
    {
      this.row, this.archiveAlias, this.id := row, archiveAlias, row.requestId;
    }
  }

  class StoreEnricher {
    const cacheEntries: nat
    var byResponse: map<string, Entry>
    var byArchive: map<string, Entry>
    /** Front first; a node is known by the response id it holds. */
    var lru: seq<string>
    var lastId: int
    var prefetchRows: nat
    /** The same, without pointers. */
    ghost var cache: Cache

    /** Both maps share the entries, and what they hold is `cache`. */
    ghost predicate Linked()
      reads this`byResponse, this`byArchive, this`lru, this`cache, byResponse.Values
    {
      && lru == cache.lru
      && byResponse.Keys == cache.rows.Keys == cache.aliases.Keys
      && (forall r | r in byResponse ::
            byResponse[r].id == r && byResponse[r].row == cache.rows[r] && byResponse[r].archiveAlias == cache.aliases[r])
      && byArchive.Keys == cache.byArchive.Keys
      && (forall x | x in byArchive ::
            byArchive[x].id == cache.byArchive[x] && byArchive[x].id in byResponse
            && byResponse[byArchive[x].id] == byArchive[x])
    }

    ghost predicate Valid()
      reads this, byResponse.Values
    {
      cacheEntries >= 1 && Linked() && Sound(cache, cacheEntries)
    }

    constructor (cacheEntries: int)
      ensures Valid() && cache == EMPTY && this.cacheEntries == if cacheEntries <= 0 then 1024 else cacheEntries
    {
      this.cacheEntries := if cacheEntries <= 0 then 1024 else cacheEntries;
      byResponse, byArchive, lru, lastId, prefetchRows := map[], map[], [], 0, 0;
      cache := EMPTY;
    }

    /** Answers from the cache, by response id or failing that by archive alias. */
    method CacheLookup(responseId: string, requestId: string) returns (found: Option<Row>)
      requires Valid()
      modifies this`lru, this`cache
      ensures Valid() && cache == Lookup(old(cache), responseId, requestId)
      ensures var hit := Hit(old(cache), responseId, requestId);
              if hit.Some? then hit.value in old(cache).rows && found == Some(old(cache).rows[hit.value])
              else found == None
    {
      hide Sound, Without;
      LookupKeeps(cache, cacheEntries, responseId, requestId);
      cache := Lookup(cache, responseId, requestId);
      if responseId != "" {
        if responseId in byResponse {
          lru := [responseId] + Without(lru, responseId);
          return Some(byResponse[responseId].row);
        }
      }
      if requestId != "" {
        if requestId in byArchive {
          lru := [byArchive[requestId].id] + Without(lru, byArchive[requestId].id);
          return Some(byArchive[requestId].row);
        }
      }
      return None;
    }

    /** Stores a row, with its archive alias when it has one to give. */
    method CacheStore(row: Row, includeArchiveAlias: bool)
      requires Valid()
      modifies this`byResponse, this`byArchive, this`lru, this`cache, byResponse.Values
      ensures Valid() && cache == Store(old(cache), cacheEntries, row, includeArchiveAlias)
      ensures fresh(byResponse.Values - old(byResponse.Values))
    {
      hide Sound, Replace, Insert, Evict;
      StoreKeeps(cache, cacheEntries, row, includeArchiveAlias);
      if row.requestId == "" {
        return;
      }
      if row.requestId in byResponse {
        Refresh(byResponse[row.requestId], row, includeArchiveAlias);
        return;
      }
      InsertKeeps(cache, cacheEntries, row, includeArchiveAlias);
      Add(row, includeArchiveAlias);
      Shrink();
    }

    method Refresh(ent: Entry, row: Row, includeArchiveAlias: bool)
      requires Linked() && row.requestId in byResponse && byResponse[row.requestId] == ent
      modifies this`byArchive, this`lru, this`cache, ent
      ensures Linked() && cache == Replace(old(cache), row, includeArchiveAlias)
    {
      assert ent.id == row.requestId && ent.archiveAlias == cache.aliases[row.requestId] && lru == cache.lru;
      hide Linked, Without;
      if includeArchiveAlias && ent.archiveAlias != row.archiveRequestId {
        if ent.archiveAlias != "" {
          Forget(ent.archiveAlias);
        }
        SetAlias(ent, row.archiveRequestId);
      } else {
        assert cache.aliases[ent.id := ent.archiveAlias] == cache.aliases;
      }
      SetRow(ent, row);
      ToFront(ent.id);
      Enlist(ent);
    }

    /** Removes an alias. */
    method Forget(alias: string)
      requires Linked()
      modifies this`byArchive, this`cache
      ensures Linked() && cache == old(cache).(byArchive := old(cache).byArchive - {alias})
    {
      byArchive := byArchive - {alias};
      cache := cache.(byArchive := cache.byArchive - {alias});
    }

    method SetAlias(ent: Entry, alias: string)
      requires Linked() && ent.id in byResponse && byResponse[ent.id] == ent
      modifies this`cache, ent`archiveAlias
      ensures Linked() && ent.archiveAlias == alias
      ensures cache == old(cache).(aliases := old(cache).aliases[ent.id := alias])
    {
      ent.archiveAlias := alias;
      cache := cache.(aliases := cache.aliases[ent.id := alias]);
    }

    method SetRow(ent: Entry, row: Row)
      requires Linked() && ent.id in byResponse && byResponse[ent.id] == ent
      modifies this`cache, ent`row
      ensures Linked() && cache == old(cache).(rows := old(cache).rows[ent.id := row])
    {
      ent.row := row;
      cache := cache.(rows := cache.rows[ent.id := row]);
    }

    method ToFront(id: string)
      requires Linked()
      modifies this`lru, this`cache
      ensures Linked() && cache == old(cache).(lru := Touch(old(cache).lru, id))
    {
      lru := [id] + Without(lru, id);
      cache := cache.(lru := [id] + Without(cache.lru, id));
    }

    /** Points an entry's alias, when it has one, to the entry. */
    method Enlist(ent: Entry)
      requires Linked() && ent.id in byResponse && byResponse[ent.id] == ent
      modifies this`byArchive, this`cache
      ensures Linked() && cache == old(cache).(byArchive := Point(old(cache).byArchive, ent.archiveAlias, ent.id))
    {
      if ent.archiveAlias != "" {
        byArchive := byArchive[ent.archiveAlias := ent];
        cache := cache.(byArchive := cache.byArchive[ent.archiveAlias := ent.id]);
      }
    }

    method Add(row: Row, includeArchiveAlias: bool)
      requires Linked() && row.requestId !in byResponse
      modifies this`byResponse, this`byArchive, this`lru, this`cache
      ensures Linked() && cache == Insert(old(cache), row, includeArchiveAlias)
      ensures row.requestId in byResponse && fresh(byResponse[row.requestId])
      ensures byResponse == old(byResponse)[row.requestId := byResponse[row.requestId]]
    {
      var ent := Enrol(row, if includeArchiveAlias then row.archiveRequestId else "");
      hide Linked;
      Enlist(ent);
    }

    method Enrol(row: Row, alias: string) returns (ent: Entry)
      requires Linked() && row.requestId !in byResponse
      modifies this`byResponse, this`lru, this`cache
      ensures Linked() && fresh(ent) && ent.id == row.requestId && ent.archiveAlias == alias
      ensures byResponse == old(byResponse)[row.requestId := ent]
      ensures cache == Cache(old(cache).rows[row.requestId := row], old(cache).aliases[row.requestId := alias],
                             old(cache).byArchive, [row.requestId] + old(cache).lru)
    {
      ent := new Entry(row, alias);
      lru := [row.requestId] + lru;
      byResponse := byResponse[row.requestId := ent];
      cache := Cache(cache.rows[row.requestId := row], cache.aliases[row.requestId := alias], cache.byArchive,
                     [row.requestId] + cache.lru);
    }

    /** Drops the oldest entries past the bound; there is never more than one. */
    method Shrink()
      requires Linked() && Sound(cache, cacheEntries + 1)
      modifies this`byResponse, this`byArchive, this`lru, this`cache
      ensures Linked() && forall r | r in byResponse :: r in old(byResponse) && byResponse[r] == old(byResponse)[r]
      ensures cache == if |old(cache).lru| > cacheEntries then Evict(old(cache)) else old(cache)
    {
      hide Sound, Evict, Linked;
      ghost var whole := cache;
      SameSize(cacheEntries + 1);
      while |byResponse| > cacheEntries
        invariant Linked() && |byResponse| == |lru| == |cache.lru|
        invariant forall r | r in byResponse :: r in old(byResponse) && byResponse[r] == old(byResponse)[r]
        invariant cache == whole || (|whole.lru| > cacheEntries && cache == Evict(whole) && |lru| <= cacheEntries)
        decreases |lru|
      {
        if lru == [] {
          return;
        }
        EvictKeeps(cache, cacheEntries + 1);
        ghost var size := |cache.lru|;
        Drop();
        SameSize(size - 1);
      }
    }

    lemma SameSize(cap: nat)
      requires Linked() && Sound(cache, cap)
      ensures |byResponse| == |lru| == |cache.lru| <= cap
    {
      SoundSize(cache, cap);
    }

    method Drop()
      requires Linked() && Sound(cache, cacheEntries + 1) && lru != []
      modifies this`byResponse, this`byArchive, this`lru, this`cache
      ensures Linked() && byResponse == old(byResponse) - {old(lru)[|old(lru)| - 1]}
      ensures cache == Evict(old(cache))
    {
      var back := lru[|lru| - 1];
      NothingPointsToEvicted(cache, cacheEntries + 1);
      assert back in byResponse && cache.aliases[back] == byResponse[back].archiveAlias;
      hide Sound;
      if byResponse[back].archiveAlias != "" {
        Forget(byResponse[back].archiveAlias);
      }
      hide Linked;
      Unlink(back);
    }

    method Unlink(back: string)
      requires Linked() && lru != [] && back in byResponse
      requires forall x | x in cache.byArchive :: cache.byArchive[x] != back
      modifies this`byResponse, this`lru, this`cache
      ensures Linked() && byResponse == old(byResponse) - {back}
      ensures cache == Cache(old(cache).rows - {back}, old(cache).aliases - {back}, old(cache).byArchive,
                             old(cache).lru[..|old(cache).lru| - 1])
    {
      lru := lru[..|lru| - 1];
      byResponse := byResponse - {back};
      cache := Cache(cache.rows - {back}, cache.aliases - {back}, cache.byArchive, cache.lru[..|cache.lru| - 1]);
    }

    /** Merges a page of rows read after the last id; each keeps its alias. */
    method MergePage(rows: seq<Row>)
      requires Valid()
      modifies this`byResponse, this`byArchive, this`lru, this`cache, this`lastId, this`prefetchRows, byResponse.Values
      ensures Valid() && cache == Merged(old(cache), cacheEntries, rows)
      ensures prefetchRows == old(prefetchRows) + |rows|
      ensures old(lastId) <= lastId && (forall i | 0 <= i < |rows| :: rows[i].id <= lastId)
      ensures lastId == old(lastId) || exists i | 0 <= i < |rows| :: rows[i].id == lastId
    {
      hide Store, Sound, Linked;
      for i := 0 to |rows|
        invariant Valid() && cache == Merged(old(cache), cacheEntries, rows[..i])
        invariant fresh(byResponse.Values - old(byResponse.Values))
        invariant prefetchRows == old(prefetchRows) + i
        invariant old(lastId) <= lastId && (forall k | 0 <= k < i :: rows[k].id <= lastId)
        invariant lastId == old(lastId) || exists k | 0 <= k < i :: rows[k].id == lastId
      {
        assert rows[..i + 1][..i] == rows[..i];
        if rows[i].id > lastId {
          lastId := rows[i].id;
        }
        CacheStore(rows[i], true);
        prefetchRows := prefetchRows + 1;
      }
      assert rows[..|rows|] == rows;
    }
  }

  lemma NothingPointsToEvicted(c: Cache, cap: nat)
    requires Sound(c, cap) && c.lru != []
    ensures var back := c.lru[|c.lru| - 1];
            back in c.aliases && forall x | x in c.byArchive && x != c.aliases[back] :: c.byArchive[x] != back
    ensures "" !in c.byArchive
  {
    hide Distinct;
  }

  lemma SoundSize(c: Cache, cap: nat)
    requires Sound(c, cap)
    ensures |c.rows| == |c.lru| <= cap
  {
    DistinctSize(c.lru);
    assert c.rows.Keys == Members(c.lru);
  }

  /** The last row of a page is found by the alias it brings, if no cached response goes by that before. */
  lemma {:induction false} MergedIsFound(c: Cache, cap: nat, rows: seq<Row>, row: Row)
    requires Sound(c, cap) && cap >= 1 && row.requestId != "" && row.archiveRequestId != ""
    requires var before := Merged(c, cap, rows); forall id | id in before.aliases :: before.aliases[id] != row.archiveRequestId
    ensures var d := Merged(c, cap, rows + [row]);
            Hit(d, "", row.archiveRequestId) == Some(row.requestId) && row.requestId in d.rows && d.rows[row.requestId] == row
  {
    hide Sound, Merged, Distinct, Pointed, Without;
    MergedStep(c, cap, rows, row);
    MergedIsSound(c, cap, rows);
    var before := Merged(c, cap, rows);
    StoredIsInFront(before, cap, row, true);
    StoredByAlias(before, cap, row);
  }

  lemma {:induction false} MergedStep(c: Cache, cap: nat, rows: seq<Row>, row: Row)
    ensures Merged(c, cap, rows + [row]) == Store(Merged(c, cap, rows), cap, row, true)
  {
    assert (rows + [row])[..|rows|] == rows;
  }

  lemma {:induction false} MergedIsSound(c: Cache, cap: nat, rows: seq<Row>)
    requires Sound(c, cap) && cap >= 1
    ensures Sound(Merged(c, cap, rows), cap)
  {
    hide Sound, Store;
    if rows != [] {
      MergedIsSound(c, cap, rows[..|rows| - 1]);
      StoreKeeps(Merged(c, cap, rows[..|rows| - 1]), cap, rows[|rows| - 1], true);
    }
  }

  lemma {:induction false} StoredByAlias(c: Cache, cap: nat, row: Row)
    requires Sound(c, cap) && cap >= 1 && row.requestId != "" && row.archiveRequestId != ""
    requires forall id | id in c.aliases :: c.aliases[id] != row.archiveRequestId
    ensures Hit(Store(c, cap, row, true), "", row.archiveRequestId) == Some(row.requestId)
  {
    hide Without;
  }

  function Merged(c: Cache, cap: nat, rows: seq<Row>): Cache {
    if rows == [] then c else Store(Merged(c, cap, rows[..|rows| - 1]), cap, rows[|rows| - 1], true)
  }
}
