/**
 * The cache-wide part of the AQL query result cache
 * (arangod/Aql/QueryCache.cpp, class `QueryCache`): one per-database
 * cache for each database that stored a result, the cache mode and the
 * bound on the number of results each database keeps.
 */
module QueryCache {
  import opened Common
  import opened JsValues
  import opened QueryCacheDatabase

  /** The elements of `s` starting a list as `Newest(Without(s, hs) + [x], m)` are those of `s` and `x`. */
  lemma StoredFrom(s: seq<ResultEntry>, hs: set<uint64>, x: ResultEntry, m: nat)
    ensures forall k :: 0 <= k < |Newest(Without(s, hs) + [x], m)| ==>
              Newest(Without(s, hs) + [x], m)[k] == x || Newest(Without(s, hs) + [x], m)[k] in s
  {
    var w := Without(s, hs) + [x];
    WithoutSub(s, hs);
    NewestSuffix(w, m);
    forall k | 0 <= k < |Newest(w, m)|
      ensures Newest(w, m)[k] == x || Newest(w, m)[k] in s
    {
      var i := |w| - |Newest(w, m)| + k;
      if i < |w| - 1 {
        assert w[i] == Without(s, hs)[i];
      }
    }
  }

  /** A database cache whose fields and listed entries are all unchanged is still valid. */
  twostate lemma StillValid(d: DatabaseEntry)
    requires unchanged(d)
    requires forall k :: 0 <= k < |d.list| ==> unchanged(d.list[k])
    ensures old(d.Valid()) ==> d.Valid()
  {
  }

  /** A database cache whose fields and listed entries are all unchanged can still be released. */
  twostate lemma StillReleasable(d: DatabaseEntry)
    requires unchanged(d)
    requires forall k :: 0 <= k < |d.list| ==> unchanged(d.list[k])
    ensures old(d.Releasable()) ==> d.Releasable()
    ensures old(d.Released()) ==> d.Released()
  {
  }

  /**
   * `QueryCache`: the per-database caches, keyed by database, together with
   * the cache-wide mode and bound on the results each database keeps.
   */
  class QueryCache {
    var mode: CacheMode
    var maxResults: nat
    var entries: map<Vocbase, DatabaseEntry>

    /** The cache of database `db` as a set: empty when it has none. */
    ghost function CacheOf(db: Vocbase): set<DatabaseEntry>
      reads this
    {
      if db in entries then {entries[db]} else {}
    }

    /** The entries listed for database `db`, none when it has no cache. */
    ghost function ListOf(db: Vocbase): seq<ResultEntry>
      reads this, CacheOf(db)
    {
      if db in entries then entries[db].list else []
    }

    /** The reverse index kept for database `db`, empty when it has no cache. */
    ghost function IndexOf(db: Vocbase): map<string, set<uint64>>
      reads this, CacheOf(db)
    {
      if db in entries then entries[db].entriesByCollection else map[]
    }

    /**
     * The invariant for database `db`: its cache, and each entry the cache
     * lists, belongs to `db`, and the cache is valid and keeps at most
     * `maxResults` entries.
     */
    ghost predicate ValidFor(db: Vocbase)
      reads this, CacheOf(db), ListOf(db)`prev, ListOf(db)`next, ListOf(db)`destroyed, ListOf(db)`deletionRequested
    {
      && 1 <= maxResults
      && (db in entries ==>
            && entries[db].database == db
            && (forall k :: 0 <= k < |entries[db].list| ==> entries[db].list[k].database == db)
            && entries[db].Valid() && |entries[db].list| <= maxResults)
    }

    /** The listed entries of all databases. */
    ghost function Listed(): set<ResultEntry>
      reads this, entries.Values
    {
      set v, k | v in entries && 0 <= k < |entries[v].list| :: entries[v].list[k]
    }

    /**
     * The invariant of the whole cache: it holds for every database, so no
     * two databases share a cache or an entry.
     */
    ghost predicate Valid()
      reads this, entries.Values, Listed()`prev, Listed()`next, Listed()`destroyed, Listed()`deletionRequested
    {
      1 <= maxResults && forall v :: v in entries ==> ValidFor(v)
    }

    constructor ()
      ensures Valid() && entries == map[]
      ensures mode == DefaultMode && maxResults == DefaultMaxResults
    {
      mode := DefaultMode;
      maxResults := DefaultMaxResults;
      entries := map[];
    }

    /** `properties`: the name of the current mode and the bound on results per database. */
    function Properties(): (r: (string, nat))
      reads this
      ensures ModeFromString(r.0) == mode && r.1 == maxResults
    {
      (ModeString(mode), maxResults)
    }

    /**
     * `lookup`: the entry of database `db` stored under `hash` for
     * `queryString`, handed out with one more user; null when the database
     * has no cache or no such entry.
     */
    method Lookup(db: Vocbase, hash: uint64, queryString: string) returns (r: ResultEntry?)
      requires ValidFor(db)
      modifies (if db in entries && hash in entries[db].entriesByHash then {entries[db].entriesByHash[hash]} else {})`refCount
      ensures ValidFor(db)
      ensures r == null <==>
                db !in entries || hash !in entries[db].entriesByHash || entries[db].entriesByHash[hash].queryString != queryString
      ensures r != null ==> r == entries[db].entriesByHash[hash] && r.hash == hash && r.refCount == old(r.refCount) + 1
      ensures r == null && db in entries && hash in entries[db].entriesByHash ==>
                entries[db].entriesByHash[hash].refCount == old(entries[db].entriesByHash[hash].refCount)
    {
      if db !in entries {
        return null;
      }
      r := entries[db].Lookup(hash, queryString);
    }

    /**
     * `store`: cache `result`, which must be an array, as the result of
     * `queryString` under `hash` for database `db`, creating the
     * database's cache on its first result; the database cache stores the
     * new entry as its `store` does, bounded by `maxResults`. Any other
     * result is not cached and null is returned.
     */
    method Store(db: Vocbase, hash: uint64, queryString: string, result: JsValue, collections: seq<string>)
      returns (r: ResultEntry?)
      requires ValidFor(db)
      modifies this`entries, CacheOf(db), ListOf(db)`prev, ListOf(db)`next, ListOf(db)`deletionRequested, ListOf(db)`destroyed
      ensures ValidFor(db)
      ensures r == null <==> !result.Arr?
      ensures r == null ==> entries == old(entries)
      ensures r != null ==> fresh(r) && r.hash == hash && r.queryString == queryString
      ensures r != null ==> r.queryResult == result && r.collections == collections
      ensures r != null ==> entries.Keys == old(entries.Keys) + {db}
      ensures r != null ==> hash in entries[db].entriesByHash && entries[db].entriesByHash[hash] == r
      ensures r != null ==> entries[db].list == Newest(Without(old(ListOf(db)), {hash}) + [r], maxResults)
      ensures r != null ==> entries[db].entriesByCollection == Register(old(IndexOf(db)), collections, hash)
      ensures r != null ==> forall k :: 0 <= k < |old(ListOf(db))| && old(ListOf(db))[k].hash == hash ==> Evicted(old(ListOf(db))[k])
      ensures forall v :: v in old(entries) && v != db ==> v in entries && entries[v] == old(entries[v])
    {
      if !result.Arr? {
        return null;
      }
      r := new ResultEntry(hash, queryString, result, collections, db);
      StoreNew(db, r);
    }

    /** `store` of the new entry `e` for database `db`, creating the database's cache first when it has none. */
    method StoreNew(db: Vocbase, e: ResultEntry)
      requires ValidFor(db) && e.database == db
      requires e.prev == null && e.next == null && !e.destroyed && !e.deletionRequested
      requires forall k :: 0 <= k < |ListOf(db)| ==> ListOf(db)[k] != e
      modifies this`entries, CacheOf(db), ListOf(db)`prev, ListOf(db)`next, ListOf(db)`deletionRequested, ListOf(db)`destroyed,
        e`prev, e`next, e`deletionRequested, e`destroyed
      ensures ValidFor(db)
      ensures entries.Keys == old(entries.Keys) + {db}
      ensures e.hash in entries[db].entriesByHash && entries[db].entriesByHash[e.hash] == e
      ensures entries[db].list == Newest(Without(old(ListOf(db)), {e.hash}) + [e], maxResults)
      ensures entries[db].entriesByCollection == Register(old(IndexOf(db)), e.collections, e.hash)
      ensures forall k :: 0 <= k < |old(ListOf(db))| && old(ListOf(db))[k].hash == e.hash ==> Evicted(old(ListOf(db))[k])
      ensures forall v :: v in old(entries) && v != db ==> v in entries && entries[v] == old(entries[v])
    {
      var d := DatabaseFor(db);
      StoreEntry(db, e);
    }

    /** `store` of `e`, created for database `db`, on the cache of `db`. */
    method StoreEntry(db: Vocbase, e: ResultEntry)
      requires ValidFor(db) && db in entries && e.database == db
      requires e.prev == null && e.next == null && !e.destroyed && !e.deletionRequested
      requires forall k :: 0 <= k < |entries[db].list| ==> entries[db].list[k] != e
      modifies entries[db], entries[db].list`prev, entries[db].list`next,
        entries[db].list`deletionRequested, entries[db].list`destroyed,
        e`prev, e`next, e`deletionRequested, e`destroyed
      ensures ValidFor(db)
      ensures e.hash in entries[db].entriesByHash && entries[db].entriesByHash[e.hash] == e
      ensures entries[db].list == Newest(Without(old(entries[db].list), {e.hash}) + [e], maxResults)
      ensures entries[db].entriesByCollection == Register(old(entries[db].entriesByCollection), e.collections, e.hash)
      ensures forall k :: 0 <= k < |old(entries[db].list)| && old(entries[db].list)[k].hash == e.hash ==>
                Evicted(old(entries[db].list)[k])
    {
      var d := entries[db];
      ghost var L := d.list;
      d.Store(e.hash, e, maxResults);
      StoredFrom(L, {e.hash}, e, maxResults);
    }

    /** The cache of database `db`, created empty and entered into the map when there is none. */
    method DatabaseFor(db: Vocbase) returns (d: DatabaseEntry)
      requires ValidFor(db)
      modifies this`entries
      ensures ValidFor(db) && db in entries && d == entries[db]
      ensures old(db in entries) ==> entries == old(entries)
      ensures old(db !in entries) ==> fresh(d) && entries == old(entries)[db := d]
      ensures old(db !in entries) ==> d.list == [] && d.entriesByCollection == map[]
    {
      if db in entries {
        d := entries[db];
      } else {
        d := new DatabaseEntry(db);
        entries := entries[db := d];
      }
    }

    /**
     * `invalidate(vocbase, collections)`: when database `db` has a cache,
     * evict the entries that read any of `collections`, as the database
     * cache's `invalidate` does; other databases are untouched.
     */
    method InvalidateCollections(db: Vocbase, collections: seq<string>)
      requires ValidFor(db)
      modifies CacheOf(db), ListOf(db)`prev, ListOf(db)`next, ListOf(db)`deletionRequested, ListOf(db)`destroyed
      ensures ValidFor(db)
      ensures ListOf(db) == Without(old(ListOf(db)), Hashes(old(IndexOf(db)), collections))
      ensures IndexOf(db) == old(IndexOf(db)) - (set c | c in collections)
      ensures forall k :: 0 <= k < |ListOf(db)| ==> ReadsNone(ListOf(db)[k], collections)
      ensures forall k :: 0 <= k < |old(ListOf(db))| && old(ListOf(db))[k].hash in Hashes(old(IndexOf(db)), collections) ==>
                Evicted(old(ListOf(db))[k])
    {
      if db !in entries {
        return;
      }
      var d := entries[db];
      WithoutDatabase(d.list, Hashes(d.entriesByCollection, collections), db);
      d.InvalidateAll(collections);
    }

    /**
     * `invalidate(vocbase, collection)`: when database `db` has a cache,
     * evict the entries that read `collection`; nothing happens otherwise.
     */
    method InvalidateCollection(db: Vocbase, collection: string)
      requires ValidFor(db)
      modifies CacheOf(db), ListOf(db)`prev, ListOf(db)`next, ListOf(db)`deletionRequested, ListOf(db)`destroyed
      ensures ValidFor(db)
      ensures ListOf(db) == Without(old(ListOf(db)), Hashes(old(IndexOf(db)), [collection]))
      ensures IndexOf(db) == old(IndexOf(db)) - {collection}
      ensures forall k :: 0 <= k < |ListOf(db)| ==> collection !in ListOf(db)[k].collections
      ensures forall k :: 0 <= k < |old(ListOf(db))| && old(ListOf(db))[k].hash in Hashes(old(IndexOf(db)), [collection]) ==>
                Evicted(old(ListOf(db))[k])
    {
      if db !in entries {
        HashesOne(map[], collection);
        WithoutNothing([]);
        return;
      }
      var d := entries[db];
      WithoutDatabase(d.list, Hashes(d.entriesByCollection, [collection]), db);
      d.Invalidate(collection, []);
    }

    /**
     * `invalidate(vocbase)`: drop the cache of database `db`; its
     * destructor releases every entry it lists.
     */
    method InvalidateDatabase(db: Vocbase)
      requires ValidFor(db)
      modifies this`entries, CacheOf(db)`entriesByHash, CacheOf(db)`entriesByCollection,
        ListOf(db)`deletionRequested, ListOf(db)`destroyed
      ensures ValidFor(db)
      ensures entries == old(entries) - {db}
      ensures forall k :: 0 <= k < |old(ListOf(db))| ==> Evicted(old(ListOf(db))[k])
    {
      if db !in entries {
        return;
      }
      var d := entries[db];
      assert old(ListOf(db)) == d.list;
      entries := entries - {db};
      ghost var L := d.list;
      d.Destroy();
      assert L == d.list;
      assert forall k :: 0 <= k < |L| ==> Evicted(L[k]);
    }

    /**
     * `invalidate()`: drop the cache of every database, releasing every
     * entry any of them lists.
     */
    method InvalidateAll()
      requires Valid()
      modifies this`entries, entries.Values`entriesByHash, entries.Values`entriesByCollection,
        Listed()`deletionRequested, Listed()`destroyed
      ensures Valid() && entries == map[]
      ensures forall v, k :: v in old(entries) && 0 <= k < |old(entries)[v].list| ==> Evicted(old(entries)[v].list[k])
    {
      forall v | v in entries
        ensures entries[v].Releasable() && entries[v].database == v
        ensures forall k :: 0 <= k < |entries[v].list| ==> entries[v].list[k].database == v
      {
        assert ValidFor(v);
      }
      ReleaseAll(entries, Listed());
      entries := map[];
    }

    /** `Valid()` in terms of the per-database predicates `EnforceAll` keeps. */
    lemma ValidParts()
      requires Valid()
      ensures AllValid(entries) && OwnedBy(entries) && ListsOwned(entries)
      ensures forall v :: v in entries ==> |entries[v].list| <= maxResults
      ensures forall v, k :: v in entries && 0 <= k < |entries[v].list| ==> entries[v].list[k] in Listed()
    {
      forall v | v in entries
        ensures entries[v].Valid() && entries[v].database == v && |entries[v].list| <= maxResults
        ensures forall k :: 0 <= k < |entries[v].list| ==> entries[v].list[k].database == v
      {
        assert ValidFor(v);
      }
    }

    /** The per-database predicates, with every list within the bound, give back `Valid()`. */
    lemma ValidFromParts()
      requires 1 <= maxResults && AllValid(entries) && OwnedBy(entries) && ListsOwned(entries)
      requires forall v :: v in entries ==> |entries[v].list| <= maxResults
      ensures Valid()
    {
      forall v | v in entries
        ensures ValidFor(v)
      {
        assert entries[v].Valid();
      }
    }

    /**
     * `setMaxResults`, as corrected: a bound of 0 is ignored; a lower bound
     * first evicts the oldest entries of every database beyond it, so that
     * each database again keeps at most `maxResults` entries.
     */
    method SetMaxResults(value: nat)
      requires Valid()
      modifies this`maxResults, entries.Values, Listed()`prev, Listed()`next, Listed()`deletionRequested, Listed()`destroyed
      ensures Valid() && entries == old(entries)
      ensures maxResults == NewBound(old(maxResults), value)
      ensures forall v :: v in entries ==> entries[v].list == Newest(old(entries[v].list), maxResults)
    {
      ValidParts();
      if value == 0 {
        return;
      } else if value < maxResults {
        LowerBound(value);
      } else {
        RaiseBound(value);
      }
    }

    /**
     * `enforceMaxResults`: trim the cache of every database to its newest
     * `value` entries, evicting the older ones.
     */
    method EnforceMaxResults(value: nat)
      requires AllValid(entries) && OwnedBy(entries) && ListsOwned(entries)
      requires forall v, k :: v in entries && 0 <= k < |entries[v].list| ==> entries[v].list[k] in Listed()
      modifies entries.Values, Listed()`prev, Listed()`next, Listed()`deletionRequested, Listed()`destroyed
      ensures AllValid(entries) && ListsOwned(entries)
      ensures forall v :: v in entries ==> entries[v].list == Newest(old(entries[v].list), value)
      ensures forall v, k :: v in entries && 0 <= k < |old(entries[v].list)| - |entries[v].list| ==>
                Evicted(old(entries[v].list)[k])
    {
      ghost var orig := map v | v in entries :: entries[v].list;
      ghost var lists, gone := EnforceAll(entries, value, orig, Listed());
      TrimmedAll(entries, value, orig, lists, gone);
    }

    /** The lowering branch of `setMaxResults`: evict beyond the new bound `value`, then take it. */
    method LowerBound(value: nat)
      requires 1 <= value && AllValid(entries) && OwnedBy(entries) && ListsOwned(entries)
      requires forall v, k :: v in entries && 0 <= k < |entries[v].list| ==> entries[v].list[k] in Listed()
      modifies this`maxResults, entries.Values, Listed()`prev, Listed()`next, Listed()`deletionRequested, Listed()`destroyed
      ensures Valid() && maxResults == value
      ensures forall v :: v in entries ==> entries[v].list == Newest(old(entries[v].list), value)
    {
      EnforceMaxResults(value);
      TakeBound(value);
    }

    /** The last step of lowering the bound: every cache is valid and within `value`, which becomes the bound. */
    method TakeBound(value: nat)
      requires 1 <= value && AllValid(entries) && ListsOwned(entries)
      requires forall v :: v in entries ==> entries[v].database == v && |entries[v].list| <= value
      modifies this`maxResults
      ensures Valid() && maxResults == value
    {
      maxResults := value;
      forall v | v in entries
        ensures ValidFor(v)
      {
        assert old(entries[v].Valid());
      }
    }

    /** The raising branch of `setMaxResults`: no cache exceeds a higher bound, so only the bound changes. */
    method RaiseBound(value: nat)
      requires Valid() && maxResults <= value
      modifies this`maxResults
      ensures Valid() && maxResults == value
      ensures forall v :: v in entries ==> entries[v].list == Newest(entries[v].list, value)
    {
      maxResults := value;
      forall v | v in entries
        ensures ValidFor(v)
      {
        assert old(ValidFor(v));
      }
      ValidParts();
    }

    /**
     * `setMode`: switching to another mode first drops every cached result,
     * as `invalidate()` does; setting the current mode changes nothing.
     */
    method SetMode(value: CacheMode)
      requires Valid()
      modifies this`mode, this`entries, entries.Values`entriesByHash, entries.Values`entriesByCollection,
        Listed()`deletionRequested, Listed()`destroyed
      ensures Valid() && mode == value && maxResults == old(maxResults)
      ensures entries == if old(mode) == value then old(entries) else map[]
      ensures old(mode) != value ==>
                forall v, k :: v in old(entries) && 0 <= k < |old(entries)[v].list| ==> Evicted(old(entries)[v].list[k])
    {
      if value == mode {
        return;
      }
      InvalidateAll();
      mode := value;
    }

    /** `setMode` by name: "demand" and "on" select those modes, any other name turns the cache off. */
    method SetModeString(value: string)
      requires Valid()
      modifies this`mode, this`entries, entries.Values`entriesByHash, entries.Values`entriesByCollection,
        Listed()`deletionRequested, Listed()`destroyed
      ensures Valid() && mode == ModeFromString(value) && maxResults == old(maxResults)
      ensures entries == if old(mode) == mode then old(entries) else map[]
    {
      SetMode(ModeFromString(value));
    }

    /**
     * `setProperties`: the mode by name, then the bound; a change of mode
     * drops every cached result, and a lower bound trims what is left.
     */
    method SetProperties(name: string, value: nat)
      requires Valid()
      modifies this`mode, this`maxResults, this`entries, entries.Values, Listed()
      ensures Valid() && mode == ModeFromString(name) && maxResults == NewBound(old(maxResults), value)
      ensures entries == if old(mode) == mode then old(entries) else map[]
      ensures forall v :: v in entries ==> entries[v].list == Newest(old(entries[v].list), maxResults)
    {
      SetModeString(name);
      SetMaxResults(value);
    }
  }

  /**
   * The loop of `invalidate()`: release the cache of each database in `dbs`,
   * one after the other; `listed` covers the entries they list.
   */
  method ReleaseAll(dbs: map<Vocbase, DatabaseEntry>, ghost listed: set<ResultEntry>)
    requires forall v :: v in dbs ==> dbs[v].Releasable() && dbs[v].database == v
    requires forall v, k :: v in dbs && 0 <= k < |dbs[v].list| ==> dbs[v].list[k].database == v
    requires forall v, k :: v in dbs && 0 <= k < |dbs[v].list| ==> dbs[v].list[k] in listed
    modifies dbs.Values`entriesByHash, dbs.Values`entriesByCollection, listed`deletionRequested, listed`destroyed
    ensures forall v :: v in dbs ==> dbs[v].Released()
  {
    var todo := dbs.Keys;
    while todo != {}
      invariant todo <= dbs.Keys
      invariant forall v :: v in todo ==> dbs[v].Releasable()
      invariant forall v :: v in dbs && v !in todo ==> dbs[v].Released()
      decreases todo
    {
      var db :| db in todo;
      ReleaseDatabase(dbs, db, dbs[db]);
      todo := todo - {db};
    }
  }

  /**
   * One step of `invalidate()`: release the cache `dropped` of database `db`,
   * leaving the caches of the other databases in `dbs` as they were.
   */
  method ReleaseDatabase(dbs: map<Vocbase, DatabaseEntry>, db: Vocbase, dropped: DatabaseEntry)
    requires db in dbs && dbs[db] == dropped && dropped.Releasable()
    requires forall v :: v in dbs ==> dbs[v].database == v
    requires forall v, k :: v in dbs && 0 <= k < |dbs[v].list| ==> dbs[v].list[k].database == v
    modifies dropped`entriesByHash, dropped`entriesByCollection,
      dropped.list`deletionRequested, dropped.list`destroyed
    ensures dropped.Released()
    ensures forall v :: v in dbs && v != db && old(dbs[v].Releasable()) ==> dbs[v].Releasable()
    ensures forall v :: v in dbs && v != db && old(dbs[v].Released()) ==> dbs[v].Released()
  {
    dropped.Destroy();
    forall v | v in dbs && v != db
      ensures old(dbs[v].Releasable()) ==> dbs[v].Releasable()
      ensures old(dbs[v].Released()) ==> dbs[v].Released()
    {
      var d := dbs[v];
      forall k | 0 <= k < |d.list|
        ensures unchanged(d.list[k])
      {
        assert d.list[k].database == v;
        assert d.list[k] !in dropped.list;
      }
      StillReleasable(d);
    }
  }

  /** The bound on results per database once `setMaxResults(value)` ran: a `value` of 0 is ignored. */
  function NewBound(maxResults: nat, value: nat): (r: nat)
    ensures r == maxResults || r == value
    ensures r == 0 <==> maxResults == 0 && value == 0
  {
    if value == 0 then maxResults else value
  }

  /**
   * How many of its `n` entries a database keeps once `setMaxResults(value)`
   * ran with bound `maxResults`, as corrected: only a lower bound evicts.
   */
  function KeptAfterSetMaxResults(n: nat, maxResults: nat, value: nat): (r: nat)
    ensures r <= n
    ensures n <= maxResults ==> r <= NewBound(maxResults, value)
    ensures n <= maxResults ==> r == n || r == NewBound(maxResults, value)
  {
    if value != 0 && value < maxResults && n > value then value else n
  }

  /**
   * The corrected `setMaxResults` keeps, of a database's list within the old
   * bound, exactly the newest entries the new bound allows.
   */
  lemma KeptIsNewest(s: seq<ResultEntry>, maxResults: nat, value: nat)
    requires |s| <= maxResults
    ensures |Newest(s, NewBound(maxResults, value))| == KeptAfterSetMaxResults(|s|, maxResults, value)
  {
  }

  /**
   * The same count for `setMaxResults` as written: it evicts only when the
   * new bound is higher than the old one, so a database that kept its bound
   * never loses an entry, even when the bound drops below its size.
   */
  function KeptAfterSetMaxResultsAsWritten(n: nat, maxResults: nat, value: nat): (r: nat)
    ensures n <= maxResults ==> r == n
  {
    if value != 0 && value > maxResults && n > value then value else n
  }

  /** As written, lowering the bound below a database's size leaves that database over the new bound. */
  lemma SetMaxResultsAsWrittenExceedsBound(n: nat, maxResults: nat, value: nat)
    requires 0 < value < n <= maxResults
    ensures KeptAfterSetMaxResultsAsWritten(n, maxResults, value) > NewBound(maxResults, value)
    ensures KeptAfterSetMaxResults(n, maxResults, value) == NewBound(maxResults, value)
  {
  }

  /** The entries listed by the database caches of `dbs`. */
  ghost function ListedIn(dbs: map<Vocbase, DatabaseEntry>): set<ResultEntry>
    reads dbs.Values
  {
    set v, k | v in dbs && 0 <= k < |dbs[v].list| :: dbs[v].list[k]
  }

  /** Every database cache of `dbs` is valid. */
  ghost predicate AllValid(dbs: map<Vocbase, DatabaseEntry>)
    reads dbs.Values, ListedIn(dbs)`prev, ListedIn(dbs)`next, ListedIn(dbs)`destroyed, ListedIn(dbs)`deletionRequested
  {
    forall v {:trigger dbs[v].Valid()} :: v in dbs ==> dbs[v].Valid()
  }

  /** `lists` holds the list of each database cache of `dbs`. */
  ghost predicate Lists(dbs: map<Vocbase, DatabaseEntry>, lists: map<Vocbase, seq<ResultEntry>>)
    reads dbs.Values
  {
    lists.Keys == dbs.Keys && forall v :: v in dbs ==> dbs[v].list == lists[v]
  }

  /** Each list of the caches of `dbs` holds only entries created for its database. */
  ghost predicate ListsOwned(dbs: map<Vocbase, DatabaseEntry>)
    reads dbs.Values
  {
    forall v, k :: v in dbs && 0 <= k < |dbs[v].list| ==> dbs[v].list[k].database == v
  }

  /** Each cache of `dbs` belongs to the database it is kept for. */
  ghost predicate OwnedBy(dbs: map<Vocbase, DatabaseEntry>)
  {
    forall v :: v in dbs ==> dbs[v].database == v
  }

  /** Each list of `lists` holds only entries created for its database. */
  ghost predicate Belong(lists: map<Vocbase, seq<ResultEntry>>)
  {
    forall v, k :: v in lists && 0 <= k < |lists[v]| ==> lists[v][k].database == v
  }

  /**
   * The lists of the databases not in `todo` are the newest `value` entries
   * of their lists in `orig`; those in `todo` are still as in `orig`.
   */
  predicate TrimmedBut(lists: map<Vocbase, seq<ResultEntry>>, orig: map<Vocbase, seq<ResultEntry>>, todo: set<Vocbase>, value: nat)
  {
    && lists.Keys == orig.Keys
    && forall v :: v in lists ==> lists[v] == if v in todo then orig[v] else Newest(orig[v], value)
  }

  /** The entries trimmed from the lists of the databases not in `todo` are all in `gone`. */
  predicate GoneCovers(orig: map<Vocbase, seq<ResultEntry>>, todo: set<Vocbase>, value: nat, gone: seq<ResultEntry>)
  {
    forall v, k :: v in orig && v !in todo && 0 <= k < |orig[v]| - |Newest(orig[v], value)| ==> orig[v][k] in gone
  }

  /** Every entry of `gone` is evicted. */
  ghost predicate AllEvicted(gone: seq<ResultEntry>)
    reads gone
  {
    forall j :: 0 <= j < |gone| ==> Evicted(gone[j])
  }

  /**
   * Trimming the list of database `db`, one still to do, to its newest
   * `value` entries keeps the lists trimmed, covered and owned, with `db`
   * done and the entries it loses added to `gone`.
   */
  lemma {:induction false} TrimStep(lists: map<Vocbase, seq<ResultEntry>>, orig: map<Vocbase, seq<ResultEntry>>,
                                    todo: set<Vocbase>, value: nat, gone: seq<ResultEntry>, db: Vocbase)
    requires db in todo && db in orig
    requires TrimmedBut(lists, orig, todo, value) && GoneCovers(orig, todo, value, gone) && Belong(lists)
    ensures TrimmedBut(lists[db := Newest(orig[db], value)], orig, todo - {db}, value)
    ensures GoneCovers(orig, todo - {db}, value, gone + orig[db][..|orig[db]| - |Newest(orig[db], value)|])
    ensures Belong(lists[db := Newest(orig[db], value)])
  {
    var L := orig[db];
    var kept := Newest(L, value);
    var gone': seq<ResultEntry> := gone + L[..|L| - |kept|];
    NewestSuffix(L, value);
    forall v, k | v in orig && v !in todo - {db} && 0 <= k < |orig[v]| - |Newest(orig[v], value)|
      ensures orig[v][k] in gone'
    {
      if v == db {
        assert orig[v][k] == gone'[|gone| + k];
      } else {
        assert orig[v][k] in gone;
      }
    }
    var lists': map<Vocbase, seq<ResultEntry>> := lists[db := kept];
    forall v, k | v in lists' && 0 <= k < |lists'[v]|
      ensures lists'[v][k].database == v
    {
      if v == db {
        assert lists'[v][k] == lists[db][|L| - |kept| + k];
      }
    }
  }

  /**
   * The loop of `enforceMaxResults`: trim the cache of each database in
   * `dbs` to its newest `value` entries; `listed` covers the entries they list.
   */
  method EnforceAll(dbs: map<Vocbase, DatabaseEntry>, value: nat, ghost orig: map<Vocbase, seq<ResultEntry>>,
                    ghost listed: set<ResultEntry>)
    returns (ghost lists: map<Vocbase, seq<ResultEntry>>, ghost gone: seq<ResultEntry>)
    requires AllValid(dbs) && OwnedBy(dbs) && Belong(orig) && Lists(dbs, orig)
    requires forall v, k :: v in dbs && 0 <= k < |dbs[v].list| ==> dbs[v].list[k] in listed
    modifies dbs.Values, listed`prev, listed`next, listed`deletionRequested, listed`destroyed
    ensures AllValid(dbs) && Lists(dbs, lists) && Belong(lists) && AllEvicted(gone)
    ensures TrimmedBut(lists, orig, {}, value) && GoneCovers(orig, {}, value, gone)
  {
    lists := orig;
    gone := [];
    var todo := dbs.Keys;
    while todo != {}
      invariant todo <= dbs.Keys
      invariant AllValid(dbs) && Lists(dbs, lists) && Belong(lists) && AllEvicted(gone)
      invariant TrimmedBut(lists, orig, todo, value) && GoneCovers(orig, todo, value, gone)
      decreases todo
    {
      var db :| db in todo;
      ghost var L := orig[db];
      ghost var kept := Newest(L, value);
      TrimStep(lists, orig, todo, value, gone, db);
      OwnedLists(dbs, lists);
      TrimOne(dbs, db, dbs[db], value, L, lists, gone);
      ListsUpdate(dbs, db, lists, kept);
      EvictedAppend(gone, L, |L| - |kept|);
      lists := lists[db := kept];
      gone := gone + L[..|L| - |kept|];
      todo := todo - {db};
    }
  }

  /** Once every database is done, each list is the newest `value` entries of its original, and the rest are evicted. */
  lemma TrimmedAll(dbs: map<Vocbase, DatabaseEntry>, value: nat, orig: map<Vocbase, seq<ResultEntry>>,
                   lists: map<Vocbase, seq<ResultEntry>>, gone: seq<ResultEntry>)
    requires Lists(dbs, lists) && Belong(lists) && AllEvicted(gone)
    requires TrimmedBut(lists, orig, {}, value) && GoneCovers(orig, {}, value, gone)
    ensures ListsOwned(dbs)
    ensures forall v :: v in dbs ==> dbs[v].list == Newest(orig[v], value)
    ensures forall v, k :: v in dbs && 0 <= k < |orig[v]| - |dbs[v].list| ==> Evicted(orig[v][k])
  {
    forall v, k | v in dbs && 0 <= k < |orig[v]| - |dbs[v].list|
      ensures Evicted(orig[v][k])
    {
      assert orig[v][k] in gone;
    }
  }

  /** Lists owned by their databases, as held by `dbs`, make its caches' lists owned. */
  lemma OwnedLists(dbs: map<Vocbase, DatabaseEntry>, lists: map<Vocbase, seq<ResultEntry>>)
    requires Lists(dbs, lists) && Belong(lists)
    ensures ListsOwned(dbs)
  {
    forall v, k | v in dbs && 0 <= k < |dbs[v].list|
      ensures dbs[v].list[k].database == v
    {
      assert dbs[v].list == lists[v];
    }
  }

  /** Evicted entries followed by the first `n` entries of `L`, all evicted, are all evicted. */
  lemma EvictedAppend(gone: seq<ResultEntry>, L: seq<ResultEntry>, n: nat)
    requires n <= |L| && AllEvicted(gone)
    requires forall k :: 0 <= k < n ==> Evicted(L[k])
    ensures AllEvicted(gone + L[..n])
  {
    forall j | 0 <= j < |gone + L[..n]|
      ensures Evicted((gone + L[..n])[j])
    {
      if j >= |gone| {
        assert (gone + L[..n])[j] == L[j - |gone|];
      }
    }
  }

  /** The lists of `dbs` are those of `lists`, except that of `db`, which is now `kept`. */
  lemma ListsUpdate(dbs: map<Vocbase, DatabaseEntry>, db: Vocbase, lists: map<Vocbase, seq<ResultEntry>>, kept: seq<ResultEntry>)
    requires db in dbs && dbs[db].list == kept && lists.Keys == dbs.Keys
    requires forall v :: v in dbs && v != db ==> dbs[v].list == lists[v]
    ensures Lists(dbs, lists[db := kept])
  {
  }

  /**
   * One step of `enforceMaxResults`: `enforceMaxResults` on the cache `d` of
   * database `db`, listing `L`, which only touches `d` and the entries it
   * lists, so the other caches of `dbs` keep their lists and stay valid.
   */
  method TrimOne(dbs: map<Vocbase, DatabaseEntry>, db: Vocbase, d: DatabaseEntry, value: nat,
                 ghost L: seq<ResultEntry>, ghost lists: map<Vocbase, seq<ResultEntry>>, ghost gone: seq<ResultEntry>)
    requires db in dbs && dbs[db] == d && d.list == L && Lists(dbs, lists)
    requires AllValid(dbs) && OwnedBy(dbs) && ListsOwned(dbs)
    modifies d, d.list`prev, d.list`next, d.list`deletionRequested, d.list`destroyed
    ensures AllValid(dbs) && d.list == Newest(L, value)
    ensures forall k :: 0 <= k < |L| - |d.list| ==> Evicted(L[k])
    ensures forall j :: 0 <= j < |gone| && old(Evicted(gone[j])) ==> Evicted(gone[j])
    ensures forall v :: v in dbs && v != db ==> dbs[v].list == lists[v]
  {
    assert d.Valid();
    d.EnforceMaxResults(value, gone);
    NewestOf(d.list, L, value);
    forall v | v in dbs && v != db
      ensures dbs[v].list == lists[v] && dbs[v].Valid()
    {
      assert old(dbs[v].Valid());
      var e := dbs[v];
      assert e != d by {
        assert e.database != d.database;
      }
      forall k | 0 <= k < |e.list|
        ensures unchanged(e.list[k])
      {
        assert e.list[k].database == v;
        assert e.list[k] !in L;
      }
      StillValid(e);
    }
  }
}
