/**
 * The AQL query result cache (arangod/Aql/QueryCache.cpp). Each database
 * has a cache of query results: a map from query hash to result entry, a
 * reverse index from collection name to the hashes of the queries that read
 * it, and a doubly linked list of the entries in insertion order, bounded
 * by the maximum number of results with the oldest entry evicted first.
 * Result entries are reference-counted and destroyed once deletion was
 * requested and no user holds them.
 */
module QueryCacheDatabase {
  import opened Common
  import opened JsValues

  /** The initial value of `MaxResults`. */
  const DefaultMaxResults: nat := 128

  /** A database, identified as the cache identifies it: by its `TRI_vocbase_t`. */
  type Vocbase = nat

  /** `QueryCacheMode`. */
  datatype CacheMode = AlwaysOff | AlwaysOn | OnDemand

  /** The mode the cache starts in. */
  const DefaultMode: CacheMode := OnDemand

  /** `QueryCache::modeString`. */
  function ModeString(mode: CacheMode): (s: string)
    ensures ModeFromString(s) == mode
  {
    match mode
    case AlwaysOff => "off"
    case AlwaysOn => "on"
    case OnDemand => "demand"
  }

  /** The mode `setMode(std::string)` selects: `"demand"` and `"on"` select those modes, anything else off. */
  function ModeFromString(s: string): (mode: CacheMode)
    ensures mode == OnDemand <==> s == "demand"
    ensures mode == AlwaysOn <==> s == "on"
  {
    if s == "demand" then OnDemand
    else if s == "on" then AlwaysOn
    else AlwaysOff
  }

  /** `QueryCache::mayBeActive`: the cache may hold or serve results unless it is off. */
  function MayBeActive(mode: CacheMode): (r: bool)
    ensures r <==> mode == AlwaysOn || mode == OnDemand
  {
    mode != AlwaysOff
  }

  /** Of the mode names, exactly `"on"` and `"demand"` select a mode in which the cache may be active. */
  lemma MayBeActiveByName(s: string)
    ensures MayBeActive(ModeFromString(s)) <==> s == "on" || s == "demand"
  {
  }

  /** `QueryCacheResultEntry`: one cached query result, linked into its database's list. */
  class ResultEntry {
    const hash: uint64
    const queryString: string
    const queryResult: JsValue
    const collections: seq<string>
    /** The database whose cache the entry was created for. */
    ghost const database: Vocbase
    var prev: ResultEntry?
    var next: ResultEntry?
    var refCount: nat
    var deletionRequested: bool
    /** Whether `delete this` has run; a destroyed entry is never used again. */
    ghost var destroyed: bool

    /** An entry is destroyed only once its deletion was requested and nobody uses it. */
    ghost predicate Sound()
      reads this
    {
      destroyed ==> deletionRequested && refCount == 0
    }

    constructor (hash: uint64, queryString: string, queryResult: JsValue, collections: seq<string>, ghost database: Vocbase)
      ensures this.hash == hash && this.queryString == queryString
      ensures this.queryResult == queryResult && this.collections == collections && this.database == database
      ensures prev == null && next == null
      ensures refCount == 0 && !deletionRequested && !destroyed
    {
      this.hash := hash;
      this.queryString := queryString;
      this.queryResult := queryResult;
      this.collections := collections;
      this.database := database;
      prev := null;
      next := null;
      refCount := 0;
      deletionRequested := false;
      destroyed := false;
    }

    /** `tryDelete`: request deletion, and destroy the entry at once when nobody uses it. */
    method TryDelete()
      requires Sound() && !destroyed
      modifies this`deletionRequested, this`destroyed
      ensures Sound() && deletionRequested
      ensures destroyed <==> refCount == 0
    {
      deletionRequested := true;
      if refCount == 0 {
        destroyed := true;
      }
    }

    /** `use`: one more user holds the entry, so it cannot be destroyed meanwhile. */
    method Use()
      requires Sound() && !destroyed
      modifies this`refCount
      ensures Sound() && !destroyed
      ensures refCount == old(refCount) + 1
    {
      refCount := refCount + 1;
    }

    /** `unuse`: one user lets go; the last one destroys the entry if its deletion was requested. */
    method Unuse()
      requires Sound() && !destroyed && refCount > 0
      modifies this`refCount, this`destroyed
      ensures Sound()
      ensures refCount == old(refCount) - 1
      ensures destroyed <==> refCount == 0 && deletionRequested
    {
      refCount := refCount - 1;
      if refCount == 0 {
        if deletionRequested {
          destroyed := true;
        }
      }
    }
  }


  /** The entries of `s` whose hash is not in `hs`, in order. */
  function Without(s: seq<ResultEntry>, hs: set<uint64>): (r: seq<ResultEntry>)
    ensures |r| <= |s|
    ensures forall k :: 0 <= k < |r| ==> r[k].hash !in hs
  {
    if s == [] then []
    else if s[0].hash in hs then Without(s[1..], hs)
    else [s[0]] + Without(s[1..], hs)
  }

  /** The newest `m` entries of `s`: what remains after evicting from the front down to `m`. */
  function Newest(s: seq<ResultEntry>, m: nat): (r: seq<ResultEntry>)
    ensures |r| == if |s| > m then m else |s|
  {
    if |s| > m then s[|s| - m..] else s
  }

  /** `Newest(s, m)` is the suffix of `s` of its length. */
  lemma NewestSuffix(s: seq<ResultEntry>, m: nat)
    ensures forall k :: 0 <= k < |Newest(s, m)| ==> Newest(s, m)[k] == s[|s| - |Newest(s, m)| + k]
  {
  }

  /** A sequence holding the last entries of `s`, as many as `Newest` keeps, is `Newest(s, m)`. */
  lemma NewestOf(r: seq<ResultEntry>, s: seq<ResultEntry>, m: nat)
    requires |r| == if |s| > m then m else |s|
    requires forall k :: 0 <= k < |r| ==> r[k] == s[|s| - |r| + k]
    ensures r == Newest(s, m)
  {
    NewestSuffix(s, m);
  }

  /** The reverse index after registering `hash` under each of `collections`. */
  function Register(index: map<string, set<uint64>>, collections: seq<string>, hash: uint64): (r: map<string, set<uint64>>)
    ensures r.Keys == index.Keys + set c | c in collections
    ensures forall c :: c in r ==> r[c] == (if c in index then index[c] else {}) + (if c in collections then {hash} else {})
    decreases |collections|
  {
    if collections == [] then index
    else
      var c := collections[|collections| - 1];
      var before := Register(index, collections[..|collections| - 1], hash);
      before[c := (if c in before then before[c] else {}) + {hash}]
  }

  /** The hashes registered under any of `collections`. */
  function Hashes(index: map<string, set<uint64>>, collections: seq<string>): (r: set<uint64>)
    ensures forall h :: h in r <==> exists c :: c in collections && c in index && h in index[c]
  {
    if collections == [] then {}
    else Hashes(index, collections[..|collections| - 1])
         + (var c := collections[|collections| - 1]; if c in index then index[c] else {})
  }

  /** The hash of the entry at position `k` of `s`. */
  function HashAt(s: seq<ResultEntry>, k: nat): uint64
    requires k < |s|
  {
    s[k].hash
  }

  /**
   * Listed entries have pairwise distinct hashes (and so are distinct
   * objects). The quantifier is keyed on `HashAt`, so that it is used only
   * where a proof asks for it, through `Apart`.
   */
  predicate UniqueHashes(s: seq<ResultEntry>) {
    forall i, j {:trigger HashAt(s, i), HashAt(s, j)} :: 0 <= i < j < |s| ==> HashAt(s, i) != HashAt(s, j)
  }

  /** Entries at different positions of a list with distinct hashes have different hashes, and so are different objects. */
  lemma Apart(s: seq<ResultEntry>, i: nat, j: nat)
    requires UniqueHashes(s) && i < |s| && j < |s| && i != j
    ensures s[i].hash != s[j].hash && s[i] != s[j]
  {
    if i < j {
      assert HashAt(s, i) != HashAt(s, j);
    } else {
      assert HashAt(s, j) != HashAt(s, i);
    }
  }

  /** A list whose entries at different positions have different hashes has distinct hashes. */
  lemma Unique(s: seq<ResultEntry>)
    requires forall i, j :: 0 <= i < j < |s| ==> s[i].hash != s[j].hash
    ensures UniqueHashes(s)
  {
    forall i, j | 0 <= i < j < |s|
      ensures HashAt(s, i) != HashAt(s, j)
    {
    }
  }

  /** Dropping the last entry keeps the hashes distinct. */
  lemma UniqueTake(s: seq<ResultEntry>, n: nat)
    requires UniqueHashes(s) && n <= |s|
    ensures UniqueHashes(s[..n])
  {
    forall i, j | 0 <= i < j < n
      ensures s[..n][i].hash != s[..n][j].hash
    {
      Apart(s, i, j);
    }
    Unique(s[..n]);
  }

  /** Dropping the first entry keeps the hashes distinct. */
  lemma UniqueDrop(s: seq<ResultEntry>)
    requires UniqueHashes(s) && s != []
    ensures UniqueHashes(s[1..])
  {
    forall i, j | 0 <= i < j < |s| - 1
      ensures s[1..][i].hash != s[1..][j].hash
    {
      Apart(s, i + 1, j + 1);
    }
    Unique(s[1..]);
  }

  /** Appending an entry with a new hash keeps the hashes distinct. */
  lemma UniqueAppend(s: seq<ResultEntry>, x: ResultEntry)
    requires UniqueHashes(s) && forall k :: 0 <= k < |s| ==> s[k].hash != x.hash
    ensures UniqueHashes(s + [x])
  {
    var r := s + [x];
    forall i, j | 0 <= i < j < |r|
      ensures r[i].hash != r[j].hash
    {
      if j < |s| {
        Apart(s, i, j);
      }
    }
    Unique(r);
  }

  /** Taking an entry out keeps the hashes distinct. */
  lemma UniqueRemove(s: seq<ResultEntry>, k: nat)
    requires UniqueHashes(s) && k < |s|
    ensures UniqueHashes(s[..k] + s[k + 1..])
  {
    var r := s[..k] + s[k + 1..];
    forall i, j | 0 <= i < j < |r|
      ensures r[i].hash != r[j].hash
    {
      assert r[i] == s[if i < k then i else i + 1];
      assert r[j] == s[if j < k then j else j + 1];
      Apart(s, if i < k then i else i + 1, if j < k then j else j + 1);
    }
    Unique(r);
  }

  /** In a list with distinct hashes, the entry taken out at `k` is not among the rest. */
  lemma RemovedAbsent(s: seq<ResultEntry>, k: nat)
    requires k < |s| && UniqueHashes(s)
    ensures s[k] !in s[..k] + s[k + 1..]
  {
    var r := s[..k] + s[k + 1..];
    forall j | 0 <= j < |r|
      ensures r[j] != s[k]
    {
      assert r[j] == s[if j < k then j else j + 1];
      Apart(s, if j < k then j else j + 1, k);
    }
  }

  /** The map from hash to entry that `s` gives, a later entry overriding an earlier one. */
  function MapOf(s: seq<ResultEntry>): map<uint64, ResultEntry> {
    if s == [] then map[] else MapOf(s[..|s| - 1])[s[|s| - 1].hash := s[|s| - 1]]
  }

  /** The reverse index lists `x` under every collection `x` reads. */
  predicate Registered(x: ResultEntry, index: map<string, set<uint64>>) {
    forall c :: c in x.collections ==> c in index && x.hash in index[c]
  }

  /** Every entry of `s` is registered in `index`. */
  predicate AllRegistered(s: seq<ResultEntry>, index: map<string, set<uint64>>) {
    forall k :: 0 <= k < |s| ==> Registered(s[k], index)
  }

  /** `x` reads none of `collections`. */
  predicate ReadsNone(x: ResultEntry, collections: seq<string>) {
    forall c :: c in collections ==> c !in x.collections
  }

  /** No entry of `s` is destroyed or marked for deletion. */
  ghost predicate AllAlive(s: seq<ResultEntry>)
    reads s`destroyed, s`deletionRequested
  {
    forall k :: 0 <= k < |s| ==> !s[k].destroyed && !s[k].deletionRequested
  }

  /** An entry the cache has let go of: its deletion is requested, and it is destroyed exactly when nobody holds it. */
  ghost predicate Evicted(x: ResultEntry)
    reads x`deletionRequested, x`destroyed, x`refCount
  {
    x.deletionRequested && (x.destroyed <==> x.refCount == 0)
  }

  /** `Without` removes a union of hash sets one set at a time. */
  lemma {:induction false} WithoutUnion(s: seq<ResultEntry>, a: set<uint64>, b: set<uint64>)
    ensures Without(s, a + b) == Without(Without(s, a), b)
  {
    if s != [] {
      WithoutUnion(s[1..], a, b);
    }
  }

  /** Removing no hashes changes nothing. */
  lemma {:induction false} WithoutNothing(s: seq<ResultEntry>)
    ensures Without(s, {}) == s
  {
    if s != [] {
      WithoutNothing(s[1..]);
    }
  }

  /** Removing a hash no entry has changes nothing. */
  lemma {:induction false} WithoutAbsent(s: seq<ResultEntry>, h: uint64)
    requires forall k :: 0 <= k < |s| ==> s[k].hash != h
    ensures Without(s, {h}) == s
  {
    if s != [] {
      WithoutAbsent(s[1..], h);
    }
  }

  /** Removing the hash of exactly one entry removes that entry. */
  lemma {:induction false} WithoutUnique(s: seq<ResultEntry>, k: nat)
    requires k < |s| && UniqueHashes(s)
    ensures Without(s, {s[k].hash}) == s[..k] + s[k + 1..]
  {
    if k == 0 {
      forall j | 0 <= j < |s| - 1
        ensures s[1..][j].hash != s[0].hash
      {
        Apart(s, j + 1, 0);
      }
      WithoutAbsent(s[1..], s[0].hash);
    } else {
      UniqueDrop(s);
      Apart(s, 0, k);
      WithoutUnique(s[1..], k - 1);
      assert s[1..][..k - 1] + s[1..][k..] == (s[..k] + s[k + 1..])[1..];
    }
  }

  /** With unique hashes left, the `k`th entry kept is the only entry of `s` with its hash. */
  lemma SoleWithHash(s: seq<ResultEntry>, hs: set<uint64>, k: nat)
    requires k < |Without(s, hs)| && UniqueHashes(Without(s, hs))
    ensures forall i :: 0 <= i < |s| && s[i].hash == Without(s, hs)[k].hash ==> s[i] == Without(s, hs)[k]
  {
    var w := Without(s, hs);
    forall i | 0 <= i < |s| && s[i].hash == w[k].hash
      ensures s[i] == w[k]
    {
      WithoutKeeps(s, hs, i);
      var j :| 0 <= j < |w| && w[j] == s[i];
      if j != k {
        Apart(w, j, k);
      }
    }
  }

  /** `Without` keeps only entries of `s`. */
  lemma WithoutSub(s: seq<ResultEntry>, hs: set<uint64>)
    ensures forall k :: 0 <= k < |Without(s, hs)| ==> Without(s, hs)[k] in s
  {
    forall k | 0 <= k < |Without(s, hs)|
      ensures Without(s, hs)[k] in s
    {
      WithoutFrom(s, hs, k);
    }
  }

  /** Every entry `Without` keeps comes from `s`. */
  lemma {:induction false} WithoutFrom(s: seq<ResultEntry>, hs: set<uint64>, j: nat)
    requires j < |Without(s, hs)|
    ensures exists i :: 0 <= i < |s| && s[i] == Without(s, hs)[j]
  {
    if s[0].hash in hs {
      WithoutFrom(s[1..], hs, j);
      var i :| 0 <= i < |s[1..]| && s[1..][i] == Without(s[1..], hs)[j];
      assert s[i + 1] == Without(s, hs)[j];
    } else if j > 0 {
      WithoutFrom(s[1..], hs, j - 1);
      var i :| 0 <= i < |s[1..]| && s[1..][i] == Without(s[1..], hs)[j - 1];
      assert s[i + 1] == Without(s, hs)[j];
    }
  }

  /** `Without` keeps every entry whose hash is not removed. */
  lemma {:induction false} WithoutKeeps(s: seq<ResultEntry>, hs: set<uint64>, i: nat)
    requires i < |s| && s[i].hash !in hs
    ensures exists j :: 0 <= j < |Without(s, hs)| && Without(s, hs)[j] == s[i]
  {
    if i == 0 {
      assert Without(s, hs)[0] == s[0];
    } else {
      WithoutKeeps(s[1..], hs, i - 1);
      var j :| 0 <= j < |Without(s[1..], hs)| && Without(s[1..], hs)[j] == s[1..][i - 1];
      if s[0].hash !in hs {
        assert Without(s, hs)[j + 1] == s[i];
      } else {
        assert Without(s, hs)[j] == s[i];
      }
    }
  }

  /** If no kept entry has hash `h` and `h` is not removed, no entry of `s` has it. */
  lemma {:induction false} WithoutAbsentFrom(s: seq<ResultEntry>, hs: set<uint64>, h: uint64)
    requires h !in hs && forall j :: 0 <= j < |Without(s, hs)| ==> Without(s, hs)[j].hash != h
    ensures forall i :: 0 <= i < |s| ==> s[i].hash != h
  {
    if s != [] {
      if s[0].hash !in hs {
        assert Without(s, hs)[0] == s[0];
        assert forall j :: 0 <= j < |Without(s[1..], hs)| ==> Without(s[1..], hs)[j] == Without(s, hs)[j + 1];
      } else {
        assert Without(s, hs) == Without(s[1..], hs);
      }
      WithoutAbsentFrom(s[1..], hs, h);
      assert forall i :: 1 <= i < |s| ==> s[i] == s[1..][i - 1];
    }
  }

  /** Kept entries of a list of entries of database `db` belong to `db` too. */
  lemma WithoutDatabase(s: seq<ResultEntry>, hs: set<uint64>, db: Vocbase)
    requires forall k :: 0 <= k < |s| ==> s[k].database == db
    ensures forall k :: 0 <= k < |Without(s, hs)| ==> Without(s, hs)[k].database == db
  {
    WithoutSub(s, hs);
  }

  /** Kept entries of a list of entries reading none of `cs` read none of them either. */
  lemma WithoutReadsNone(s: seq<ResultEntry>, hs: set<uint64>, cs: seq<string>)
    requires forall k :: 0 <= k < |s| ==> ReadsNone(s[k], cs)
    ensures forall k :: 0 <= k < |Without(s, hs)| ==> ReadsNone(Without(s, hs)[k], cs)
  {
    forall k | 0 <= k < |Without(s, hs)|
      ensures ReadsNone(Without(s, hs)[k], cs)
    {
      WithoutFrom(s, hs, k);
    }
  }

  /** Entries registered under every collection they read and kept after removing the hashes of `c` do not read `c`. */
  lemma WithoutRegistered(s: seq<ResultEntry>, index: map<string, set<uint64>>, c: string)
    requires c in index && AllRegistered(s, index)
    ensures forall k :: 0 <= k < |Without(s, index[c])| ==> c !in Without(s, index[c])[k].collections
  {
    var r := Without(s, index[c]);
    forall k | 0 <= k < |r|
      ensures c !in r[k].collections
    {
      WithoutFrom(s, index[c], k);
      var i :| 0 <= i < |s| && s[i] == r[k];
      assert Registered(s[i], index);
    }
  }

  /** Entries registered under every collection they read do not read an unregistered collection. */
  lemma NotRegisteredNotRead(s: seq<ResultEntry>, index: map<string, set<uint64>>, c: string)
    requires c !in index && AllRegistered(s, index)
    ensures forall k :: 0 <= k < |s| ==> c !in s[k].collections
  {
    forall k | 0 <= k < |s|
      ensures c !in s[k].collections
    {
      assert Registered(s[k], index);
    }
  }

  /** Dropping a collection nobody in `s` reads keeps `s` registered. */
  lemma RegisteredDropCollection(s: seq<ResultEntry>, index: map<string, set<uint64>>, c: string)
    requires AllRegistered(s, index) && forall k :: 0 <= k < |s| ==> c !in s[k].collections
    ensures AllRegistered(s, index - {c})
  {
    forall k | 0 <= k < |s|
      ensures Registered(s[k], index - {c})
    {
      assert Registered(s[k], index);
    }
  }

  /** Registering more hashes keeps registered entries registered, and registers the new entry. */
  lemma RegisterKeeps(s: seq<ResultEntry>, index: map<string, set<uint64>>, x: ResultEntry)
    requires AllRegistered(s, index)
    ensures AllRegistered(s + [x], Register(index, x.collections, x.hash))
  {
    var r := Register(index, x.collections, x.hash);
    forall k | 0 <= k < |s + [x]|
      ensures Registered((s + [x])[k], r)
    {
      if k < |s| {
        assert (s + [x])[k] == s[k] && Registered(s[k], index);
      }
    }
  }

  /** Registering under one more collection adds the hash to that collection's set, creating it when absent. */
  lemma RegisterStep(index: map<string, set<uint64>>, cs: seq<string>, i: nat, hash: uint64)
    requires i < |cs|
    ensures Register(index, cs[..i + 1], hash) ==
            (var r := Register(index, cs[..i], hash); r[cs[i] := (if cs[i] in r then r[cs[i]] else {}) + {hash}])
  {
    assert cs[..i + 1][..i] == cs[..i];
  }

  /** A prefix one longer is the shorter prefix and the next element. */
  lemma TakeStep(cs: seq<string>, i: nat, j: nat)
    requires j == i + 1 && j <= |cs|
    ensures cs[..j] == cs[..i] + [cs[i]]
  {
  }

  /** Dropping the collections of `cs[..i]` and then `cs[i]` drops those of `cs[..j]`, for `j == i + 1`. */
  lemma DropStep(index: map<string, set<uint64>>, cs: seq<string>, i: nat, j: nat)
    requires j == i + 1 && j <= |cs|
    ensures index - (set c | c in cs[..i]) - {cs[i]} == index - (set c | c in cs[..j])
  {
    assert cs[..j] == cs[..i] + [cs[i]];
  }

  /** Adding the hashes of one more collection to the ones already removed. */
  lemma HashesStep(index: map<string, set<uint64>>, cols: seq<string>, c: string)
    ensures Hashes(index, cols) + Hashes(index - (set x | x in cols), [c]) == Hashes(index, cols + [c])
  {
    assert (cols + [c])[..|cols|] == cols;
    assert [c][..0] == [];
    if c in index && c in cols {
      forall h | h in index[c]
        ensures h in Hashes(index, cols)
      {
        assert c in cols && c in index && h in index[c];
      }
    }
  }

  /** The hashes registered under a single collection. */
  lemma HashesOne(index: map<string, set<uint64>>, c: string)
    ensures Hashes(index, [c]) == if c in index then index[c] else {}
  {
    assert [c][..0] == [];
  }

  /** `MapOf` holds only entries of `s`, each under its own hash. */
  lemma {:induction false} MapOfFind(s: seq<ResultEntry>, h: uint64)
    requires h in MapOf(s)
    ensures exists k :: 0 <= k < |s| && s[k] == MapOf(s)[h] && s[k].hash == h
  {
    var n := |s| - 1;
    if s[n].hash != h {
      MapOfFind(s[..n], h);
      var k :| 0 <= k < n && s[..n][k] == MapOf(s[..n])[h] && s[..n][k].hash == h;
      assert s[k] == s[..n][k];
    }
  }

  /** A hash missing from `MapOf(s)` is the hash of no entry of `s`. */
  lemma {:induction false} MapOfAbsent(s: seq<ResultEntry>, h: uint64)
    requires h !in MapOf(s)
    ensures forall k :: 0 <= k < |s| ==> s[k].hash != h
  {
    if s != [] {
      var n := |s| - 1;
      MapOfAbsent(s[..n], h);
      assert forall k :: 0 <= k < n ==> s[k] == s[..n][k];
    }
  }

  /** A hash no entry of `s` has is missing from `MapOf(s)`. */
  lemma {:induction false} MapOfFresh(s: seq<ResultEntry>, h: uint64)
    requires forall k :: 0 <= k < |s| ==> s[k].hash != h
    ensures h !in MapOf(s)
  {
    if s != [] {
      var n := |s| - 1;
      assert forall k :: 0 <= k < n ==> s[..n][k] == s[k];
      MapOfFresh(s[..n], h);
    }
  }

  /** With distinct hashes, every entry of `s` is in `MapOf(s)` under its hash. */
  lemma {:induction false} MapOfAt(s: seq<ResultEntry>, k: nat)
    requires UniqueHashes(s) && k < |s|
    ensures s[k].hash in MapOf(s) && MapOf(s)[s[k].hash] == s[k]
  {
    var n := |s| - 1;
    if k < n {
      UniqueTake(s, n);
      MapOfAt(s[..n], k);
      Apart(s, k, n);
    }
  }

  /** With distinct hashes, taking out the entry at `k` takes its hash out of the map. */
  lemma {:induction false} MapOfRemove(s: seq<ResultEntry>, k: nat)
    requires UniqueHashes(s) && k < |s|
    ensures MapOf(s[..k] + s[k + 1..]) == MapOf(s) - {s[k].hash}
  {
    var n := |s| - 1;
    var r := s[..k] + s[k + 1..];
    if k == n {
      assert r == s[..n];
      forall j | 0 <= j < n
        ensures s[..n][j].hash != s[n].hash
      {
        Apart(s, j, n);
      }
      MapOfFresh(s[..n], s[n].hash);
    } else {
      var p := s[..n];
      UniqueTake(s, n);
      MapOfRemove(p, k);
      assert r[..|r| - 1] == p[..k] + p[k + 1..];
      assert r[|r| - 1] == s[n];
      Apart(s, n, k);
    }
  }

  /** Appending an entry maps its hash to it. */
  lemma MapOfAppend(s: seq<ResultEntry>, x: ResultEntry)
    ensures MapOf(s + [x]) == MapOf(s)[x.hash := x]
  {
    assert (s + [x])[..|s|] == s;
  }

  /** Taking an entry out keeps the rest registered. */
  lemma RegisteredRemove(s: seq<ResultEntry>, k: nat, index: map<string, set<uint64>>)
    requires AllRegistered(s, index) && k < |s|
    ensures AllRegistered(s[..k] + s[k + 1..], index)
  {
    var r := s[..k] + s[k + 1..];
    forall j | 0 <= j < |r|
      ensures Registered(r[j], index)
    {
      assert r[j] == s[if j < k then j else j + 1];
    }
  }

  /** Taking an entry out keeps the rest alive. */
  lemma AliveRemove(s: seq<ResultEntry>, k: nat)
    requires AllAlive(s) && k < |s|
    ensures AllAlive(s[..k] + s[k + 1..])
  {
    var r := s[..k] + s[k + 1..];
    forall j | 0 <= j < |r|
      ensures !r[j].destroyed && !r[j].deletionRequested
    {
      assert r[j] == s[if j < k then j else j + 1];
    }
  }

  /** Appending a live entry keeps the list alive. */
  lemma AliveAppend(s: seq<ResultEntry>, x: ResultEntry)
    requires AllAlive(s) && !x.destroyed && !x.deletionRequested
    ensures AllAlive(s + [x])
  {
    forall j | 0 <= j < |s + [x]|
      ensures !(s + [x])[j].destroyed && !(s + [x])[j].deletionRequested
    {
      if j < |s| {
        assert (s + [x])[j] == s[j];
      }
    }
  }

  /** An evicted entry is not among alive ones. */
  lemma EvictedNotListed(s: seq<ResultEntry>, x: ResultEntry)
    requires AllAlive(s) && Evicted(x)
    ensures forall k :: 0 <= k < |s| ==> s[k] != x
  {
  }

  /** The entry at position `k` of `s` points back to its predecessor and on to its successor, null at the ends. */
  ghost predicate LinkedAt(s: seq<ResultEntry>, k: nat)
    requires k < |s|
    reads {s[k]}`prev, {s[k]}`next
  {
    && s[k].prev == (if k == 0 then null else s[k - 1])
    && s[k].next == (if k == |s| - 1 then null else s[k + 1])
  }

  /** `QueryCacheDatabaseEntry`: the cache of one database. */
  class DatabaseEntry {
    /** The database this cache belongs to. */
    ghost const database: Vocbase
    var entriesByHash: map<uint64, ResultEntry>
    var entriesByCollection: map<string, set<uint64>>
    var head: ResultEntry?
    var tail: ResultEntry?
    var numElements: nat
    /** The entries from `head` to `tail`, oldest first. */
    ghost var list: seq<ResultEntry>

    /** The linked list from `head` follows `list`, whose hashes are distinct, and `numElements` is its length. */
    ghost predicate ListValid()
      reads this`numElements, this`head, this`tail, this`list, list`prev, list`next
    {
      && numElements == |list|
      && UniqueHashes(list)
      && (list == [] ==> head == null && tail == null)
      && (list != [] ==> head == list[0] && tail == list[|list| - 1])
      && (forall k :: 0 <= k < |list| ==> LinkedAt(list, k))
    }

    /** The hash map holds exactly the listed entries, each under its own hash; the reverse index lists each listed entry under every collection it reads. */
    ghost predicate Indexed()
      reads this`list, this`entriesByHash, this`entriesByCollection
    {
      entriesByHash == MapOf(list) && AllRegistered(list, entriesByCollection)
    }

    /** No listed entry is destroyed or marked for deletion. */
    ghost predicate Alive()
      reads this`list, list`destroyed, list`deletionRequested
    {
      AllAlive(list)
    }

    /**
     * The invariant: the list is well formed, the maps index it (the
     * reverse index may hold more, so invalidation is conservative), and
     * listed entries are alive.
     */
    ghost predicate Valid()
      reads this, list`prev, list`next, list`destroyed, list`deletionRequested
    {
      ListValid() && Indexed() && Alive()
    }

    constructor (ghost database: Vocbase)
      ensures Valid() && list == [] && entriesByHash == map[] && entriesByCollection == map[]
      ensures this.database == database
    {
      this.database := database;
      entriesByHash := map[];
      entriesByCollection := map[];
      head := null;
      tail := null;
      numElements := 0;
      list := [];
    }

    /**
     * `lookup`: the entry stored under `hash` when its query string is
     * `queryString` (same length and contents), or null; a hit is handed
     * out with one more user.
     */
    method Lookup(hash: uint64, queryString: string) returns (r: ResultEntry?)
      requires Valid()
      modifies (if hash in entriesByHash then {entriesByHash[hash]} else {})`refCount
      ensures Valid()
      ensures r == null <==> hash !in entriesByHash || entriesByHash[hash].queryString != queryString
      ensures r != null ==> r == entriesByHash[hash] && r.hash == hash && r.refCount == old(r.refCount) + 1
      ensures r == null && hash in entriesByHash ==> entriesByHash[hash].refCount == old(entriesByHash[hash].refCount)
    {
      if hash !in entriesByHash {
        return null;
      }
      var e := entriesByHash[hash];
      if |queryString| != |e.queryString| || queryString != e.queryString {
        return null;
      }
      MapOfFind(list, hash);
      e.Use();
      return e;
    }

    /** `link`: append `e` at the tail of the list. */
    method Link(e: ResultEntry)
      requires ListValid() && e.prev == null && e.next == null
      requires forall k :: 0 <= k < |list| ==> list[k].hash != e.hash
      modifies this`numElements, this`head, this`tail, this`list, e`prev, (if tail == null then {} else {tail})`next
      ensures ListValid() && list == old(list) + [e]
    {
      UniqueAppend(list, e);
      numElements := numElements + 1;
      if head == null {
        head := e;
        tail := e;
        list := [e];
        return;
      }
      ghost var s := list;
      assert LinkedAt(s, |s| - 1);
      label Pre:
      tail.next := e;
      e.prev := tail;
      tail := e;
      list := list + [e];
      forall j | 0 <= j < |list|
        ensures LinkedAt(list, j)
      {
        if j < |s| {
          if j < |s| - 1 {
            Apart(s, j, |s| - 1);
          }
          assert list[j] == s[j] && old@Pre(LinkedAt(s, j));
        }
      }
    }

    /** `unlink`: take `e`, at position `k`, out of the list and clear its links. */
    method Unlink(e: ResultEntry, ghost k: nat)
      requires ListValid() && k < |list| && list[k] == e
      modifies this`numElements, this`head, this`tail, this`list, e`prev, e`next,
        (if e.prev == null then {} else {e.prev})`next, (if e.next == null then {} else {e.next})`prev
      ensures ListValid() && list == old(list[..k] + list[k + 1..])
      ensures e.prev == null && e.next == null
    {
      UniqueRemove(list, k);
      ghost var s := list;
      ghost var r := s[..k] + s[k + 1..];
      assert LinkedAt(s, k);
      if k != 0 {
        Apart(s, 0, k);
      }
      if k != |s| - 1 {
        Apart(s, |s| - 1, k);
      }
      label Pre:
      if e.prev != null {
        e.prev.next := e.next;
      }
      if e.next != null {
        e.next.prev := e.prev;
      }
      if head == e {
        head := e.next;
      }
      if tail == e {
        tail := e.prev;
      }
      e.prev := null;
      e.next := null;
      numElements := numElements - 1;
      list := r;
      forall j | 0 <= j < |r|
        ensures LinkedAt(r, j)
      {
        var i := if j < k then j else j + 1;
        Apart(s, i, k);
        if 0 < k && i != k - 1 {
          Apart(s, i, k - 1);
        }
        if k + 1 < |s| && i != k + 1 {
          Apart(s, i, k + 1);
        }
        assert r[j] == s[i] && old@Pre(LinkedAt(s, i));
      }
    }

    /**
     * One removal as `store`, `invalidate` and `enforceMaxResults` do it:
     * unlink the entry at position `k`, erase its hash and `tryDelete` it.
     * The entry `e` is passed in, as `enforceMaxResults` copies `_head` before
     * unlinking. `store` and `invalidate` instead read the entry through the
     * hash-map iterator after erasing it (QueryCache.cpp 209-210 and 294-297),
     * which is undefined behaviour in C++; the model takes the entry the
     * iterator pointed to, before the erase. Given `e`, the unlink, the erase
     * and the `tryDelete` change disjoint state, so their order here does not
     * change the outcome.
     */
    method Evict(e: ResultEntry, ghost k: nat, ghost gone: seq<ResultEntry>)
      requires Valid() && k < |list| && list[k] == e
      modifies this, e`prev, e`next, e`deletionRequested, e`destroyed,
        (if e.prev == null then {} else {e.prev})`next, (if e.next == null then {} else {e.next})`prev
      ensures Valid() && list == old(list[..k] + list[k + 1..])
      ensures entriesByHash == old(entriesByHash) - {e.hash}
      ensures entriesByCollection == old(entriesByCollection)
      ensures Evicted(e)
      ensures forall j :: 0 <= j < |gone| && old(Evicted(gone[j])) ==> Evicted(gone[j])
    {
      MapOfRemove(list, k);
      RegisteredRemove(list, k, entriesByCollection);
      AliveRemove(list, k);
      RemovedAbsent(list, k);
      e.TryDelete();
      entriesByHash := entriesByHash - {e.hash};
      Unlink(e, k);
    }

    /**
     * One round of `enforceMaxResults`: evict the oldest entry, `L[d]`, of
     * the list `L[d..]`; entries of `kept` that were evicted stay evicted.
     */
    method EvictOldest(ghost L: seq<ResultEntry>, ghost d: nat, ghost kept: seq<ResultEntry>)
      requires Valid() && d < |L| && list == L[d..]
      requires forall k :: 0 <= k < d ==> Evicted(L[k])
      modifies this, L`prev, L`next, {L[d]}`deletionRequested, {L[d]}`destroyed
      ensures Valid() && list == L[d + 1..]
      ensures entriesByHash == old(entriesByHash) - {L[d].hash}
      ensures entriesByCollection == old(entriesByCollection)
      ensures forall k :: 0 <= k <= d ==> Evicted(L[k])
      ensures forall j :: 0 <= j < |kept| && old(Evicted(kept[j])) ==> Evicted(kept[j])
      ensures d + 1 < |L| ==> tail == old(tail)
    {
      assert head == L[d] && LinkedAt(list, 0);
      assert head.prev == null && (head.next != null ==> head.next == L[d + 1]);
      Evict(head, 0, L + kept);
      assert list == L[d..][1..];
      forall j | 0 <= j < |kept|
        ensures (L + kept)[|L| + j] == kept[j]
      {
      }
    }

    /**
     * `enforceMaxResults`: evict the oldest entries until at most `value`
     * remain; entries of `kept` that were evicted stay evicted.
     */
    method EnforceMaxResults(value: nat, ghost kept: seq<ResultEntry>)
      requires Valid()
      modifies this, list`prev, list`next, list`deletionRequested, list`destroyed
      ensures Valid() && |list| == if |old(list)| > value then value else |old(list)|
      ensures forall k :: 0 <= k < |list| ==> list[k] == old(list)[|old(list)| - |list| + k]
      ensures entriesByCollection == old(entriesByCollection)
      ensures forall k :: 0 <= k < |old(list)| - |list| ==> Evicted(old(list)[k])
      ensures forall j :: 0 <= j < |kept| && old(Evicted(kept[j])) ==> Evicted(kept[j])
      ensures 1 <= value ==> tail == old(tail)
    {
      ghost var L := list;
      ghost var d := 0;
      while numElements > value
        invariant Valid() && d <= |L| && list == L[d..]
        invariant |list| >= value || list == L
        invariant entriesByCollection == old(entriesByCollection)
        invariant forall k :: 0 <= k < d ==> Evicted(L[k])
        invariant forall j :: 0 <= j < |kept| && old(Evicted(kept[j])) ==> Evicted(kept[j])
        invariant 1 <= value ==> tail == old(tail)
        decreases numElements
      {
        EvictOldest(L, d, kept);
        d := d + 1;
      }
      Trimmed(L, d, value);
    }

    /** What the loop of `enforceMaxResults` leaves of `L`, having dropped its first `d` entries. */
    static lemma Trimmed(L: seq<ResultEntry>, d: nat, value: nat)
      requires d <= |L| && |L| - d <= value && (|L| - d >= value || d == 0)
      ensures |L[d..]| == (if |L| > value then value else |L|) && d == |L| - |L[d..]|
      ensures forall k :: 0 <= k < |L[d..]| ==> L[d..][k] == L[|L| - |L[d..]| + k]
    {
    }

    /**
     * Erase the entry stored under `h`, if any, as `store` and
     * `invalidate` do: the list `L` with the entries of the hashes
     * `removed` already evicted loses the ones of `h` as well.
     */
    method EvictHash(h: uint64, ghost L: seq<ResultEntry>, ghost removed: set<uint64>, ghost kept: seq<ResultEntry>)
      requires Valid() && UniqueHashes(L) && list == Without(L, removed)
      requires forall k :: 0 <= k < |L| && L[k].hash in removed ==> Evicted(L[k])
      modifies this, L`prev, L`next, L`deletionRequested, L`destroyed
      ensures Valid() && list == Without(L, removed + {h})
      ensures entriesByHash == old(entriesByHash) - {h}
      ensures entriesByCollection == old(entriesByCollection)
      ensures forall k :: 0 <= k < |L| && L[k].hash in removed + {h} ==> Evicted(L[k])
      ensures forall j :: 0 <= j < |kept| && old(Evicted(kept[j])) ==> Evicted(kept[j])
    {
      WithoutUnion(L, removed, {h});
      if h in entriesByHash {
        EvictPresent(h, L, removed, kept);
      } else {
        MapOfAbsent(list, h);
        WithoutAbsent(list, h);
        if h !in removed {
          WithoutAbsentFrom(L, removed, h);
        }
        assert entriesByHash - {h} == entriesByHash;
      }
    }

    /** `EvictHash` when an entry with hash `h` is cached: that entry is the one evicted. */
    method EvictPresent(h: uint64, ghost L: seq<ResultEntry>, ghost removed: set<uint64>, ghost kept: seq<ResultEntry>)
      requires Valid() && UniqueHashes(L) && list == Without(L, removed) && h in entriesByHash
      requires forall k :: 0 <= k < |L| && L[k].hash in removed ==> Evicted(L[k])
      modifies this, L`prev, L`next, L`deletionRequested, L`destroyed
      ensures Valid() && list == Without(L, removed + {h})
      ensures entriesByHash == old(entriesByHash) - {h}
      ensures entriesByCollection == old(entriesByCollection)
      ensures forall k :: 0 <= k < |L| && L[k].hash in removed + {h} ==> Evicted(L[k])
      ensures forall j :: 0 <= j < |kept| && old(Evicted(kept[j])) ==> Evicted(kept[j])
    {
      WithoutUnion(L, removed, {h});
      var e := entriesByHash[h];
      MapOfFind(list, h);
      ghost var k :| 0 <= k < |list| && list[k] == e && e.hash == h;
      SoleWithHash(L, removed, k);
      WithoutUnique(list, k);
      WithoutSub(L, removed);
      assert e in L;
      assert LinkedAt(list, k);
      assert e.prev != null ==> e.prev == list[k - 1] && e.prev in L;
      assert e.next != null ==> e.next == list[k + 1] && e.next in L;
      ghost var gone := L + kept;
      Evict(e, k, gone);
      forall i | 0 <= i < |L| && L[i].hash in removed + {h}
        ensures Evicted(L[i])
      {
        if L[i].hash != h {
          assert gone[i] == L[i];
        }
      }
      forall j | 0 <= j < |kept|
        ensures gone[|L| + j] == kept[j]
      {
      }
    }

    /**
     * `invalidate(collection)`: evict every entry registered under
     * `collection` and drop the collection from the reverse index; nothing
     * happens when the collection is not registered. Afterwards no entry
     * reads the collection.
     */
    method Invalidate(collection: string, ghost kept: seq<ResultEntry>)
      requires Valid()
      modifies this, list`prev, list`next, list`deletionRequested, list`destroyed
      ensures Valid()
      ensures list == Without(old(list), Hashes(old(entriesByCollection), [collection]))
      ensures entriesByCollection == old(entriesByCollection) - {collection}
      ensures forall k :: 0 <= k < |list| ==> collection !in list[k].collections
      ensures forall k :: 0 <= k < |old(list)| && old(list)[k].hash in Hashes(old(entriesByCollection), [collection]) ==>
                Evicted(old(list)[k])
      ensures forall j :: 0 <= j < |kept| && old(Evicted(kept[j])) ==> Evicted(kept[j])
    {
      ghost var L := list;
      HashesOne(entriesByCollection, collection);
      WithoutNothing(list);
      if collection !in entriesByCollection {
        NotRegisteredNotRead(list, entriesByCollection, collection);
        assert entriesByCollection - {collection} == entriesByCollection;
        return;
      }
      var hs := entriesByCollection[collection];
      var todo := hs;
      while todo != {}
        invariant Valid() && todo <= hs && UniqueHashes(L)
        invariant list == Without(L, hs - todo)
        invariant entriesByCollection == old(entriesByCollection)
        invariant forall k :: 0 <= k < |L| && L[k].hash in hs - todo ==> Evicted(L[k])
        invariant forall j :: 0 <= j < |kept| && old(Evicted(kept[j])) ==> Evicted(kept[j])
        decreases todo
      {
        var h :| h in todo;
        EvictHash(h, L, hs - todo, kept);
        assert (hs - todo) + {h} == hs - (todo - {h});
        todo := todo - {h};
      }
      assert hs - todo == hs;
      WithoutRegistered(L, entriesByCollection, collection);
      RegisteredDropCollection(list, entriesByCollection, collection);
      entriesByCollection := entriesByCollection - {collection};
    }

    /** One round of `invalidate(collections)`: invalidate `collections[i]` after the ones before it. */
    method InvalidateNext(ghost L: seq<ResultEntry>, ghost index: map<string, set<uint64>>, collections: seq<string>, i: nat)
      requires Valid() && i < |collections| && UniqueHashes(L)
      requires list == Without(L, Hashes(index, collections[..i]))
      requires entriesByCollection == index - (set c | c in collections[..i])
      requires forall k :: 0 <= k < |list| ==> ReadsNone(list[k], collections[..i])
      requires forall k :: 0 <= k < |L| && L[k].hash in Hashes(index, collections[..i]) ==> Evicted(L[k])
      modifies this, L`prev, L`next, L`deletionRequested, L`destroyed
      ensures Valid()
      ensures list == Without(L, Hashes(index, collections[..i + 1]))
      ensures entriesByCollection == index - (set c | c in collections[..i]) - {collections[i]}
      ensures forall k :: 0 <= k < |list| ==> ReadsNone(list[k], collections[..i + 1])
      ensures forall k :: 0 <= k < |L| && L[k].hash in Hashes(index, collections[..i + 1]) ==> Evicted(L[k])
    {
      var c := collections[i];
      ghost var before := list;
      ghost var done := Hashes(index, collections[..i]);
      ghost var now := Hashes(entriesByCollection, [c]);
      HashesStep(index, collections[..i], c);
      TakeStep(collections, i, i + 1);
      WithoutUnion(L, done, now);
      WithoutSub(L, done);
      WithoutReadsNone(before, now, collections[..i]);
      assert forall k :: 0 <= k < |list| ==> list[k] in L;
      Invalidate(c, L);
      forall k | 0 <= k < |L| && L[k].hash in now && L[k].hash !in done
        ensures Evicted(L[k])
      {
        WithoutKeeps(L, done, k);
        var j :| 0 <= j < |before| && before[j] == L[k];
      }
    }

    /**
     * `invalidate(collections)`: invalidate each collection in turn. The
     * entries registered under any of them are evicted, all of them leave
     * the reverse index, and no remaining entry reads any of them.
     */
    method InvalidateAll(collections: seq<string>)
      requires Valid()
      modifies this, list`prev, list`next, list`deletionRequested, list`destroyed
      ensures Valid()
      ensures list == Without(old(list), Hashes(old(entriesByCollection), collections))
      ensures entriesByCollection == old(entriesByCollection) - (set c | c in collections)
      ensures forall k :: 0 <= k < |list| ==> ReadsNone(list[k], collections)
      ensures forall k :: 0 <= k < |old(list)| && old(list)[k].hash in Hashes(old(entriesByCollection), collections) ==>
                Evicted(old(list)[k])
    {
      ghost var L := list;
      ghost var index := entriesByCollection;
      WithoutNothing(L);
      assert collections[..0] == [];
      assert index - (set c | c in collections[..0]) == index;
      for i := 0 to |collections|
        invariant Valid()
        invariant list == Without(L, Hashes(index, collections[..i]))
        invariant entriesByCollection == index - (set c | c in collections[..i])
        invariant forall k :: 0 <= k < |list| ==> ReadsNone(list[k], collections[..i])
        invariant forall k :: 0 <= k < |L| && L[k].hash in Hashes(index, collections[..i]) ==> Evicted(L[k])
      {
        InvalidateNext(L, index, collections, i);
        DropStep(index, collections, i, i + 1);
      }
      assert collections[..|collections|] == collections;
    }

    /**
     * `store`: put `entry` into the cache under `hash`, releasing an entry
     * stored under the same hash, register `hash` under each collection the
     * entry reads, append the entry as the newest one and evict the oldest
     * entries beyond `maxResults`.
     */
    method Store(hash: uint64, entry: ResultEntry, maxResults: nat)
      requires Valid() && entry.hash == hash && 1 <= maxResults
      requires entry.prev == null && entry.next == null && !entry.destroyed && !entry.deletionRequested
      requires forall k :: 0 <= k < |list| ==> list[k] != entry
      modifies this, list`prev, list`next, list`deletionRequested, list`destroyed,
        entry`prev, entry`next, entry`deletionRequested, entry`destroyed
      ensures Valid()
      ensures list == Newest(Without(old(list), {hash}) + [entry], maxResults)
      ensures entriesByCollection == Register(old(entriesByCollection), entry.collections, hash)
      ensures hash in entriesByHash && entriesByHash[hash] == entry
      ensures numElements <= maxResults && tail == entry && entry.next == null
      ensures forall k :: 0 <= k < |old(list)| && old(list)[k].hash == hash ==> Evicted(old(list)[k])
      ensures forall k :: 0 <= k < |Without(old(list), {hash}) + [entry]| - |list| ==>
                Evicted((Without(old(list), {hash}) + [entry])[k])
    {
      ghost var L := list;
      WithoutNothing(L);
      EvictHash(hash, L, {}, []);
      assert {} + {hash} == {hash};
      WithoutSub(L, {hash});
      Add(entry, maxResults, L);
    }

    /**
     * `store` once no entry holds the hash of `e`: index and link `e`, then
     * evict the oldest entries beyond `maxResults`; entries of `kept` that
     * were evicted stay evicted.
     */
    method Add(e: ResultEntry, maxResults: nat, ghost kept: seq<ResultEntry>)
      requires Valid() && 1 <= maxResults
      requires e.prev == null && e.next == null && !e.destroyed && !e.deletionRequested
      requires forall k :: 0 <= k < |list| ==> list[k].hash != e.hash
      modifies this, list`prev, list`next, list`deletionRequested, list`destroyed,
        e`prev, e`next, e`deletionRequested, e`destroyed
      ensures Valid() && list == Newest(old(list) + [e], maxResults)
      ensures entriesByCollection == Register(old(entriesByCollection), e.collections, e.hash)
      ensures e.hash in entriesByHash && entriesByHash[e.hash] == e
      ensures numElements <= maxResults && tail == e && e.next == null
      ensures forall k :: 0 <= k < |old(list) + [e]| - |list| ==> Evicted((old(list) + [e])[k])
      ensures forall j :: 0 <= j < |kept| && old(Evicted(kept[j])) ==> Evicted(kept[j])
    {
      ghost var s := list;
      assert tail != null ==> tail == s[|s| - 1];
      Insert(e);
      ghost var w := list;
      assert forall k :: 0 <= k < |w| ==> w[k] == e || w[k] == s[k];
      assert tail == e;
      EnforceMaxResults(maxResults, kept);
      TailIndexed(e);
      NewestOf(list, w, maxResults);
    }

    /** The tail entry ends the list and is the one stored under its hash. */
    lemma TailIndexed(e: ResultEntry)
      requires Valid() && tail == e
      ensures e.next == null && e.hash in entriesByHash && entriesByHash[e.hash] == e
    {
      assert LinkedAt(list, |list| - 1);
      MapOfAt(list, |list| - 1);
    }

    /** The loop of `store` that adds the hash of `e` to the reverse index under each collection `e` reads. */
    method RegisterEntry(e: ResultEntry)
      modifies this`entriesByCollection
      ensures entriesByCollection == Register(old(entriesByCollection), e.collections, e.hash)
    {
      var index := entriesByCollection;
      for i := 0 to |e.collections|
        invariant index == Register(old(entriesByCollection), e.collections[..i], e.hash)
      {
        var c := e.collections[i];
        RegisterStep(old(entriesByCollection), e.collections, i, e.hash);
        index := index[c := (if c in index then index[c] else {}) + {e.hash}];
      }
      assert e.collections[..|e.collections|] == e.collections;
      entriesByCollection := index;
    }

    /** The part of `store` after the replaced entry is gone: index `e` under its hash and its collections and link it. */
    method Insert(e: ResultEntry)
      requires Valid() && e.prev == null && e.next == null && !e.destroyed && !e.deletionRequested
      requires forall k :: 0 <= k < |list| ==> list[k].hash != e.hash
      modifies this, e`prev, (if tail == null then {} else {tail})`next
      ensures Valid() && list == old(list) + [e]
      ensures entriesByHash == old(entriesByHash)[e.hash := e]
      ensures entriesByCollection == Register(old(entriesByCollection), e.collections, e.hash)
    {
      ghost var index := entriesByCollection;
      ghost var s := list;
      RegisterEntry(e);
      MapOfAppend(s, e);
      RegisterKeeps(s, index, e);
      AliveAppend(s, e);
      entriesByHash := entriesByHash[e.hash := e];
      label Pre:
      Link(e);
      assert list == s + [e];
      assert AllAlive(list) by {
        assert old@Pre(AllAlive(s + [e]));
      }
    }

    /** What the destructor needs: the hash map holds exactly the listed entries, all alive. */
    ghost predicate Releasable()
      reads this`entriesByHash, this`list, list`destroyed, list`deletionRequested
    {
      entriesByHash == MapOf(list) && UniqueHashes(list) && AllAlive(list)
    }

    /** Every entry this cache listed has been marked for deletion. */
    ghost predicate Released()
      reads this`list, list`deletionRequested, list`destroyed, list`refCount
    {
      forall k :: 0 <= k < |list| ==> Evicted(list[k])
    }

    /**
     * The destructor: `tryDelete` every stored entry, then clear both maps.
     * The list links are left as they are, since the entries go with it.
     */
    method Destroy()
      requires Releasable()
      modifies this`entriesByHash, this`entriesByCollection, list`deletionRequested, list`destroyed
      ensures entriesByHash == map[] && entriesByCollection == map[]
      ensures Released()
    {
      ghost var m := entriesByHash;
      var todo := entriesByHash.Keys;
      forall k | 0 <= k < |list|
        ensures list[k].hash in todo
      {
        MapOfAt(list, k);
      }
      while todo != {}
        invariant todo <= m.Keys && entriesByHash == m == MapOf(list) && UniqueHashes(list)
        invariant forall k :: 0 <= k < |list| ==>
                    if list[k].hash in todo then !list[k].destroyed && !list[k].deletionRequested else Evicted(list[k])
        decreases todo
      {
        var h :| h in todo;
        var e := entriesByHash[h];
        MapOfFind(list, h);
        ghost var k :| 0 <= k < |list| && list[k] == e && e.hash == h;
        forall j | 0 <= j < |list| && j != k
          ensures list[j] != e && list[j].hash != h
        {
          Apart(list, j, k);
        }
        e.TryDelete();
        todo := todo - {h};
      }
      entriesByHash := map[];
      entriesByCollection := map[];
    }
  }
}
