# ArangoDB core structures, modelled in Dafny

This project models six pieces of ArangoDB, each in its own form:

- **The AQL query result cache** (`arangod/Aql/QueryCache.cpp`). It keeps one cache per
  database. Each cache is a doubly linked list of result entries, ordered oldest first. A
  hash index maps a query hash to its entry, and a collection index maps each collection
  name to the hashes of the queries that read it. The module handles lookup, store
  (replacing an entry with the same hash, then evicting the oldest beyond the maximum),
  invalidation by collection, by database and of everything, the mode, and the maximum.
  Each result entry carries a reference count. An entry is deleted when eviction has
  asked for that and no reader holds it. Every class and list update is modelled in
  place.
- **`AssocMulti`** (`lib/Basics/AssocMulti.h`). This is a sharded, open-addressing multi-hash
  table. It is modelled on arrays:
  - The first element of each key sits at the first free slot after its key hash. The
    other elements of that key sit at the first free slot after their own element hash.
  - Each slot carries `prev`/`next` indices that link the elements of one key.
  - Insert, lookup, lookup by key with paging, remove (which heals the probe run behind
    the freed slot), growth, and resize are proved against an abstract contents map from
    each key to its elements, head first. Module `AssocMultiSpec` defines that map.
- **Fulltext query parsing** (`arangod/FulltextIndex/fulltext-query.cpp`). This splits a
  query string into words:
  - an optional `+`/`|`/`-` operation sign;
  - `prefix:` or `complete:` matching, in any letter case;
  - the stop conditions and result codes of `TRI_ParseQueryFulltextIndex`;
  - what it stores in the query's word, match and operation arrays.
- **The Pregel message queue** (`js/server/modules/org/arangodb/pregel/messagequeue.js`). This
  covers the per-vertex incoming queue (count, hasNext, next, fill, clear, sendTo) and the
  per-shard outgoing containers that `_send` fills, with or without an aggregate function.
- **Foxx session option normalisation** (`js/server/modules/org/arangodb/foxx/sessions.js`).
  This is the `Sessions` constructor's rewriting of its options record: type, cookie,
  header, JWT and the two defaults, with every error it throws. JavaScript values are
  modelled by `JsValues`.
- **MVCC transaction ids** (`arangod/Mvcc/TransactionId.cpp`). This covers equality and
  ordering.

Parameters stand in for:

- the hash functions (`Hasher`) and `TRI_NearPrime` (`nearPrime`);
- word normalisation (`normalise`);
- `crypto.jwtCanonicalAlgorithmName` (`canonicalAlgorithmName`);
- `pregel.getLocationObject`.

Database handles are the opaque type `Vocbase`, and query hashes are `uint64` values.

## Model

| member | source | states |
|---|---|---|
| TransactionId.Equal | arangod/Mvcc/TransactionId.cpp:49-52 | two ids are equal exactly when they are the same id: the number they wrap is all that is compared |
| TransactionId.EqualRaw | arangod/Mvcc/TransactionId.cpp:54-57 | an id equals a raw number exactly when it is the id wrapping that number |
| TransactionId.NotEqual | arangod/Mvcc/TransactionId.cpp:59-62 | two ids differ exactly when they are not the same id |
| TransactionId.Less | arangod/Mvcc/TransactionId.cpp:64-67 | an id below another differs from it, and of two differing ids that are not in `<` order the other is below |
| TransactionId.EqualRawAgreesWithEqual | arangod/Mvcc/TransactionId.cpp:49-57 | comparing with a raw id gives the same answer as comparing with the id object that wraps it |
| TransactionId.EqualIsEquivalence | arangod/Mvcc/TransactionId.cpp:49-52 | `==` is reflexive, symmetric and transitive |
| TransactionId.NotEqualIsNegation | arangod/Mvcc/TransactionId.cpp:49-62 | `!=` holds exactly when `==` does not |
| TransactionId.LessIsStrictOrder | arangod/Mvcc/TransactionId.cpp:64-67 | `<` is irreflexive, transitive and asymmetric |
| TransactionId.Trichotomy | arangod/Mvcc/TransactionId.cpp:49-67 | exactly one of `a < b`, `a == b`, `b < a` holds |
| TransactionId.LessRespectsEqual | arangod/Mvcc/TransactionId.cpp:49-67 | replacing an id by an equal one does not change `<` on either side |
| FoxxSessions.ApplyType | js/server/modules/org/arangodb/foxx/sessions.js:160-174 | a `type` other than cookie/header fails with the unsupported-type error; otherwise `type: 'cookie'` defaults the cookie to `true` and removes the header option, and `type: 'header'` does the reverse; no other field changes |
| FoxxSessions.NormaliseCookie | js/server/modules/org/arangodb/foxx/sessions.js:176-192 | a falsy cookie leaves the options unchanged; a cookie that is not `true`, a string or an object fails; otherwise a non-string name or secret fails with its own error, and on success the cookie is an object whose name is a non-empty string (`'sid'` by default) and whose secret, if truthy, is a string; no other field changes |
| FoxxSessions.NormaliseHeader | js/server/modules/org/arangodb/foxx/sessions.js:193-199 | it fails exactly when the header is truthy but neither `true` nor a string; `true` becomes `'X-Session-Id'`, and any other value is kept; no other field changes |
| FoxxSessions.NormaliseJwt | js/server/modules/org/arangodb/foxx/sessions.js:200-233 | a falsy `jwt` leaves the options unchanged; one that is not `true`, a string or an object fails; otherwise the result is exactly `JwtSettingsOf` of its settings object, an error included; no other field changes |
| FoxxSessions.JwtSettings | js/server/modules/org/arangodb/foxx/sessions.js:213-232 | the method's result equals the reference function `JwtSettingsOf` |
| FoxxSessions.JwtSettingsOf | js/server/modules/org/arangodb/foxx/sessions.js:213-232 | it fails exactly when there is no secret and the algorithm is other than `none`, or the secret is not a string, or the algorithm is rejected, each with its own error; on success `verify` is true unless it was `false`; no secret gives secret `''` and algorithm `none`; a string secret is kept, and the algorithm becomes its canonical name, defaulting to `HS256`; no other field changes |
| FoxxSessions.ApplyDefaults | js/server/modules/org/arangodb/foxx/sessions.js:234-248 | it fails, with a TypeError, exactly when the options are a primitive value and `autoCreateSession` is not `false`; on success `autoCreateSession` is a boolean that is true unless it was `false`; `sessionStorage` falls back to `sessionStorageApp`, then to `'/_system/sessions'` |
| FoxxSessions.RewriteOptions | js/server/modules/org/arangodb/foxx/sessions.js:159-233 | the type, cookie, header and JWT steps in order. It fails exactly when one of those options is rejected, with the first rejection's error. On success it gives each rewritten option in terms of the input and leaves every other property unchanged |
| FoxxSessions.Normalise | js/server/modules/org/arangodb/foxx/sessions.js:155-250 | the whole constructor normalisation. It fails exactly when the type, the cookie, the header or the JWT option is rejected, or when a primitive options value would be written to. The error is the first of these in the constructor's order. A successful result gives the final cookie, header, JWT settings (`verify`, secret and algorithm, as JwtSettingsOf), `autoCreateSession` and `sessionStorage` in terms of the input. Cookie and header exclude each other under `type`, and every field it does not handle is unchanged |
| PregelMessageQueue.MakeMessage | js/server/modules/org/arangodb/pregel/messagequeue.js:249-254 | the message is an object carrying `data`, and it carries `sender` exactly when a location is attached |
| PregelMessageQueue.PlainItems | js/server/modules/org/arangodb/pregel/messagequeue.js:160-162 | a `plain` array contributes its elements in order, and a falsy `plain` contributes nothing |
| PregelMessageQueue.ContainerObject | js/server/modules/org/arangodb/pregel/messagequeue.js:318-335 | a container has an `a` property exactly when an aggregate value is held, and a `plain` array exactly when plain messages are held |
| PregelMessageQueue.DeliverTouchesOneContainer | js/server/modules/org/arangodb/pregel/messagequeue.js:318-335 | sending changes only the target shard's target vertex container and keeps every shard entry |
| PregelMessageQueue.DeliverPlainStep | js/server/modules/org/arangodb/pregel/messagequeue.js:326-328 | a message with a sender, or any message without an aggregate function, is appended to the container's `plain` list |
| PregelMessageQueue.PlainMessagesKeepOrder | js/server/modules/org/arangodb/pregel/messagequeue.js:326-328 | the plain messages sent to a fresh container are all kept, in sending order |
| PregelMessageQueue.AggregatedMessagesFold | js/server/modules/org/arangodb/pregel/messagequeue.js:329-335 | with an aggregate function, sender-less messages to a fresh container fold into one value: the first data, then `aggregate(data, a)` for each later one; no `plain` list is created |
| PregelMessageQueue.VertexMessageQueue.constructor | js/server/modules/org/arangodb/pregel/messagequeue.js:40-45 | a new queue belongs to its parent, is empty, and has its read position at 0 |
| PregelMessageQueue.VertexMessageQueue.Count | js/server/modules/org/arangodb/pregel/messagequeue.js:70-72 | the count is the number of queued messages |
| PregelMessageQueue.VertexMessageQueue.HasNext | js/server/modules/org/arangodb/pregel/messagequeue.js:96-98 | true exactly when the read position is before the end |
| PregelMessageQueue.VertexMessageQueue.Next | js/server/modules/org/arangodb/pregel/messagequeue.js:122-129 | it returns the message at the read position and advances past it, or returns null and stays put at the end |
| PregelMessageQueue.VertexMessageQueue.Fill | js/server/modules/org/arangodb/pregel/messagequeue.js:156-163 | the container's items are appended and earlier messages are kept |
| PregelMessageQueue.VertexMessageQueue.Clear | js/server/modules/org/arangodb/pregel/messagequeue.js:189-192 | the queue is empty with its read position at 0 |
| PregelMessageQueue.VertexMessageQueue.SendTo | js/server/modules/org/arangodb/pregel/messagequeue.js:233-257 | it fails, leaving the output unchanged, with NO_TARGET_PROVIDED exactly when the target is neither a vertex-id string nor an object with `_id` and `shard`, and with a TypeError exactly when a vertex-id string resolves to `null` or `undefined` (js:321); otherwise the message, with the sender location unless `sendLocation` is `false`, is delivered to the resolved target's container |
| PregelMessageQueue.VertexStep | js/server/modules/org/arangodb/pregel/messagequeue.js:270-278 | one more vertex adds its id and makes its location the last one recorded for that id, leaving other ids alone |
| PregelMessageQueue.LastLocationIsLast | js/server/modules/org/arangodb/pregel/messagequeue.js:270-278 | a vertex queue gets the location of the last vertex with that id |
| PregelMessageQueue.Queue.constructor | js/server/modules/org/arangodb/pregel/messagequeue.js:261-281 | the queue lists the vertex ids in order; it has one fresh, empty vertex queue per distinct id, holding the last location given for it; the output is empty and the step is 0 |
| PregelMessageQueue.Queue.Send | js/server/modules/org/arangodb/pregel/messagequeue.js:318-337 | the output becomes the old output with the message delivered to the target's shard and id |
| PregelMessageQueue.FillReadsContainer | js/server/modules/org/arangodb/pregel/messagequeue.js:156-163 | filling from a container yields its aggregate value, if any, as a message, followed by its plain messages |
| PregelMessageQueue.FillAsWrittenDropsFalsyAggregate | js/server/modules/org/arangodb/pregel/messagequeue.js:157 | the truthiness test of `_fill` loses an aggregate value of 0, while the corrected `FillItems` keeps it |
| QueryCacheDatabase.ModeString | arangod/Aql/QueryCache.cpp:474-486 | the mode's name parses back to the same mode |
| QueryCacheDatabase.ModeFromString | arangod/Aql/QueryCache.cpp:721-731 | `"demand"` gives on-demand, `"on"` gives always-on, and anything else gives off |
| QueryCacheDatabase.MayBeActive | arangod/Aql/QueryCache.cpp:458-460 | the cache may be active exactly in the always-on and on-demand modes |
| QueryCacheDatabase.MayBeActiveByName | arangod/Aql/QueryCache.cpp:458-460 | of the mode names, exactly `"on"` and `"demand"` select a mode in which the cache may be active |
| QueryCacheDatabase.ResultEntry.constructor | arangod/Aql/QueryCache.cpp:72-92 | the entry holds its hash, query, result, collections and database, is unlinked and unreferenced, and has no deletion request |
| QueryCacheDatabase.ResultEntry.TryDelete | arangod/Aql/QueryCache.cpp:107-113 | deletion is requested, and the entry is destroyed exactly when no reader holds it |
| QueryCacheDatabase.ResultEntry.Use | arangod/Aql/QueryCache.cpp:119-121 | the reference count goes up by one |
| QueryCacheDatabase.ResultEntry.Unuse | arangod/Aql/QueryCache.cpp:127-133 | the count goes down by one, and the entry is destroyed exactly when it reaches zero after a deletion request |
| QueryCacheDatabase.Without | arangod/Aql/QueryCache.cpp:279-302 | removing a set of hashes never lengthens the list and leaves no entry with one of those hashes |
| QueryCacheDatabase.Newest | arangod/Aql/QueryCache.cpp:308-320 | at most `m` entries are kept |
| QueryCacheDatabase.NewestSuffix | arangod/Aql/QueryCache.cpp:308-320 | the entries kept are the newest ones, in order |
| QueryCacheDatabase.Register | arangod/Aql/QueryCache.cpp:217-228 | afterwards every collection of the query maps to a set that includes the hash, and nothing else changes |
| QueryCacheDatabase.Hashes | arangod/Aql/QueryCache.cpp:279-302 | a hash is invalidated exactly when one of the given collections lists it |
| QueryCacheDatabase.WithoutUnion | arangod/Aql/QueryCache.cpp:279-302 | invalidating two sets of hashes one after the other equals invalidating their union |
| QueryCacheDatabase.WithoutUnique | arangod/Aql/QueryCache.cpp:204-214 | removing the hash of a listed entry removes exactly that entry |
| QueryCacheDatabase.MapOfRemove | arangod/Aql/QueryCache.cpp:204-214 | unlinking an entry from the list removes exactly its hash from the hash index |
| QueryCacheDatabase.HashesStep | arangod/Aql/QueryCache.cpp:279-302 | invalidating the collections one at a time, each against the index left by the previous ones, removes the same hashes as invalidating them all at once |
| QueryCacheDatabase.DatabaseEntry.constructor | arangod/Aql/QueryCache.cpp:143-152 | a new database cache is empty and well formed |
| QueryCacheDatabase.DatabaseEntry.Lookup | arangod/Aql/QueryCache.cpp:171-194 | it finds an entry exactly when the hash is present with the same query string, and then takes a reference to it; on a miss the stored entry's reference count is unchanged |
| QueryCacheDatabase.DatabaseEntry.Link | arangod/Aql/QueryCache.cpp:364-383 | the entry is appended at the newest end of the list |
| QueryCacheDatabase.DatabaseEntry.Unlink | arangod/Aql/QueryCache.cpp:338-358 | the entry leaves the list, the others keep their order, and its links are cleared |
| QueryCacheDatabase.DatabaseEntry.Evict | arangod/Aql/QueryCache.cpp:313-318 | the entry leaves the list and the hash index and is marked for deletion; the collection index is unchanged |
| QueryCacheDatabase.DatabaseEntry.EvictOldest | arangod/Aql/QueryCache.cpp:309-319 | the oldest entry is evicted and the newest stays last |
| QueryCacheDatabase.DatabaseEntry.EnforceMaxResults | arangod/Aql/QueryCache.cpp:308-320 | only the newest `value` entries remain, in order, and every dropped one is evicted |
| QueryCacheDatabase.DatabaseEntry.EvictHash | arangod/Aql/QueryCache.cpp:204-214 | the entry with the hash, if any, is evicted and removed from the list and the hash index |
| QueryCacheDatabase.DatabaseEntry.EvictPresent | arangod/Aql/QueryCache.cpp:206-210 | when an entry with the hash is cached, it is the only listed entry with that hash; it is evicted, and every entry evicted before stays evicted |
| QueryCacheDatabase.DatabaseEntry.Invalidate | arangod/Aql/QueryCache.cpp:279-302 | every entry that reads the collection is evicted, the collection leaves the index, and no remaining entry reads it |
| QueryCacheDatabase.DatabaseEntry.InvalidateNext | arangod/Aql/QueryCache.cpp:268-272 | one more collection of the list has been invalidated |
| QueryCacheDatabase.DatabaseEntry.InvalidateAll | arangod/Aql/QueryCache.cpp:268-272 | every entry that reads any of the collections is evicted, and those collections leave the index |
| QueryCacheDatabase.DatabaseEntry.Store | arangod/Aql/QueryCache.cpp:200-261 | an entry with the same hash is replaced, the new entry becomes the newest and is indexed by hash and by each collection, and the list is cut to the maximum |
| QueryCacheDatabase.DatabaseEntry.Add | arangod/Aql/QueryCache.cpp:252-260 | the entry is appended and indexed, then the oldest ones are evicted down to the maximum |
| QueryCacheDatabase.DatabaseEntry.RegisterEntry | arangod/Aql/QueryCache.cpp:217-228 | the entry's hash is recorded under each collection it reads |
| QueryCacheDatabase.DatabaseEntry.Insert | arangod/Aql/QueryCache.cpp:200-252 | the entry is appended and indexed by hash and by collection |
| QueryCacheDatabase.DatabaseEntry.Destroy | arangod/Aql/QueryCache.cpp:158-165 | both indexes are empty and every entry has been asked to delete itself |
| QueryCache.StoredFrom | arangod/Aql/QueryCache.cpp:200-260 | after a store, the list holds only the new entry and entries that were already there |
| QueryCache.QueryCache.constructor | arangod/Aql/QueryCache.cpp:397-402 | the cache starts empty, in the default mode, with the default maximum |
| QueryCache.QueryCache.Properties | arangod/Aql/QueryCache.cpp:434-439 | the reported mode name parses back to the mode, and the maximum is reported as it is |
| QueryCache.QueryCache.Lookup | arangod/Aql/QueryCache.cpp:492-507 | it finds an entry exactly when the database has one for the hash with the same query string, and then takes a reference to it; on a miss the stored entry's reference count is unchanged |
| QueryCache.QueryCache.Store | arangod/Aql/QueryCache.cpp:515-546 | a result that is not an array is not stored; otherwise the new entry is indexed and newest in its database, an older entry with the same hash is evicted, and the list is cut to the maximum; other databases are untouched |
| QueryCache.QueryCache.StoreNew | arangod/Aql/QueryCache.cpp:534-545 | the entry is stored in its database's cache, which is created if missing |
| QueryCache.QueryCache.StoreEntry | arangod/Aql/QueryCache.cpp:544 | the entry is stored in an existing database cache |
| QueryCache.QueryCache.DatabaseFor | arangod/Aql/QueryCache.cpp:534-541 | it returns the database's cache, creating a fresh empty one when missing |
| QueryCache.QueryCache.InvalidateCollections | arangod/Aql/QueryCache.cpp:552-565 | every entry of the database that reads one of the collections is evicted, those collections leave its index, and no remaining entry reads them |
| QueryCache.QueryCache.InvalidateCollection | arangod/Aql/QueryCache.cpp:571-584 | the same, for one collection |
| QueryCache.QueryCache.InvalidateDatabase | arangod/Aql/QueryCache.cpp:590-610 | the database's cache is removed and all its entries are evicted |
| QueryCache.QueryCache.InvalidateAll | arangod/Aql/QueryCache.cpp:616-626 | every cache is removed and every entry is evicted |
| QueryCache.QueryCache.SetMaxResults | arangod/Aql/QueryCache.cpp:690-700 | 0 is ignored; otherwise the maximum takes the value and every database keeps only its newest entries up to it (corrected behaviour, see Findings) |
| QueryCache.QueryCache.EnforceMaxResults | arangod/Aql/QueryCache.cpp:655-663 | every database keeps only its newest `value` entries, and the dropped ones are evicted |
| QueryCache.QueryCache.LowerBound | arangod/Aql/QueryCache.cpp:695-699 | the maximum becomes the value after every database has been cut to it |
| QueryCache.QueryCache.RaiseBound | arangod/Aql/QueryCache.cpp:695-699 | raising the maximum keeps every list, because each already fits |
| QueryCache.QueryCache.SetMode | arangod/Aql/QueryCache.cpp:706-715 | the same mode changes nothing; a different mode empties the cache first |
| QueryCache.QueryCache.SetModeString | arangod/Aql/QueryCache.cpp:721-731 | the mode becomes the parsed name, with the same emptying rule |
| QueryCache.QueryCache.SetProperties | arangod/Aql/QueryCache.cpp:445-450 | the mode is set, then the maximum |
| QueryCache.ReleaseAll | arangod/Aql/QueryCache.cpp:678-684 | every database cache is released |
| QueryCache.ReleaseDatabase | arangod/Aql/QueryCache.cpp:678-684 | the dropped cache is released, and the other caches stay releasable |
| QueryCache.TrimOne | arangod/Aql/QueryCache.cpp:659-661 | one database keeps only its newest entries, and the others are unchanged |
| QueryCache.TrimmedAll | arangod/Aql/QueryCache.cpp:655-663 | after the loop, every database holds exactly the newest `value` of its original entries, and the rest are evicted |
| QueryCache.NewBound | arangod/Aql/QueryCache.cpp:690-699 | the new maximum is either the old one (for 0) or the value, and it is never 0 unless both are |
| QueryCache.KeptAfterSetMaxResults | arangod/Aql/QueryCache.cpp:690-700 | a database never keeps more entries than it had, nor more than the new maximum |
| QueryCache.KeptIsNewest | arangod/Aql/QueryCache.cpp:690-700 | the count kept after setting the maximum is the length of the newest-entries suffix under the new bound |
| QueryCache.KeptAfterSetMaxResultsAsWritten | arangod/Aql/QueryCache.cpp:695-697 | as written, a database within the old maximum keeps all its entries |
| QueryCache.SetMaxResultsAsWrittenExceedsBound | arangod/Aql/QueryCache.cpp:695-697 | as written, lowering the maximum below a database's size leaves it above the new maximum, while the corrected count meets it |
| FulltextQuery.ParseOperation | arangod/FulltextIndex/fulltext-query.cpp:44-54 | `|` gives OR, `-` gives EXCLUDE, and anything else gives AND |
| FulltextQuery.RunLength | arangod/FulltextIndex/fulltext-query.cpp:217-227 | the run is the longest separator-free prefix |
| FulltextQuery.TokensAreWords | arangod/FulltextIndex/fulltext-query.cpp:199-202 | every token is non-empty and has no separator |
| FulltextQuery.SeparatorsOnlyHaveNoTokens | arangod/FulltextIndex/fulltext-query.cpp:199-202 | a string made only of separators has no token |
| FulltextQuery.TokensOfJoined | arangod/FulltextIndex/fulltext-query.cpp:188-228 | splitting words joined by spaces gives back the words |
| FulltextQuery.FirstColon | arangod/FulltextIndex/fulltext-query.cpp:223-225 | the index of the first `:`, or none exactly when there is none |
| FulltextQuery.ParseTerm | arangod/FulltextIndex/fulltext-query.cpp:205-251 | a parsed word is non-empty, and its operation follows the token's first character |
| FulltextQuery.ParseBody | arangod/FulltextIndex/fulltext-query.cpp:215-251 | a parsed body has a non-empty word and keeps the given operation |
| FulltextQuery.Accepted | arangod/FulltextIndex/fulltext-query.cpp:255-264 | parsing stops at the first token that is not stored, or at the word limit, and every token before it is stored |
| FulltextQuery.AcceptedSkip | arangod/FulltextIndex/fulltext-query.cpp:255-264 | counting may resume after any stored prefix |
| FulltextQuery.BlankQueryRejected | arangod/FulltextIndex/fulltext-query.cpp:181-184 | an empty or all-separator query gives BAD_PARAMETER |
| FulltextQuery.ParseSucceedsIff | arangod/FulltextIndex/fulltext-query.cpp:181-272 | the parse succeeds exactly when there is a token and every token up to the word limit parses, fits and normalises |
| FulltextQuery.FormattedIsToken | arangod/FulltextIndex/fulltext-query.cpp:205-251 | a formatted word is one token |
| FulltextQuery.PrefixBody | arangod/FulltextIndex/fulltext-query.cpp:230-243 | `prefix:` followed by a word parses as a prefix match of that word |
| FulltextQuery.ParseFormattedTerm | arangod/FulltextIndex/fulltext-query.cpp:205-251 | round trip: formatting a word and parsing the token gives back the word, its match kind and its operation |
| FulltextQuery.ParseFormattedPrefix | arangod/FulltextIndex/fulltext-query.cpp:205-251 | the round trip for prefix matches |
| FulltextQuery.ParseFormattedComplete | arangod/FulltextIndex/fulltext-query.cpp:205-251 | the round trip for complete matches |
| FulltextQuery.ParseFormattedQuery | arangod/FulltextIndex/fulltext-query.cpp:173-272 | round trip: a query formatted from up to 32 words parses successfully into exactly those words |
| FulltextQuery.ScanWord | arangod/FulltextIndex/fulltext-query.cpp:215-228 | the scan stops at the next separator or the end, and reports the first `:` before it |
| FulltextQuery.ScannedTerm | arangod/FulltextIndex/fulltext-query.cpp:205-251 | the scanned token parses as the reference `ParseTerm` says |
| FulltextQuery.StopsAt | arangod/FulltextIndex/fulltext-query.cpp:230-258 | a malformed token gives BAD_PARAMETER, and a word that does not fit or normalise gives OUT_OF_MEMORY; only the latter clears its position when it fits |
| FulltextQuery.EmptyQuery | arangod/FulltextIndex/fulltext-query.cpp:181-184 | the empty string gives BAD_PARAMETER and stores nothing |
| FulltextQuery.EndsAfter | arangod/FulltextIndex/fulltext-query.cpp:260-272 | running out of tokens or reaching the word limit succeeds, unless no word was stored |
| FulltextQuery.Query.constructor | arangod/FulltextIndex/fulltext-query.cpp:106-143 | a query has room for `numWords` words, all cleared |
| FulltextQuery.Query.SetQuery | arangod/FulltextIndex/fulltext-query.cpp:280-304 | it succeeds exactly for a position within range and a word that normalises; only that position changes; a failed normalisation clears it |
| FulltextQuery.Query.ParseToken | arangod/FulltextIndex/fulltext-query.cpp:196-260 | it consumes exactly one token, fails exactly as `ParseTerm` and `TermStored` say, and stores the word on success |
| FulltextQuery.Query.ParseStep | arangod/FulltextIndex/fulltext-query.cpp:188-265 | one token of the main loop keeps the arrays equal to the reference stored prefix |
| FulltextQuery.Query.Parse | arangod/FulltextIndex/fulltext-query.cpp:173-273 | the result code is `ParseCode` of the string, it is never a substring query, and the arrays hold exactly the accepted words, match kinds and operations (with the failed position cleared when it must be) |
| AssocMultiTable.Incr | lib/Basics/AssocMulti.h:858-861 | stepping to the next slot stays inside the table |
| AssocMultiTable.Home | lib/Basics/AssocMulti.h:328-329 | a hash maps to a slot of the table |
| AssocMultiTable.IncrDist | lib/Basics/AssocMulti.h:858-861 | each step moves one slot further from the start, wrapping round at the end |
| AssocMultiTable.DistInjective | lib/Basics/AssocMulti.h:858-861 | two slots are at the same distance from a start only if they are the same slot |
| AssocMultiTable.DistAdd | lib/Basics/AssocMulti.h:858-861 | distances add modulo the table size |
| AssocMultiTable.IsBetween | lib/Basics/AssocMulti.h:1112-1121 | as the source's comment promises: always true when `from == to`, and otherwise false for `x == from`; the general case is IsBetweenDist |
| AssocMultiTable.IsBetweenDist | lib/Basics/AssocMulti.h:1112-1121 | the cyclic `isBetween` test agrees with comparing distances from `from` |
| AssocMultiSpec.FindIdAt | lib/Basics/AssocMulti.h:1066-1106 | among elements with distinct identities, searching for an element's identity finds that element |
| AssocMultiSpec.LookupFinds | lib/Basics/AssocMulti.h:547-558 | `lookup` returns a stored element exactly for the elements equal to it |
| AssocMultiSpec.LookupSound | lib/Basics/AssocMulti.h:547-558 | what `lookup` returns is stored under the element's key and equal to it |
| AssocMultiSpec.InsertLookup | lib/Basics/AssocMulti.h:299-416 | insert returns what `lookup` found before; afterwards the element is found, unless an equal one was kept because overwrite was off; every other element is found as before |
| AssocMultiSpec.InsertContentsOk | lib/Basics/AssocMulti.h:299-416 | insert keeps the contents well formed: every key is non-empty and has distinct identities |
| AssocMultiSpec.InsertOtherId | lib/Basics/AssocMulti.h:385-415 | inserting does not change the lookup of another element with the same key |
| AssocMultiSpec.RemoveLookup | lib/Basics/AssocMulti.h:723-790 | remove returns what `lookup` found before; afterwards the element is not found, and every other element is found as before |
| AssocMultiSpec.InsertRemove | lib/Basics/AssocMulti.h:299-416 | removing a freshly inserted element restores the contents and returns that element |
| AssocMultiSpec.ByKeyLookup | lib/Basics/AssocMulti.h:564-605 | `lookupByKey` returns exactly the stored elements of the key, at most `limit` of them unless `limit` is 0 |
| AssocMultiSpec.ContinuePages | lib/Basics/AssocMulti.h:660-706 | continuing after the last element of a limited first page yields the rest of the key's elements |
| AssocMultiSpec.ElemsOk | lib/Basics/AssocMulti.h:932-1025 | a well-formed table has well-formed contents |
| AssocMultiSteps.ChainSlot | lib/Basics/AssocMulti.h:932-1025 | each used slot lies in its key's chain; it is the head exactly when it has no `prev`; its cached hash is the key hash for a head and the element hash otherwise |
| AssocMultiSteps.HeadReached | lib/Basics/AssocMulti.h:1071-1087 | a key's head is the only head with that key and is reached from the key's home slot through used slots |
| AssocMultiSteps.KeyAbsent | lib/Basics/AssocMulti.h:1071-1087 | a key without a chain has no element in the table |
| AssocMultiSteps.MemberReached | lib/Basics/AssocMulti.h:1033-1060 | a non-head element is reached from its element hash's home through used slots |
| AssocMultiSteps.OccupiedBound | lib/Basics/AssocMulti.h:453-459 | the table never has more used slots than slots |
| AssocMultiSteps.FreeSlot | lib/Basics/AssocMulti.h:453-459 | a table that is not full has a free slot |
| AssocMultiSteps.InsertHeadOk | lib/Basics/AssocMulti.h:332-365 | putting a new key's element in the first free slot after its home keeps the table well formed and adds a one-element chain |
| AssocMultiSteps.InsertMemberOk | lib/Basics/AssocMulti.h:402-415 | splicing a new element in right after its key's head keeps the table well formed |
| AssocMultiSteps.OverwriteOk | lib/Basics/AssocMulti.h:371-377 | overwriting an equal element in place keeps the table well formed |
| AssocMultiHeal.Moved | lib/Basics/AssocMulti.h:1135-1147 | moving an entry keeps the table's size |
| AssocMultiHeal.MoveOk | lib/Basics/AssocMulti.h:1135-1147 | moving an entry to a free slot and relinking its neighbours keeps every chain and its elements |
| AssocMultiHeal.RemoveLoneOk | lib/Basics/AssocMulti.h:742-754 | freeing the only element of a key removes the key |
| AssocMultiHeal.RemoveHeadOk | lib/Basics/AssocMulti.h:755-766 | removing a head promotes its successor to be the new head |
| AssocMultiHeal.RemoveMemberOk | lib/Basics/AssocMulti.h:768-783 | unlinking a non-head element removes exactly it from its chain |
| AssocMultiHeal.HealInit | lib/Basics/AssocMulti.h:1153-1175 | the healing invariant holds when healing starts behind the hole |
| AssocMultiHeal.HealExit | lib/Basics/AssocMulti.h:1153-1175 | reaching a free slot ends healing with a well-formed table |
| AssocMultiHeal.HealKeep | lib/Basics/AssocMulti.h:1153-1175 | an entry whose home lies between the hole and itself stays put, and the invariant holds one slot on |
| AssocMultiHeal.HealMove | lib/Basics/AssocMulti.h:1153-1175 | any other entry may be moved into the hole |
| AssocMultiProbe.HeadProbeExit | lib/Basics/AssocMulti.h:1071-1087 | the key probe stops at the key's head, or at a free slot exactly when the key is absent |
| AssocMultiProbe.ElemProbeExit | lib/Basics/AssocMulti.h:1033-1060 | the element probe stops at an equal element, or at a free slot when no non-head element is equal |
| AssocMultiProbe.NotStored | lib/Basics/AssocMulti.h:1089-1105 | if neither the head nor any non-head element is equal, no element is |
| AssocMultiProbe.FoundLookup | lib/Basics/AssocMulti.h:547-558 | a slot holding an equal element is what `lookup` returns, and it is the head exactly when it has no `prev` |
| AssocMultiProbe.MissingLookup | lib/Basics/AssocMulti.h:547-558 | with no equal element in the table, `lookup` finds nothing |
| AssocMultiProbe.FewerKeys | lib/Basics/AssocMulti.h:127 | with a chain of two or more elements, there are fewer keys than used slots, so the collision count is positive |
| AssocMultiProbe.DetachOk | lib/Basics/AssocMulti.h:742-783 | detaching the found slot removes exactly the element that the abstract remove removes, and leaves a table with one hole to heal |
| AssocMultiProbe.PlacedOk | lib/Basics/AssocMulti.h:328-415 | placing an element as the probe found (new head, equal element, or new member) yields exactly the abstract insert |
| AssocMultiProbe.HeadInserted | lib/Basics/AssocMulti.h:332-365 | a new key's element placed at the free slot gives the abstract insert |
| AssocMultiProbe.EqualFound | lib/Basics/AssocMulti.h:371-381 | an equal element is returned, and it is overwritten exactly when overwrite is set |
| AssocMultiProbe.MemberInserted | lib/Basics/AssocMulti.h:385-415 | a further element of a present key becomes the second element of its chain |
| AssocMultiRebuild.RebuiltStep | lib/Basics/AssocMulti.h:897-916 | copying one more chain adds exactly that key's elements, in chain order |
| AssocMultiRebuild.ScanEnd | lib/Basics/AssocMulti.h:897-916 | after the scan, the new table holds exactly the old contents and as many elements |
| AssocMultiRebuild.RebuiltAll | lib/Basics/AssocMulti.h:897-916 | copying every chain rebuilds the old contents |
| AssocMultiShards.Pow2 | lib/Basics/AssocMulti.h:193-202 | a power of two is positive |
| AssocMultiShards.BitAnd | lib/Basics/AssocMulti.h:316 | masking never exceeds the mask |
| AssocMultiShards.AndLowMask | lib/Basics/AssocMulti.h:316 | masking with `2^n - 1` is the remainder modulo `2^n` |
| AssocMultiShards.Route | lib/Basics/AssocMulti.h:316 | a key goes to a bucket within the mask |
| AssocMultiShards.PartitionCount | lib/Basics/AssocMulti.h:266-272 | the bucket sizes add up to the number of elements |
| AssocMultiShards.InsertCount | lib/Basics/AssocMulti.h:299-416 | insert adds one element exactly when it returns nothing |
| AssocMultiShards.RemoveCount | lib/Basics/AssocMulti.h:723-790 | remove drops one element exactly when it returns one |
| AssocMultiShards.PartLookup | lib/Basics/AssocMulti.h:547-558 | looking up in the key's bucket equals looking up in the whole table |
| AssocMultiShards.PartByKey | lib/Basics/AssocMulti.h:564-605 | the same for `lookupByKey` |
| AssocMultiShards.PartContinue | lib/Basics/AssocMulti.h:660-706 | the same for continuing a key's listing |
| AssocMultiShards.PartInsert | lib/Basics/AssocMulti.h:299-416 | inserting into the key's bucket is the whole insert restricted to that bucket |
| AssocMultiShards.PartRemove | lib/Basics/AssocMulti.h:723-790 | removing from the key's bucket is the whole remove restricted to that bucket |
| AssocMultiShards.SplitInsert | lib/Basics/AssocMulti.h:299-416 | after an insert the buckets still split the contents, with only the key's bucket changed |
| AssocMultiShards.SplitRemove | lib/Basics/AssocMulti.h:723-790 | the same for remove |
| AssocMultiBucket.GrowsAsWrittenFills | lib/Basics/AssocMulti.h:319 | as written, a table of 1 to 3 slots does not grow even when one slot is left |
| AssocMultiBucket.GrowsKeepsFree | lib/Basics/AssocMulti.h:319-321 | with the corrected test, a table that does not grow keeps a free slot after the insert |
| AssocMultiBucket.GrowsAgrees | lib/Basics/AssocMulti.h:319 | from 4 slots up, the corrected test and the written one agree |
| AssocMultiBucket.Bucket.constructor | lib/Basics/AssocMulti.h:205-216 | a new bucket is empty, well formed, and has `initialSize` slots |
| AssocMultiBucket.Bucket.FindHead | lib/Basics/AssocMulti.h:1071-1087 | it returns the key's head slot, or a free slot exactly when the key is absent |
| AssocMultiBucket.Bucket.FindFree | lib/Basics/AssocMulti.h:453-459 | it returns the first free slot from the start, past used slots only |
| AssocMultiBucket.Bucket.FindElementPlace | lib/Basics/AssocMulti.h:1033-1060 | it returns an equal element's slot, or a free slot when no non-head element is equal |
| AssocMultiBucket.Bucket.LookupByElement | lib/Basics/AssocMulti.h:1066-1106 | it returns an equal element's slot, or a free slot exactly when no element is equal |
| AssocMultiBucket.Bucket.Lookup | lib/Basics/AssocMulti.h:547-558 | the result is the abstract `Lookup` of the contents |
| AssocMultiBucket.Bucket.LookupByKey | lib/Basics/AssocMulti.h:564-605 | the result is the abstract `ByKey` of the contents |
| AssocMultiBucket.Bucket.WalkChain | lib/Basics/AssocMulti.h:595-600 | it returns the chain's first elements, all of them or up to the limit |
| AssocMultiBucket.Bucket.LookupContinue | lib/Basics/AssocMulti.h:660-706 | the result is the abstract `Continue` of the contents |
| AssocMultiBucket.Bucket.ContinueStart | lib/Basics/AssocMulti.h:667-689 | the walk resumes at the element's own slot, or at its key's head when the element is not stored past the head; no start exactly when the key is absent, and then the continuation is `None` |
| AssocMultiBucket.Bucket.WalkAfter | lib/Basics/AssocMulti.h:696-702 | it returns the chain's elements after a position, all of them or up to the limit |
| AssocMultiBucket.Bucket.MoveEntry | lib/Basics/AssocMulti.h:1135-1147 | the table becomes the reference `Moved` table |
| AssocMultiBucket.Bucket.HealHole | lib/Basics/AssocMulti.h:1153-1175 | healing leaves a well-formed table with the same contents |
| AssocMultiBucket.Bucket.HealStep | lib/Basics/AssocMulti.h:1156-1170 | one step keeps the contents and the healing invariant and moves closer to the end |
| AssocMultiBucket.Bucket.Put | lib/Basics/AssocMulti.h:328-415 | the new contents and the result are the abstract `Insert`, and one slot more is used exactly when nothing is returned |
| AssocMultiBucket.Bucket.Insert | lib/Basics/AssocMulti.h:299-416 | grow first, then put: the slot count becomes `nearPrime(2 * nrAlloc + 1)` exactly when `Grows` holds of the old counts and is kept otherwise; the new contents and the result are the abstract `Insert`, and the used count matches |
| AssocMultiBucket.Bucket.Grow | lib/Basics/AssocMulti.h:318-321 | a bucket that `Grows` moves to `nearPrime(2 * nrAlloc + 1)` slots and any other keeps its size; the contents and the used count are kept, and at least two slots are free afterwards |
| AssocMultiBucket.Bucket.ResizeInternal | lib/Basics/AssocMulti.h:867-924 | the new table has `nearPrime(size)` slots, the same contents and the same used count |
| AssocMultiBucket.Bucket.Scan | lib/Basics/AssocMulti.h:897-916 | the scan copies exactly the old table's contents |
| AssocMultiBucket.Bucket.CopyChain | lib/Basics/AssocMulti.h:899-915 | copying a chain adds exactly that chain to the contents |
| AssocMultiBucket.Bucket.InsertFirst | lib/Basics/AssocMulti.h:426-468 | an element of a new key becomes that key's one-element list |
| AssocMultiBucket.Bucket.InsertFurther | lib/Basics/AssocMulti.h:477-539 | a further element of a present key is inserted as the abstract `Insert` says |
| AssocMultiBucket.Bucket.Remove | lib/Basics/AssocMulti.h:723-790 | the new contents and the result are the abstract `Remove`, and one slot fewer is used exactly when an element is returned |
| AssocMultiBucket.Bucket.Detach | lib/Basics/AssocMulti.h:742-783 | the table and the chains become the reference detached ones |
| AssocMultiBucket.Bucket.InvalidateEntry | lib/Basics/AssocMulti.h:1127-1129 | only the slot is cleared |
| AssocMulti.PerBucket | lib/Basics/AssocMulti.h:797 | the share per bucket is the quotient of the size by the bucket count |
| AssocMulti.ResizeRoom | lib/Basics/AssocMulti.h:799 | a bucket that fits has fewer elements than its new capacity |
| AssocMulti.BucketCount | lib/Basics/AssocMulti.h:193-202 | the bucket count is a power of two, at most the requested number and more than half of it, and 1 when 0 is requested |
| AssocMulti.NewBuckets | lib/Basics/AssocMulti.h:204-217 | it builds the requested number of fresh, empty buckets |
| AssocMulti.InsertInto | lib/Basics/AssocMulti.h:299-416 | the bucket holds the abstract `Insert` of its part, and its slot count is `GrownAlloc` of its old counts |
| AssocMulti.RemoveFrom | lib/Basics/AssocMulti.h:723-790 | the bucket holds the abstract `Remove` of its part |
| AssocMulti.ResizeIn | lib/Basics/AssocMulti.h:867-924 | the bucket keeps its part in a table of `nearPrime(size)` slots |
| AssocMulti.AssocMulti.constructor | lib/Basics/AssocMulti.h:173-227 | the table is empty; its bucket count is a power of two, at most the requested number and more than half of it; every bucket has `initialSize` slots |
| AssocMulti.AssocMulti.BucketOfKey | lib/Basics/AssocMulti.h:316 | the bucket is the key hash masked by the bucket mask, that is, the key hash modulo the bucket count |
| AssocMulti.AssocMulti.Size | lib/Basics/AssocMulti.h:266-272 | the size is the number of stored elements |
| AssocMulti.AssocMulti.Lookup | lib/Basics/AssocMulti.h:547-558 | the result is the abstract `Lookup` of the contents |
| AssocMulti.AssocMulti.LookupByKey | lib/Basics/AssocMulti.h:564-605 | the result is the abstract `ByKey` of the contents |
| AssocMulti.AssocMulti.LookupWithElementByKey | lib/Basics/AssocMulti.h:611-653 | the result is the abstract `ByKey` for the element's key |
| AssocMulti.AssocMulti.LookupWithElementByKeyContinue | lib/Basics/AssocMulti.h:660-717 | the result is the abstract `Continue` of the contents |
| AssocMulti.AssocMulti.Insert | lib/Basics/AssocMulti.h:299-416 | the new contents and the result are the abstract `Insert`; the key's bucket takes the growth step of `insert` (`nearPrime(2 * nrAlloc + 1)` slots exactly when `Grows`), and every other bucket keeps its slot count |
| AssocMulti.AssocMulti.Remove | lib/Basics/AssocMulti.h:723-790 | the new contents and the result are the abstract `Remove` |
| AssocMulti.AssocMulti.Resize | lib/Basics/AssocMulti.h:796-811 | the contents are unchanged; it succeeds exactly when every bucket fits its share of the size; the buckets resized before the first one that does not fit get `nearPrime(2 * share + 1)` slots |
| AssocMulti.AssocMulti.ResizeAll | lib/Basics/AssocMulti.h:798-810 | buckets are resized in order until one does not fit, and the result says whether all fitted |
| AssocMulti.AssocMulti.ResizeStep | lib/Basics/AssocMulti.h:799-808 | one bucket is resized exactly when it fits |
| AssocMulti.AssocMulti.FitsStep | lib/Basics/AssocMulti.h:799-801 | a fitting bucket after fitting ones extends the fitting prefix |
| AssocMulti.AssocMulti.NoFit | lib/Basics/AssocMulti.h:799-801 | a bucket that does not fit stops the fitting prefix there |
| AssocMulti.AssocMulti.ResizeBucket | lib/Basics/AssocMulti.h:804 | only that bucket gets `nearPrime(size)` slots |

## Left out

- Locks and atomics (the read/write lockers, the atomic mode and the maximum) are left out. The partitioning of the query cache into `NumberOfParts` lock parts by `getPart` (QueryCache.cpp 62, 421, 497, 532, 669-671) is also left out, because the parts only spread the locking; the model keeps one map from database to cache.
- `hashQueryString`/`fasthash64` and the `QueryCache::instance` singleton are left out; a query hash is a `uint64` parameter.
- The JSON builder of `properties()` (QueryCache.cpp 420-428) is left out; `Properties` returns the mode name and the maximum.
- Memory freed by `delete` is modelled as a ghost `destroyed` flag on the result entry.
- The out-of-memory and exception paths are left out: QueryCache.cpp 230-249, and AssocMulti.h 204-226 and 884-888.
- AssocMulti.AssocMulti.Resize: the OUT_OF_MEMORY result (AssocMulti.h 806-808) is not modelled. The model's result is an error exactly when a bucket holds too many elements for its share.
- The hash functions and `TRI_NearPrime` are parameters. The requirement that `nearPrime(n) >= n` is stated on the constructors and on insert. The 32-bit folding of `hashToIndex` (`TRI_64to32`) is not modelled.
- Counters and sizes are unbounded; 64-bit overflow is not modelled.
- The statistics, logging and `LOG_TIMER` code is left out, and so are `memoryUsage`, `capacity`, `selectivity`, `iterate`, `at` and `check()`. The invariant that `check()` tests is modelled as `TableOk`, which every bucket keeps.
- `resizeInternal` reads the old table as a value snapshot.
- `lookupByKeyContinue` is the same walk as `lookupWithElementByKeyContinue` and is covered by it.
- `TRI_FreeQueryFulltextIndex` and the allocation of the query arrays are left out. Word normalisation (`NormaliseWord`) is the `normalise` parameter.
- The word limit `MaxSearchWords` is 32, because `fulltext-index.h` is not part of this model.
- In the source, the match and operation arrays start uninitialised; the model takes their initial contents as arbitrary.
- The message queue's `_fillQueues` and `_storeInCollection` (database access) and the profiler's `stopWatch`/`storeWatch` calls are left out.
- `pregel.getLocationObject` is a parameter. The source passes it `this.__executionNumber`, which a vertex queue never sets, so it receives `undefined`. When it returns `null` or `undefined`, `_send` throws a TypeError at `target.shard` (messagequeue.js 321); `SendTo` reports that as `LocationTypeError` and leaves the output unchanged. Other results are read with JavaScript's property lookup.
- Vertex queues are stored as properties of the queue object itself, so a clash between a vertex id and a property name is not modelled. Numbers are modelled as integers.
- From `sessions.js`, only the constructor's option handling is modelled. `decorateController` (41-95), `createDestroySessionHandler` (101-139) and `getSessionStorage` (260-265) are left out. `console.warn` is left out, and `crypto.jwtCanonicalAlgorithmName` is a parameter.
- `TransactionId`'s `operator<<` and `toString` are left out, because they only print.
- `client.js`, `files.h` and the HTTP cursor tests are not part of this model.
- AssocMultiBucket.Bucket.Insert: it uses the corrected growth test `Grows` rather than the written one (see Findings).
- PregelMessageQueue.VertexMessageQueue.Fill: it uses the corrected container test `FillItems` rather than the written truthiness test (see Findings).
- PregelMessageQueue.VertexMessageQueue.Fill: `_fill(null)` and `_fill(undefined)` throw a TypeError at `msg.a` (messagequeue.js 157). The model appends nothing for them, because the queue's own callers always pass a container object.
- AssocMulti.AssocMulti.constructor: it requires a positive `initialSize`. AssocMulti.h 178-179 also accepts 0, after which every probe takes a remainder by 0. The default arguments `numberBuckets = 1` and `initialSize = 64` are not modelled; callers pass both.
- AssocMultiBucket.Bucket.constructor: it requires a positive `initialSize` too, for the same reason.
- FoxxSessions.Normalise: `sessions.js` rewrites the caller's `opts` object in place, and when it throws part way, that object is left half rewritten. The model returns the rewritten record as a new value and leaves the input alone, so the aliasing between the caller's object and `this.configuration` and the half-rewritten object are not captured.
- QueryCacheDatabase.DatabaseEntry.Evict: `store` (QueryCache.cpp 208-210) and `invalidate` (QueryCache.cpp 291-297) erase the hash-map entry and then read the result entry through the erased iterator, `tryDelete((*it).second)`. That read is undefined behaviour in C++, and the out-of-memory rollback at 245-247 does the same. The model takes the entry the iterator pointed to before the erase, as `enforceMaxResults` (312-318) does by copying `_head`. So EvictHash, Invalidate and Store state the evidently intended removal, and no outcome of the undefined read is modelled.
- FulltextQuery.Query.Parse: the C scan stops at the first NUL character (fulltext-query.cpp 182, 188 and 216), because the query is a C string. The model treats the query as a sequence of characters without a terminator, so a `'\0'` inside it is an ordinary word character. A query that holds a NUL is not modelled as being cut there.
- QueryCache.QueryCache.SetMaxResults: it cuts the lists when the maximum is lowered, not when it is raised as written (see Findings).

## Findings

| source | as written | input that shows it | evidently intended | confidence | as-written member | corrected member |
|---|---|---|---|---|---|---|
| lib/Basics/AssocMulti.h:319 | a bucket grows only when `2 * _nrAlloc < 3 * _nrUsed` | a container built with `initialSize` 1: the first insert takes the only slot without growing. A later insert grows first, because a full table passes the test, but a lookup of any element that is not stored probes the full table forever (the key probe at 1079-1087, `findElementPlace` at 1044-1050); so does the key probe of `lookupByKey`, `remove` and `lookupWithElementByKeyContinue` for a key that is not stored | grow before the last free slot is taken | not executed | AssocMultiBucket.GrowsAsWrittenFills | AssocMultiBucket.GrowsKeepsFree |
| js/server/modules/org/arangodb/pregel/messagequeue.js:157 | `_fill` reads the aggregate only when `msg.a` is truthy, while `_send` (330-334) stores any aggregate value | `sendTo(target, 0, false)` with an aggregate function: the container is `{a: 0}` and `_fill` appends nothing | test whether the container has an `a` property | not executed | PregelMessageQueue.FillAsWrittenDropsFalsyAggregate | PregelMessageQueue.FillReadsContainer |
| arangod/Aql/QueryCache.cpp:695-697 | `enforceMaxResults(value)` is called only when `value > MaxResults` | maximum 128, a database with 100 cached results, then `setMaxResults(10)`: the database keeps all 100 | cut the caches when the maximum is lowered (`value < MaxResults`) | not executed | QueryCache.SetMaxResultsAsWrittenExceedsBound | QueryCache.KeptIsNewest |
