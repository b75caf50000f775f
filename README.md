# Bucket store engine (cbgb `store.go`) in Dafny

This project models the storage engine behind a cbgb bucket. The engine keeps two ordered collections per partition (vbucket):

- **items**: the key index, mapping a key to cas bytes.
- **changes**: the change log, mapping cas bytes to a serialised item. An empty payload is a tombstone.

On top of them the model covers:

- reads: `getItem`, `get`, `getMeta`;
- mutations: `set`, `del`;
- ordered traversals: `visit`, `visitItems`, `visitChanges`;
- range copies: `collRangeCopy`, `rangeCopy`;
- the dirtiness counter that schedules flushes: `dirty`, `Flush`, and the timer branch of `service`;
- collection lookup and creation: `coll`, `vbucketColls`;
- the I/O counter record: `bucketstorestats` and its `Add`, `Stats`, and the counter bookkeeping of `ReadAt`, `WriteAt`, `Stat`.

Files:

- `byte_order.dfy` (`ByteOrder`): `bytes.Compare`, proved to be a strict total order. Also least elements, and the unique ascending listing of a key set.
- `items.dfy` (`Items`): the item record, `Option`, the error kinds, and the `Codec` record. The codec holds `casBytes`, `toValueBytes` and `fromValueBytes` as function values, so nothing is assumed about their encoding.
- `collection.dfy` (`Collections`): a gkvlite collection, modelled as a class over `map<Bytes, Bytes>`. Its `Set` and `Delete` may fail, and then change nothing. `VisitItemsAscend` is modelled as the ascending walk from a start key that stops after the first `false`.
- `stats.dfy` (`StoreStats`): the ten `uint64` counters, with Go's wrap-around addition.
- `store.dfy` (`BucketStore`): the `bucketstore` class and the engine's operations.

Each operation is one sequential step. The engine runs every mutation and every flush inside its single service goroutine.

Error handling follows the code as written:

- `visitItems` skips an index row whose change is missing: the callback answers true for it (store.go:215-216). An undecodable change stops the walk. But the callback's `:=` shadows the error variable (store.go:211), so the call returns no error. `ItemWalkRows`, `WalkItems`, `WalkItemsVisitsAll` and `WalkItemsDropsDecodeError` state this.
- `collRangeCopy` checks its error variable before the walk has run (store.go:353). A failed write into the destination therefore stops the copy, but no error is returned. `CollRangeCopy` returns `None` and reports the failing key only as a ghost output `failedAt`.
- `visitChanges` does return the decode error that stopped it (`WalkChanges`, `WalkChangesStoppedDelivers`).
- `TotFlush` is never incremented anywhere in `store.go`. `Store.Valid()` includes `stats.totFlush == 0`, and every method of `Store` requires and ensures `Valid()`; `RangeCopy` does so for the destination store it marks dirty.

## Model

| member | source | states |
|---|---|---|
| ByteOrder.Compare | store.go:341-347 | `bytes.Compare` returns -1, 0 or 1, and 0 exactly when the two byte strings are equal |
| ByteOrder.CompareAntisymmetric | store.go:341-347 | swapping the operands of `bytes.Compare` negates the result |
| ByteOrder.LessTotal | store.go:341-347 | two distinct keys are ordered one way and not both ways |
| ByteOrder.LessTransitive | store.go:341-347 | key order is transitive, so ascending walks are well defined |
| ByteOrder.LeastExists | store.go:247-258 | every non-empty collection has a least key, which `MinItem` returns |
| ByteOrder.AscendingUnique | store.go:247-261 | two strictly ascending listings of the same key set are the same listing, so an ascending walk is determined by the keys alone |
| Collections.Collection.constructor | store.go:155-157 | a collection created by `SetCollection(name, nil)` is empty |
| Collections.Collection.Set | store.go:266-287 | a successful `Set` maps the key to the value and changes nothing else; a failed one changes nothing and reports an error |
| Collections.Collection.Delete | store.go:304 | a successful `Delete` removes exactly that key; a failed one changes nothing and reports an error |
| Collections.Collection.MinKey | store.go:249-256 | `MinItem` yields nothing exactly when the collection is empty, and otherwise its least key |
| Collections.KeysFrom | store.go:260 | the keys at or above `start`, strictly ascending, each listed once |
| Collections.TakeVisited | store.go:260 | the callback sees a prefix of the ascending keys; it answered true on all of them but the last; the walk ends early only on a false answer; a non-empty walk visits at least one key |
| Collections.VisitAscend | store.go:260 | `VisitItemsAscend(start, v)` visits a strictly ascending prefix of the keys at or above `start`, and stops early only after `v` answered false |
| BucketStore.Lookup | store.go:179-204 | `getItem` returns not-found (no error) when the key is not indexed, or when its cas is not in the change log, and never otherwise; a hit is the decoded payload; a decode failure is an error; under a codec that keeps the receiver's key, a hit carries the requested key |
| BucketStore.LookupAfterSet | store.go:266-287 | after a `set` with a non-empty key, a lookup of that key decodes exactly the payload just written |
| BucketStore.LookupAfterDel | store.go:289-310 | after a `del` of a non-empty key, a lookup of it returns not-found and no error |
| BucketStore.LookupOtherKeyAfterSet | store.go:266-287 | a `set` leaves every other key's lookup unchanged, as long as that key does not already point at the new cas |
| BucketStore.ConsistentMissIffAbsent | store.go:179-204 | when every indexed cas is in the change log, a lookup misses exactly on the keys that are not indexed |
| BucketStore.Decimal | store.go:148-149 | `%v` of a partition number is a non-empty string of decimal digits, without a leading zero, whose value is that number |
| BucketStore.CollNameInjective | store.go:145-151 | two partitions, or two suffixes, give the same collection name only when they are the same, for suffixes that do not start with a digit; so `vbucketColls` of different partitions never share a collection |
| BucketStore.CollNamesDiffer | store.go:148-149 | a partition's items and changes collection names differ when their suffixes differ |
| BucketStore.RowItems | store.go:209-222 | the items `visitItems` hands to its visitor are at most one per row; when every row decodes, exactly one per row, in row order; under a key-keeping codec, each carries its row's key |
| BucketStore.RowItemsAppend | store.go:209-222 | the items delivered over two stretches of index rows are those of the first stretch followed by those of the second |
| BucketStore.RowItemsOne | store.go:212-221 | a row whose change is missing delivers nothing; otherwise the row delivers its decoded item, or nothing when the decode fails |
| BucketStore.ChangeItems | store.go:233-240 | the items `visitChanges` hands to its visitor are at most one per row |
| BucketStore.ChangeItemsAppend | store.go:233-240 | the items delivered over two stretches of change-log rows are those of the first stretch followed by those of the second |
| BucketStore.ChangeItemsOne | store.go:233-240 | one change-log row delivers its decoded item, or nothing when it does not decode |
| BucketStore.ChangeItemsStopped | store.go:233-240 | rows that all decode except the last deliver one item per row before the last, in order, and nothing for the last |
| BucketStore.ChangeItemsAllDecoded | store.go:233-240 | when every change decodes, `visitChanges` hands exactly one item per row, in row order |
| BucketStore.ItemWalkRows | store.go:206-222 | the index rows `visitItems` walks are a strictly ascending prefix of the keys from `start`; every row before the last continued (its change is missing, or it decoded and the visitor answered true); the walk ends early only on a present change that fails to decode or a false answer |
| BucketStore.WalkItems | store.go:206-228 | `visitItems` walks the rows `ItemWalkRows` describes, hands the visitor at most one item per row, and never returns an error |
| BucketStore.WalkChanges | store.go:230-245 | `visitChanges` walks change-log rows in ascending order from `start`; it goes on while every payload decodes and the visitor answers true, and ends early only on a failed decode or a false answer; it returns a decode error exactly when a decode stopped it |
| BucketStore.WalkChangesVisitsAll | store.go:230-245 | with a visitor that always continues and every change decodable, `visitChanges` walks every change-log row from `start` and returns no error |
| BucketStore.WalkChangesStoppedDelivers | store.go:230-245 | when a decode failure stopped `visitChanges`, the visitor has received the decoded item of every earlier row, in order, and nothing for the failing row |
| BucketStore.WalkItemsVisitsAll | store.go:206-228 | with a visitor that always continues and no undecodable change, `visitItems` reaches every index row from `start`; missing changes do not stop it |
| BucketStore.RowItemsAllDecoded | store.go:212-221 | index rows whose changes are all present and decodable deliver exactly their decoded items, one per row, in row order |
| BucketStore.WalkItemsDeliversAll | store.go:206-228 | when, in addition, every row's change is present, the visitor receives each row's decoded item, one per row, in key order |
| BucketStore.WalkItemsDropsDecodeError | store.go:211-228 | an undecodable change at the first row stops `visitItems` there with nothing delivered, and no error is returned |
| BucketStore.WalkChangesStopsAtTombstone | store.go:230-245 | under a codec that rejects the empty payload, a tombstone at the first row stops `visitChanges` there with a decode error |
| BucketStore.CollRangeCopy | store.go:333-357 | `collRangeCopy` writes into `dst` exactly the source entries at or above `minKey` that lie in `[lo, hi)`, where an empty bound means no bound; out-of-range keys are skipped without stopping; the source is unchanged; a failed write stops the copy below the failing key, and still no error is returned |
| BucketStore.CopiedFromLeast | store.go:315-325 | copying from the source's least key copies the same entries as copying from the empty key |
| BucketStore.InRangeKeys | store.go:338-346 | the keys of a listing that lie in `[lo, hi)`, each kept exactly when it is in range |
| BucketStore.InRangeKeysAscending | store.go:338-346 | filtering an ascending key listing by range keeps it ascending |
| BucketStore.RangeCopyListing | store.go:312-357 | a complete range copy into an empty destination lists exactly the source's in-range keys, in the source's order |
| BucketStore.Store.constructor | store.go:13-22 | a new store is clean: dirtiness 0, no collections, all counters zero |
| BucketStore.Store.Stats | store.go:124-128 | `Stats()` returns a fresh record that equals the current counters |
| BucketStore.Store.Dirty | store.go:141-143 | `dirty()` raises dirtiness by exactly one |
| BucketStore.Store.Flush | store.go:130-139 | `Flush` subtracts the dirtiness read at its start, and only on success; increments made during the flush stay counted |
| BucketStore.Store.Tick | store.go:82-93 | the timer branch flushes exactly when dirtiness is positive; on success it subtracts the dirtiness read, on failure it adds one to `FlushErrors` and nothing else changes |
| BucketStore.Store.ReadAt | store.go:362-372 | a file read adds one to `TotRead`, to `ReadErrors` exactly when the read failed, and the bytes read to `ReadBytes`, all modulo 2^64 |
| BucketStore.Store.WriteAt | store.go:374-384 | a file write adds one to `TotWrite`, to `WriteErrors` exactly when the write failed, and the bytes written to `WriteBytes`, all modulo 2^64 |
| BucketStore.Store.Stat | store.go:386-395 | a file stat adds one to `TotStat`, and to `StatErrors` exactly when it failed |
| BucketStore.Store.Coll | store.go:153-159 | `coll(name)` returns the named collection, creating an empty one only when the name is absent; nothing else changes |
| BucketStore.Store.VBucketColls | store.go:145-151 | `vbucketColls` returns the partition's items and changes collections as two distinct objects, creating them when absent and leaving the other collections alone |
| BucketStore.Store.GetItem | store.go:179-204 | `getItem` is the two-step lookup of `Lookup`; it returns not-found exactly when the key is not indexed or its cas is not in the change log |
| BucketStore.Store.Get | store.go:169-172 | `get` misses exactly when the key is not indexed or its cas is not in the change log; a hit is the decoded payload; otherwise it fails with a decode error |
| BucketStore.Store.GetMeta | store.go:174-177 | `getMeta` misses exactly when the key is not indexed or its cas is not in the change log; a hit is the decoded payload; otherwise it fails with a decode error |
| BucketStore.Store.Visit | store.go:247-261 | with a nil start, an empty collection visits nothing, and otherwise the walk begins at the least key and matches a walk from the empty key; with a start, it is the ascending walk from that start |
| BucketStore.Store.VisitItems | store.go:206-228 | `visitItems` over the two collections is the walk `WalkItems` describes; a nil start walks from the least key |
| BucketStore.Store.VisitChanges | store.go:230-245 | `visitChanges` is the walk `WalkChanges` describes |
| BucketStore.Store.RangeCopy | store.go:312-331 | `rangeCopy` copies the source's entries in `[lo, hi)` into the destination collection; it marks the destination store dirty exactly once when the source is non-empty, and not at all when it is empty; no error is returned |
| BucketStore.Store.Set | store.go:266-287 | on success the change log maps the item's cas bytes to its serialisation; a non-empty key is indexed at that cas, while an empty key leaves the index alone; dirtiness rises by one; a failed change-log write changes nothing; a consistent index stays consistent |
| BucketStore.Store.Del | store.go:289-310 | on success a tombstone is written at the cas bytes; a non-empty key is removed from the index; dirtiness rises by one; a failed change-log write changes nothing; a consistent index stays consistent |
| StoreStats.Add64 | store.go:397-410 | `uint64` addition wraps modulo 2^64 |
| StoreStats.SumZeroLeft | store.go:124-128 | adding counters into a zero record copies them exactly |
| StoreStats.Stats.constructor | store.go:125 | `&bucketstorestats{}` has every counter at zero |
| StoreStats.Stats.Add | store.go:397-410 | `Add` adds each counter of the argument into the same counter, wrapping modulo 2^64 |

## Left out

- The service goroutines and channels (`service`'s request branch, `serviceFile`, `apply`, `applyFile`, `Close`). Each operation is one atomic step; concurrency is not modelled.
- `newBucketStore`: opening the file and the gkvlite store. The constructor starts from an empty store.
- The gkvlite copy-on-write tree, its on-disk format, and what `Flush` writes. A collection is an ordered map. A flush or collection write is a step that may fail.
- Read-side I/O errors of gkvlite (`GetItem`, `MinItem`, `VisitItemsAscend` failing to read a node). Lookups and walks cannot fail except through a decode error.
- The `os.File` calls in `ReadAt`, `WriteAt` and `Stat`. The model takes the byte count and whether the call failed as inputs, and keeps only the counter bookkeeping.
- `withValue`: gkvlite's lazy value loading. The flag is accepted and has no effect on results. With `withValue` false, gkvlite may return a change whose value is not loaded, which `getMeta` would then decode; the model always decodes the stored payload.
- `collNames` and `collExists`: plain delegations to gkvlite with nothing to state.
- `casBytes`, `toValueBytes`, `fromValueBytes`, the `item` type and the `COLL_SUFFIX_ITEMS`/`COLL_SUFFIX_CHANGES` constants are defined outside `store.go`. The codec functions are uninterpreted parameters, so neither injectivity nor a round trip is assumed. The two suffixes are constructor parameters, required only to differ.
- BucketStore.Store.Flush: dirtiness is an unbounded integer, not an `int64`; overflow after 2^63 mutations is not modelled. Increments racing with a flush enter as the `racing` parameter.
- BucketStore.Store.Set: requires the items and changes collections to be different objects. The source does not check this, but `vbucketColls` always yields two distinct collections. The unused `oldMeta` argument is accepted and ignored.
- BucketStore.Store.Del: requires the items and changes collections to be different objects, for the same reason as `Set`.
- BucketStore.Lookup: that a hit carries the requested key is proved only for a codec that keeps the receiver's key. `fromValueBytes` is not part of this model.
- Visitors are modelled as pure `Item -> bool` functions. A Go closure whose answer depends on what it has already seen, such as one that stops after N items, is not captured.
- BucketStore.CollNameInjective: proved only for suffixes that do not start with a digit. The suffix constants are not part of this model.
- `tap_test.go`, `static/app.js`, `cbgb/main.go` and `cbgb/rest_ns.go`: the TAP protocol, the web UI, process start-up and HTTP handlers are outside the storage engine.
