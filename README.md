# Sharded TTL cache and idempotency store, in Dafny

This project models two in-process map engines written in Go.

**The sharded TTL store** (package `shard`):
- The store holds a slice of shards. Each shard has a map from key to `item{data, ttl}` and a `count` kept by hand.
- `Set` writes `{data, now + ttl}` into shard `f(len, key)`. During a resize it also writes into the slice being filled.
- `Get` reads the key's one shard.
- `Resize(n)` builds a new slice of `n` shards. It copies every entry into it, insert-if-absent, and then swaps the two slices.
- A sweep deletes the entries whose expiry has passed.
- `Clear` empties the shards and `GetCount` reports the per-shard counts.

**The idempotency store** (package `idmpt`):
- Records are kept in buckets chosen by `key[0] % countBucket`.
- Each record is either Locked or Saved, and has an expiry.
- `Lock`, `Set` (the save step), `Unlock`, `Get`, `Reset`, `Clear` and the sweep form a small per-key state machine.

Modelling choices that run through the whole project:
- Every operation runs alone, so the locks are left out.
- The clock is an explicit argument `now`, in nanoseconds. Where the code reads the clock twice in one call (the two writes of `Set` during a resize), each reading is its own argument.
- The shard index function is an abstract `f(n, key)` with `f(n, key) < n` whenever `n > 0`.
- The jittered lifetime of an idempotency write is an abstract duration `d`.

Files:
- `wrappers.dfy`: `Option` and `Result`.
- `shard_maps.dfy` (module `ShardMaps`): the value-level view of the sharded store. Each shard is a map, and the store's contents are `Gather(maps, f)`, which reads every key from its own shard `f(|maps|, key)`. This module holds `Put` (a write), `Place`/`Migrate` (the resize copy) and `SweepAll` (the sweep), with lemmas tying each to the contents.
- `shard_store.dfy` (module `ShardStore`):
  - class `Shard`: one shard, with invariant `count == |m|`;
  - class `Shards`: the Go `shards` slice type and its methods, with the maps it holds as a ghost view;
  - class `Store`: the store, whose constructor is the shared `newStore`;
  - `NewStoreNum`, `NewStoreSeq` and `NewStoreStr`.
- `idmpt_record.dfy` (module `IdmptRecord`):
  - the step each operation takes on one record, as a function;
  - the request-protocol lemmas;
  - the findings below.
- `idmpt_store.dfy` (module `IdmptStore`): class `Store` holding the bucket maps. Each method is tied to the record step it performs.

Where the program's own comments and the code differ, the model follows the code (see "## Findings"):
- A lock is described as a record "with a small lifetime" (idempotent.go:7), yet Lock refuses an expired lock (store.go:120-122).
- The garbage collector is described as running once per lock lifetime (idempotent.go:3), and the sharded store's sweep deletes `ttl < now` (core.go:159). Yet the idempotency sweep deletes the records that have not expired (store.go:164-165).
- Every key is sent to bucket `key[0] % countBucket` (store.go:74), yet only buckets 0 to 7 are made (store.go:56).

Two further points:
- `shard.go` calls the option field `countShard` and `core.go` calls it `countShards`. Both are the one field `Options.countShard`.
- The default values of the `shard` package's options (`countShard`, `sizeShard`, `ttl`, `expireDelay`) are defined outside the modelled files. The model assumes 128 shards, starting size 128, a one-minute ttl and a one-minute sweep interval (`ShardStore.Defaults`). No property proved here depends on these values.

## Model

| member | source | states |
|---|---|---|
| ShardMaps.HashIndex | hash.go:10-19 | the index is the key's checksum modulo the shard count, so it is always a valid shard index |
| ShardMaps.GatherIsFlatten | core.go:23 | when every key sits in its own shard, the contents are the union of all the shards |
| ShardMaps.GatherEmpty | shard.go:49-54 | a slice of empty shards keeps every key in place and holds no entries |
| ShardMaps.Put | core.go:70-82 | the write into the key's own shard: that shard maps `key` to the new item, keeps every other entry, and grows by one exactly when the key is new; every other shard is unchanged |
| ShardMaps.PutPlaced | core.go:70-82 | a write into the key's own shard keeps every key in its own shard |
| ShardMaps.PutContents | core.go:66-85 | after a write, the contents are the old contents with `key` mapped to the new item |
| ShardMaps.Place | core.go:106-114 | copying one old shard: each new shard holds its own keys plus the copied keys whose index is that shard; an entry already there keeps its item, and a copied-in entry has the old shard's item |
| ShardMaps.Migrate | core.go:98-100 | copying the old shards in order never changes an entry the target already held, and every key of every old shard lands in its own new shard |
| ShardMaps.PlaceContents | core.go:106-124 | copying one old shard insert-if-absent keeps every key in place and adds exactly the old shard's entries whose key was not already present |
| ShardMaps.PlaceGather | core.go:106-124 | the same, stated on contents: new contents = copied entries, with entries already present winning |
| ShardMaps.MigrateContents | core.go:98-100 | copying all old shards in order adds every old entry whose key the target lacked, keeps the target's own entries, and keeps placement |
| ShardMaps.ResizeKeepsContents | core.go:91-104 | resizing into `n > 0` empty shards loses no key and changes no item |
| ShardMaps.ResizeGather | core.go:91-104 | resizing keeps every key in its own new shard and leaves the contents unchanged |
| ShardMaps.SetDuringResizeSurvives | core.go:40-45 | a write made while a resize is filling the new slice is what the new slice holds for that key after the copy, even when the old slice's copy of the write carries a different expiry, since the copy never overwrites |
| ShardMaps.Unexpired | core.go:158-163 | what a sweep keeps: exactly the entries with `now <= ttl`, each with its item unchanged |
| ShardMaps.SweepAll | core.go:147-149 | every shard swept at `now`: each keeps exactly its entries with `now <= ttl`, unchanged, and no key moves between shards |
| ShardMaps.SweepContents | core.go:154-164 | sweeping every shard keeps placement and leaves exactly the entries not yet expired at `now` |
| ShardMaps.Lookup | core.go:48-54 | Get's three answers, each an if-and-only-if: the data when present and `now < ttl`, `ErrItemExpired` when present and `ttl <= now`, `ErrItemNotFound` when absent |
| ShardMaps.SetThenGet | core.go:47-55 | after a write, a read answers the data before `now + ttl` and expired from then on |
| ShardMaps.SweptThenNotFound | core.go:154-164 | an entry that reads as expired and whose expiry is before the sweep time reads as not found after the sweep |
| ShardMaps.SweepKeepsLive | core.go:154-164 | a sweep does not change what a read answers for a live entry |
| ShardMaps.FlattenSize | core.go:170-180 | when no key is in two shards, the per-shard sizes add up to the number of entries |
| ShardMaps.GatherSize | core.go:170-180 | the per-shard sizes add up to the number of keys in the contents |
| ShardStore.Shard.constructor | core.go:200-203 | a fresh shard has an empty map and count 0 |
| ShardStore.Shard.ItemSet | core.go:116-124 | insert-if-absent: an existing key is never overwritten, and the count grows by one exactly when the key is new |
| ShardStore.Shard.ExpireDelete | core.go:154-164 | deletes exactly the entries with `ttl < now`, keeps all others unchanged, and keeps the count equal to the number of entries |
| ShardStore.Shard.FillShards | core.go:106-114 | every entry of the shard is copied, insert-if-absent, to its index in the target slice; the target's shards and footprint stay the same |
| ShardStore.PlaceStep | core.go:110-113 | copying one more entry changes only the key's target shard, and only if that shard lacked the key |
| ShardStore.Shards.constructor | core.go:197-206 | `n` fresh, distinct, empty shards |
| ShardStore.Shards.Get | core.go:57-64 | reads the key's own shard and answers its item exactly when the key is in the contents |
| ShardStore.Shards.Set | core.go:66-85 | an empty slice answers `ErrNilSlice` and changes nothing; otherwise the key's own shard gets `{data, now + ttl}`, its count grows exactly when the key is new, and no other shard changes |
| ShardStore.Shards.ItemSet | core.go:111-112 | insert-if-absent into the key's own shard; every other shard is unchanged |
| ShardStore.Shards.FillFrom | core.go:98-100 | copies every old shard, in index order, insert-if-absent |
| ShardStore.Shards.ExpireDelete | core.go:147-149 | sweeps every shard at `now`, each as the single-shard sweep does |
| ShardStore.Shards.Clear | core.go:186-189 | every shard map is empty and, by the shard invariant, every count is 0 |
| ShardStore.ApplyOptions | shard.go:46-48 | the options run in order on top of the defaults: a field no option sets keeps its default, and a set shard count comes from one of the options |
| ShardStore.CountShardOption | shard.go:40-48 | the default shard count stays unless an option sets it; the last such option wins |
| ShardStore.TTLOption | shard.go:40-48 | the default ttl stays unless an option sets it; the last such option wins |
| ShardStore.Store.constructor | shard.go:38-58 | the defaults and then the options give the configuration, and there are exactly `countShard` empty shards and no resize slice |
| ShardStore.Store.Get | core.go:47-55 | answers the data when the key is present and `now < ttl`, `ErrItemExpired` when present with `ttl <= now`, `ErrItemNotFound` when absent; nothing changes |
| ShardStore.Store.SetResizeShards | core.go:41-43 | the write into the slice being filled; the live slice is unchanged |
| ShardStore.Store.SetShards | core.go:44 | the write into the live slice; the slice being filled is unchanged |
| ShardStore.Store.Set | core.go:40-45 | the live slice takes `{data, now + ttl}` (or `ErrNilSlice` when empty); during a resize the slice being filled first takes `{data, nowResize + ttl}`, at its own clock reading, as each `set` at core.go:74 reads the clock |
| ShardStore.Store.GetCount | core.go:170-180 | one count per shard in shard order, each the shard's size; together they add up to the number of stored keys |
| ShardStore.Store.Clear | core.go:182-191 | every live shard map is empty, so every count is 0 and the contents are empty; a slice being filled by a resize is untouched |
| ShardStore.Store.ExpireDelete | core.go:147-149 | one sweep tick: the contents become the old contents minus the entries expired at `now` |
| ShardStore.Store.SwapShards | core.go:126-132 | the filled slice becomes the live one and the resize slot becomes empty |
| ShardStore.Store.StartResize | core.go:97-100 | a fresh slice of `n` shards is put in the resize slot and filled from the live shards |
| ShardStore.Store.CountAll | core.go:92-95 | the live shards' counts added up equal the sum of their sizes, which `GatherSize` equates with the number of stored keys |
| ShardStore.Store.Resize | core.go:91-104 | for `n > 0`: `n` shards, no resize slot, `countShard = n`, every old entry at its new index with its item, and unchanged contents |
| ShardStore.NewStoreNum | shard.go:24-26 | builds the store through the shared constructor: the options' shard count, empty contents, and index function `HashIndex(checksum)` over numeric keys |
| ShardStore.NewStoreSeq | shard.go:29-31 | the same, with index function `HashIndex(checksum)` over sequence keys |
| ShardStore.NewStoreStr | shard.go:34-36 | the same, with index function `HashIndex(checksum)` over string keys |
| IdmptRecord.Write | store.go:128 | the key's record becomes the given one (or is deleted) and every other key is unchanged |
| IdmptRecord.GetRecord | store.go:73-85 | Saved and live answers the data; Saved and expired answers `ItemExpiredError`; Locked, whatever its expiry, answers `LockExistsError`; absent answers `ItemNotFound` (each an if-and-only-if) |
| IdmptRecord.SaveRecord | store.go:88-106 | absent answers `ItemNotFound`; with uniqueness on, a live Saved record answers `ItemExistsError`; both leave the record alone; otherwise the record becomes Saved with the new data and expiry `now + d` |
| IdmptRecord.LockRecord | store.go:109-130 | a live Saved record answers `LockExistsSaveError`; any Locked record answers `LockExistsError`, even an expired one; both leave the record alone; otherwise a fresh lock expiring at `now + d` is installed |
| IdmptRecord.UnlockRecord | store.go:133-143 | deletes the record only when it is Locked; Saved records and absent keys stay |
| IdmptRecord.SweepAsWritten | store.go:159-170 | as written: keeps exactly the records whose expiry is before `now` and deletes the others |
| IdmptRecord.LockedReadsLockExists | store.go:109-130 | after a successful Lock, every read answers `LockExistsError` |
| IdmptRecord.LockSaveGet | store.go:88-106 | Lock, then save, then a read before the save expires answers the saved data |
| IdmptRecord.UnlockFreesKey | store.go:133-143 | after a successful Lock, Unlock removes the record and the next Lock succeeds |
| IdmptRecord.UniqueSaveRefused | store.go:95-96 | with uniqueness on, a second save before the first expires is refused and the first data stays |
| IdmptRecord.SaveOverwrites | store.go:97-101 | with uniqueness off, a second save replaces the data and the expiry |
| IdmptRecord.UnlockKeepsSaved | store.go:138-142 | Unlock never removes or changes a Saved record |
| IdmptRecord.ExpiredLockBlocksAsWritten | store.go:120-122 | as written, a lock whose expiry has passed still refuses every later Lock and stays in place |
| IdmptRecord.LockIntended | store.go:115-123 | Lock as evidently intended: a Locked record refuses only until its expiry |
| IdmptRecord.LockIntendedDiffersOnlyOnExpiredLock | store.go:115-123 | the intended Lock differs from the written one exactly on an expired lock, which it replaces with a fresh one |
| IdmptRecord.SweepDeletesLiveRecord | store.go:164-165 | as written, a sweep deletes a live Saved record: a read that answered its data answers `ItemNotFound` after the sweep |
| IdmptRecord.SweepIntended | store.go:159-170 | the sweep as evidently intended: keeps exactly the records not yet expired |
| IdmptRecord.SweepIntendedKeepsLive | store.go:159-170 | the intended sweep does not change what a read answers for a live record, and removes every expired one |
| IdmptRecord.InitialBuckets | store.go:56-60 | as written: exactly buckets 0 to 7, all empty, whatever the bucket count |
| IdmptRecord.BucketOf | store.go:74 | a key's bucket is below the bucket count |
| IdmptRecord.MissingBucketAsWritten | store.go:52-61 | with 9 buckets asked for, a key whose first byte is 8 has no bucket |
| IdmptRecord.BucketsFor | store.go:55-60 | the buckets as evidently intended: exactly `0 .. countBucket - 1`, all empty |
| IdmptRecord.BucketsForCoverEveryKey | store.go:55-60 | with the intended buckets, every key has its bucket, for every positive bucket count |
| IdmptStore.Configure | store.go:65-67 | the options run in order; uniqueness is on exactly when an option enables it or it was on already |
| IdmptStore.Store.constructor | store.go:50-70 | bucket count 0 means 8; buckets 0 to 7 are empty; the lifetimes default to one hour and ten seconds and the options then run; with at most 8 buckets every key's bucket exists |
| IdmptStore.Store.Get | store.go:73-85 | answers what `GetRecord` says for the key's record in its own bucket; nothing changes |
| IdmptStore.Store.Set | store.go:88-106 | the key's record in its own bucket takes the save step; every other record and bucket is unchanged |
| IdmptStore.Store.Lock | store.go:109-130 | the key's record in its own bucket takes the Lock step; every other record and bucket is unchanged |
| IdmptStore.Store.Unlock | store.go:133-143 | the key's record in its own bucket takes the Unlock step; every other record and bucket is unchanged |
| IdmptStore.Store.Reset | store.go:145-149 | every bucket is kept and left empty |
| IdmptStore.Store.Clear | store.go:151-156 | every bucket is dropped, so no key can reach a bucket afterwards |
| IdmptStore.Store.ExpireDelete | store.go:159-170 | one sweep as written: every bucket is kept and holds exactly what `SweepAsWritten` keeps |

## Left out

- Locks: the spin lock (`spinner/`), the `sync.RWMutex` fields and every lock/unlock call are left out, because every operation runs alone here. Linearisation between concurrent operations, and a `Get` racing the swap, are therefore not modelled.
- Background expiry: the ticker loop, the goroutine it runs in and `Stop` are not modelled. Only one sweep tick is: `Store.ExpireDelete(now)` in both engines.
- Runtime cleanup: `runtime.GC()` in `Clear` is not modelled.
- Capacity hints: `minSizeShard` and the `allCount / countShards` hint passed to `makeShards` are not modelled. `Resize` still computes `allCount` (`Store.CountAll`); the hint is unused because a Dafny map has no capacity.
- The crc64 checksum of hash.go, taken through `unsafe`, is not modelled. It is the abstract `checksum` parameter of `NewStoreNum`, `NewStoreSeq` and `NewStoreStr`. Only the `% countShard` reduction is modelled (`HashIndex`).
- utills.go (`calculateTTL`, a float64 random jitter) is replaced by the duration argument `d` of the idempotency `Set` and `Lock`.
- IdmptStore.Store.Set: the lifetime `d` is free; it is not tied to the stored `ttl` (Go draws it within 1% of `ttl`).
- IdmptStore.Store.Lock: likewise, `d` is not tied to the stored `ttlLock`.
- idempotent.go and the test and benchmark files are not part of this model. They call functions that the modelled files do not define (for example the repository's `GetIndexByNum` and its `Option` helpers).
- testmap.go is not part of this model. It is a benchmark baseline: a mutex-guarded map with its own `set` and `get`, and no store logic.
- Integer widths: 64-bit time and expiry arithmetic is modelled on unbounded integers. `now + ttl` overflow and the `uint` count wrap-around are not modelled.
- The unused fields in package `idmpt` are not modelled: the atomic counters `count` and `minCount`, and the plain field `minBucket`.
- ShardStore.Store.Get: requires a non-empty live slice. In Go, a read on an empty slice panics on the division or the index, so the model gives that case no answer.
- IdmptStore.Store.Get: requires that the key's bucket exists. Go dereferences a nil bucket and panics there; the same holds for `Set`, `Lock` and `Unlock`. The constructor's contract says when every bucket exists.
- ShardStore.Store.Set: states its effect on the shard maps as `Put`, not on `Contents()`. The contents-level meaning (`Contents()` becomes the old contents with `key` mapped to the new item) is the lemma `ShardMaps.PutContents`, applied to those maps.
- ShardStore.Store.SetShards: likewise states its effect through `Put`, with the contents-level meaning given by `ShardMaps.PutContents`.
- ShardStore.Store.SetResizeShards: likewise. That the write survives the later copy is `ShardMaps.SetDuringResizeSurvives`.
- Ownership and aliasing inside the Go structures (an item pointer shared between the old and new slices after a resize) are not modelled. Items are values here.

## Findings

| source | as written | input that shows it | evidently intended | confidence | as-written member | corrected member |
|---|---|---|---|---|---|---|
| store.go:120-122 | Lock refuses every Locked record, so a lock whose holder died blocks the key until a save or an Unlock | a Locked record expiring at 10, then Lock at time 20: `LockExistsError`, the old lock stays | a Locked record past its expiry is replaced by a fresh lock | not executed | IdmptRecord.ExpiredLockBlocksAsWritten | IdmptRecord.LockIntended |
| store.go:164-165 | the sweep deletes records whose expiry has not passed (`ttl >= now`) and keeps the expired ones | a Saved record expiring at `now + 1`: a read answers its data before the sweep at `now` and `ItemNotFound` after it | delete exactly the records with `ttl < now` | not executed | IdmptRecord.SweepDeletesLiveRecord | IdmptRecord.SweepIntended |
| store.go:56 | the constructor makes buckets 0 to 7 whatever `countBucket` is | `countBucket = 9` and a key whose first byte is 8: bucket 8 does not exist, so every operation on that key dereferences a nil bucket | make buckets `0 .. countBucket - 1` | not executed | IdmptRecord.MissingBucketAsWritten | IdmptRecord.BucketsFor |

The store class `IdmptStore.Store` follows the code as written: its `Lock` uses `LockRecord`, its sweep uses `SweepAsWritten`, and its constructor uses `InitialBuckets`. The corrected definitions stand beside them, with their properties proved.
