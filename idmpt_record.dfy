/**
 * The idempotency store, one record at a time. A record is either Locked
 * (a request holds the key, no data yet) or Saved (the response data, with
 * an expiry). Every store operation reads one record, decides, and writes
 * back at most one record; this module states those decisions as functions
 * and proves the request protocol built from them.
 */
module IdmptRecord {
  import opened Wrappers

  newtype byte = x: int | 0 <= x < 256

  /** A 16-byte key; its first byte picks the bucket. */
  type Uuid = s: seq<byte> | |s| == 16 witness seq(16, i => 0 as byte)

  /** The error values the store returns. */
  datatype Error =
    | LockExistsError
    | LockNotFoundError
    | LockExistsSaveError
    | ItemExistsError
    | ItemNotFound
    | ItemExpiredError

  /** A record: the saved data (empty while Locked), its expiry in nanoseconds, and whether it is Saved. */
  datatype StoreItem = StoreItem(data: seq<byte>, ttl: int, isSave: bool)

  /** What a writing operation answers, and the record it leaves (`None`: no record). */
  datatype Step = Step(err: Option<Error>, rec: Option<StoreItem>)

  /** A fresh lock: no data, not saved, expiring at `ttl`. */
  function Locked(ttl: int): (it: StoreItem)
    ensures !it.isSave && it.data == [] && it.ttl == ttl
  {
    StoreItem([], ttl, false)
  }

  /** The record stored under `key` in a bucket, if any. */
  function Find(m: map<Uuid, StoreItem>, key: Uuid): (r: Option<StoreItem>)
    ensures r.Some? <==> key in m
    ensures r.Some? ==> r.value == m[key]
  {
    if key in m then Some(m[key]) else None
  }

  /** The bucket after `key`'s record becomes `rec`; `None` deletes it. */
  function Write(m: map<Uuid, StoreItem>, key: Uuid, rec: Option<StoreItem>): (r: map<Uuid, StoreItem>)
    ensures Find(r, key) == rec
    ensures forall k :: k != key ==> Find(r, k) == Find(m, k)
    ensures rec == Find(m, key) ==> r == m
  {
    match rec
    case Some(it) => m[key := it]
    case None => m - {key}
  }

  // ---------------------------------------------------------------------------
  // The operations on one record
  // ---------------------------------------------------------------------------

  /**
   * Get: a Saved record answers its data until it expires and then
   * `ItemExpiredError`; a Locked record answers `LockExistsError` whatever
   * its expiry; no record answers `ItemNotFound`.
   */
  function GetRecord(rec: Option<StoreItem>, now: int): (r: Result<seq<byte>, Error>)
    ensures r.Ok? <==> rec.Some? && rec.value.isSave && now < rec.value.ttl
    ensures r.Ok? ==> r.value == rec.value.data
    ensures r == Err(ItemExpiredError) <==> rec.Some? && rec.value.isSave && rec.value.ttl <= now
    ensures r == Err(LockExistsError) <==> rec.Some? && !rec.value.isSave
    ensures r == Err(ItemNotFound) <==> rec.None?
  {
    match rec
    case None => Err(ItemNotFound)
    case Some(it) =>
      if it.isSave then
        if now < it.ttl then Ok(it.data) else Err(ItemExpiredError)
      else
        Err(LockExistsError)
  }

  /**
   * Set (the save step): no record is `ItemNotFound`; with `unique` on, a
   * live Saved record is `ItemExistsError`; both leave the record alone.
   * Otherwise the record becomes Saved with the new data, expiring `d`
   * after `now`.
   */
  function SaveRecord(rec: Option<StoreItem>, data: seq<byte>, now: int, d: int, unique: bool): (s: Step)
    ensures s.err == Some(ItemNotFound) <==> rec.None?
    ensures s.err == Some(ItemExistsError) <==> rec.Some? && unique && rec.value.isSave && now < rec.value.ttl
    ensures s.err.None? || s.err == Some(ItemNotFound) || s.err == Some(ItemExistsError)
    ensures s.err.Some? ==> s.rec == rec
    ensures s.err.None? ==> s.rec == Some(StoreItem(data, now + d, true))
  {
    match rec
    case None => Step(Some(ItemNotFound), None)
    case Some(it) =>
      if it.isSave && unique && now < it.ttl then Step(Some(ItemExistsError), rec)
      else Step(None, Some(StoreItem(data, now + d, true)))
  }

  /**
   * Lock, as written: a live Saved record is `LockExistsSaveError` and any
   * Locked record, expired or not, is `LockExistsError`; both leave the
   * record alone. No record or an expired Saved one becomes a fresh lock
   * expiring `d` after `now`.
   */
  function LockRecord(rec: Option<StoreItem>, now: int, d: int): (s: Step)
    ensures s.err == Some(LockExistsSaveError) <==> rec.Some? && rec.value.isSave && now < rec.value.ttl
    ensures s.err == Some(LockExistsError) <==> rec.Some? && !rec.value.isSave
    ensures s.err.None? || s.err == Some(LockExistsSaveError) || s.err == Some(LockExistsError)
    ensures s.err.Some? ==> s.rec == rec
    ensures s.err.None? ==> s.rec == Some(Locked(now + d))
  {
    match rec
    case Some(it) =>
      if it.isSave then
        if now < it.ttl then Step(Some(LockExistsSaveError), rec)
        else Step(None, Some(Locked(now + d)))
      else
        Step(Some(LockExistsError), rec)
    case None => Step(None, Some(Locked(now + d)))
  }

  /** Unlock: removes a Locked record; a Saved record or no record is left as it is. */
  function UnlockRecord(rec: Option<StoreItem>): (r: Option<StoreItem>)
    ensures r.None? <==> rec.None? || !rec.value.isSave
    ensures r.Some? ==> r == rec
  {
    match rec
    case Some(it) => if it.isSave then rec else None
    case None => None
  }

  /** The entries the sweep keeps, as written: only those whose expiry has already passed. */
  function SweepAsWritten(m: map<Uuid, StoreItem>, now: int): (r: map<Uuid, StoreItem>)
    ensures forall k :: k in r <==> k in m && m[k].ttl < now
    ensures forall k :: k in r ==> r[k] == m[k]
  {
    map k | k in m && m[k].ttl < now :: m[k]
  }

  // ---------------------------------------------------------------------------
  // The request protocol: Get, Lock, handle, then Unlock or Set
  // ---------------------------------------------------------------------------

  /** While a key is locked, readers are told so, at any later time. */
  lemma LockedReadsLockExists(rec: Option<StoreItem>, now: int, d: int, later: int)
    requires LockRecord(rec, now, d).err.None?
    ensures GetRecord(LockRecord(rec, now, d).rec, later) == Err(LockExistsError)
  {
    assert LockRecord(rec, now, d).rec == Some(Locked(now + d));
  }

  /** A lock, then the save step, then a read before the save expires: the saved data comes back. */
  lemma LockSaveGet(rec: Option<StoreItem>, t0: int, dl: int, data: seq<byte>, t1: int, d: int, unique: bool, t2: int)
    requires LockRecord(rec, t0, dl).err.None?
    requires t2 < t1 + d
    ensures SaveRecord(LockRecord(rec, t0, dl).rec, data, t1, d, unique).err.None?
    ensures GetRecord(SaveRecord(LockRecord(rec, t0, dl).rec, data, t1, d, unique).rec, t2) == Ok(data)
  {
    var locked := LockRecord(rec, t0, dl).rec;
    assert locked == Some(Locked(t0 + dl));
    assert SaveRecord(locked, data, t1, d, unique).rec == Some(StoreItem(data, t1 + d, true));
  }

  /** A failed request's Unlock frees the key: the next Lock succeeds. */
  lemma UnlockFreesKey(rec: Option<StoreItem>, t0: int, dl: int, t1: int, dl2: int)
    requires LockRecord(rec, t0, dl).err.None?
    ensures UnlockRecord(LockRecord(rec, t0, dl).rec).None?
    ensures LockRecord(UnlockRecord(LockRecord(rec, t0, dl).rec), t1, dl2) == Step(None, Some(Locked(t1 + dl2)))
  {
    assert LockRecord(rec, t0, dl).rec == Some(Locked(t0 + dl));
  }

  /** With `unique` on, a second save before the first expires is refused and the first data stays. */
  lemma UniqueSaveRefused(rec: Option<StoreItem>, data1: seq<byte>, t1: int, d: int, data2: seq<byte>, t2: int, d2: int)
    requires SaveRecord(rec, data1, t1, d, true).err.None?
    requires t2 < t1 + d
    ensures SaveRecord(SaveRecord(rec, data1, t1, d, true).rec, data2, t2, d2, true)
            == Step(Some(ItemExistsError), Some(StoreItem(data1, t1 + d, true)))
  {
    assert SaveRecord(rec, data1, t1, d, true).rec == Some(StoreItem(data1, t1 + d, true));
  }

  /** Without `unique`, a second save overwrites the first. */
  lemma SaveOverwrites(rec: Option<StoreItem>, data1: seq<byte>, t1: int, d: int, data2: seq<byte>, t2: int, d2: int)
    requires SaveRecord(rec, data1, t1, d, false).err.None?
    ensures SaveRecord(SaveRecord(rec, data1, t1, d, false).rec, data2, t2, d2, false)
            == Step(None, Some(StoreItem(data2, t2 + d2, true)))
  {
    assert SaveRecord(rec, data1, t1, d, false).rec == Some(StoreItem(data1, t1 + d, true));
  }

  /** Unlock never removes saved data. */
  lemma UnlockKeepsSaved(it: StoreItem, now: int)
    requires it.isSave
    ensures UnlockRecord(Some(it)) == Some(it)
    ensures GetRecord(UnlockRecord(Some(it)), now) == GetRecord(Some(it), now)
  {
  }

  // ---------------------------------------------------------------------------
  // Findings: an expired lock is never replaced
  // ---------------------------------------------------------------------------

  /**
   * As written, a lock whose lifetime has passed still refuses every later
   * Lock: the key stays blocked until an Unlock or a save.
   */
  lemma ExpiredLockBlocksAsWritten(t0: int, dl: int, later: int, d: int)
    requires dl >= 0 && later > t0 + dl
    ensures LockRecord(Some(Locked(t0 + dl)), later, d).err == Some(LockExistsError)
    ensures LockRecord(Some(Locked(t0 + dl)), later, d).rec == Some(Locked(t0 + dl))
  {
  }

  /** Lock as evidently intended: a Locked record blocks only until its own expiry. */
  function LockIntended(rec: Option<StoreItem>, now: int, d: int): (s: Step)
    ensures s.err == Some(LockExistsSaveError) <==> rec.Some? && rec.value.isSave && now < rec.value.ttl
    ensures s.err == Some(LockExistsError) <==> rec.Some? && !rec.value.isSave && now < rec.value.ttl
    ensures s.err.Some? ==> s.rec == rec
    ensures s.err.None? ==> s.rec == Some(Locked(now + d))
  {
    match rec
    case Some(it) =>
      if now < it.ttl then
        Step(Some(if it.isSave then LockExistsSaveError else LockExistsError), rec)
      else
        Step(None, Some(Locked(now + d)))
    case None => Step(None, Some(Locked(now + d)))
  }

  /**
   * The intended Lock agrees with the written one everywhere except on an
   * expired lock, which it replaces with a fresh one.
   */
  lemma LockIntendedDiffersOnlyOnExpiredLock(rec: Option<StoreItem>, now: int, d: int)
    ensures LockIntended(rec, now, d) != LockRecord(rec, now, d) <==>
              rec.Some? && !rec.value.isSave && rec.value.ttl <= now
    ensures rec.Some? && !rec.value.isSave && rec.value.ttl <= now ==>
              LockIntended(rec, now, d) == Step(None, Some(Locked(now + d)))
  {
    if rec.Some? && !rec.value.isSave && rec.value.ttl <= now {
      assert LockRecord(rec, now, d).err == Some(LockExistsError);
      assert LockIntended(rec, now, d).err.None?;
    }
  }

  // ---------------------------------------------------------------------------
  // Findings: the sweep deletes the live records
  // ---------------------------------------------------------------------------

  /**
   * As written, the sweep deletes a Saved record that has not expired: a
   * read that answered the data before the sweep answers `ItemNotFound`
   * after it.
   */
  lemma SweepDeletesLiveRecord(key: Uuid, data: seq<byte>, now: int)
    ensures var m := map[key := StoreItem(data, now + 1, true)];
            GetRecord(Find(m, key), now) == Ok(data) &&
            GetRecord(Find(SweepAsWritten(m, now), key), now) == Err(ItemNotFound)
  {
    var m := map[key := StoreItem(data, now + 1, true)];
    assert key !in SweepAsWritten(m, now);
  }

  /** The sweep as evidently intended: deletes exactly the records whose expiry has passed. */
  function SweepIntended(m: map<Uuid, StoreItem>, now: int): (r: map<Uuid, StoreItem>)
    ensures forall k :: k in r <==> k in m && now <= m[k].ttl
    ensures forall k :: k in r ==> r[k] == m[k]
  {
    map k | k in m && now <= m[k].ttl :: m[k]
  }

  /**
   * The intended sweep never changes what a read answers for a key whose
   * record is still live, and removes every record that expired before `now`.
   */
  lemma SweepIntendedKeepsLive(m: map<Uuid, StoreItem>, now: int, key: Uuid, later: int)
    ensures key in m && now <= m[key].ttl ==>
              GetRecord(Find(SweepIntended(m, now), key), later) == GetRecord(Find(m, key), later)
    ensures key in m && m[key].ttl < now ==> Find(SweepIntended(m, now), key).None?
  {
  }

  // ---------------------------------------------------------------------------
  // Findings: only eight buckets are made
  // ---------------------------------------------------------------------------

  /** The number of buckets used when zero is asked for. */
  const DefaultCountBucket: byte := 8

  /** The bucket indices below `n`. */
  function Below(n: byte): (r: set<byte>)
    ensures forall b :: b in r <==> b < n
  {
    if n == 0 then {} else Below(n - 1) + {n - 1}
  }

  /** The buckets the constructor makes, as written: 0 to 7, whatever the bucket count. */
  function InitialBuckets(): (r: map<byte, map<Uuid, StoreItem>>)
    ensures forall b: byte :: b in r <==> b < 8
    ensures forall b :: b in r ==> r[b] == map[]
  {
    map b | b in Below(8) :: map[]
  }

  /** The bucket a key belongs to. */
  function BucketOf(key: Uuid, countBucket: byte): (b: byte)
    requires countBucket > 0
    ensures b < countBucket
  {
    key[0] % countBucket
  }

  /** With more than eight buckets asked for, a key whose first byte is 8 has no bucket to go to. */
  lemma MissingBucketAsWritten(key: Uuid)
    requires key[0] == 8
    ensures BucketOf(key, 9) !in InitialBuckets()
  {
  }

  /** The buckets as evidently intended: one per bucket index, `countBucket` of them. */
  function BucketsFor(countBucket: byte): (r: map<byte, map<Uuid, StoreItem>>)
    ensures forall b: byte :: b in r <==> b < countBucket
    ensures forall b :: b in r ==> r[b] == map[]
  {
    map b | b in Below(countBucket) :: map[]
  }

  /** Every key has its bucket among the intended ones, for every positive bucket count. */
  lemma BucketsForCoverEveryKey(countBucket: byte, key: Uuid)
    requires countBucket > 0
    ensures BucketOf(key, countBucket) in BucketsFor(countBucket)
  {
  }
}
