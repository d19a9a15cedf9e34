/**
 * The idempotency store: buckets of records keyed by the first byte of the
 * key modulo the bucket count. Locks are left out (every operation runs
 * alone), the clock is the explicit parameter `now`, and the jittered
 * lifetime each write draws is the explicit duration `d`.
 */
module IdmptStore {
  import opened Wrappers
  import opened IdmptRecord

  /** One hour and ten seconds, in nanoseconds. */
  const Hour: int := 3_600_000_000_000
  const TenSeconds: int := 10_000_000_000

  /** The setters a caller passes to the constructor. */
  datatype StoreOption = SetTTL(ttl: int) | SetTTLLock(ttlLock: int) | EnabledUnique

  /** The settings the setters change: record lifetime, lock lifetime, and whether a live save refuses another. */
  datatype Settings = Settings(ttl: int, ttlLock: int, unique: bool)

  /** The settings before any option runs. */
  const DefaultSettings: Settings := Settings(Hour, TenSeconds, false)

  /** One setter applied to the settings. */
  function Apply(s: Settings, o: StoreOption): Settings
  {
    match o
    case SetTTL(d) => s.(ttl := d)
    case SetTTLLock(d) => s.(ttlLock := d)
    case EnabledUnique => s.(unique := true)
  }

  /** The options applied in order, the later one winning. */
  function Configure(s: Settings, opts: seq<StoreOption>): (r: Settings)
    ensures (exists i :: 0 <= i < |opts| && opts[i].EnabledUnique?) ==> r.unique
    ensures (forall i :: 0 <= i < |opts| ==> !opts[i].EnabledUnique?) ==> r.unique == s.unique
  {
    if opts == [] then s
    else
      Apply(Configure(s, opts[..|opts| - 1]), opts[|opts| - 1])
  }

  class Store {
    var buckets: map<byte, map<Uuid, StoreItem>>
    var countBucket: byte
    var ttl: int
    var ttlLock: int
    var unique: bool

    /** The key's bucket exists, so an operation on the key can reach it. */
    ghost predicate Ready(key: Uuid)
      reads this
    {
      countBucket > 0 && BucketOf(key, countBucket) in buckets
    }

    /**
     * Construction: a bucket count of 0 means 8; buckets 0 to 7 are made
     * empty; the lifetimes default to one hour and ten seconds and the
     * options then run in order.
     */
    constructor (countBucket: byte, opts: seq<StoreOption>)
      ensures this.countBucket == if countBucket == 0 then DefaultCountBucket else countBucket
      ensures buckets == InitialBuckets()
      ensures Settings(ttl, ttlLock, unique) == Configure(DefaultSettings, opts)
      ensures this.countBucket <= 8 ==> forall key: Uuid :: Ready(key)
    {
      var n := if countBucket == 0 then DefaultCountBucket else countBucket;
      var m: map<byte, map<Uuid, StoreItem>> := map[];
      var i: byte := 0;
      while i < 8
        invariant 0 <= i <= 8
        invariant m == map b | b in Below(i) :: map[]
      {
        m := m[i := map[]];
        i := i + 1;
      }
      buckets := m;
      this.countBucket := n;
      var s := DefaultSettings;
      for j := 0 to |opts|
        invariant s == Configure(DefaultSettings, opts[..j])
      {
        assert opts[..j + 1][..j] == opts[..j];
        s := Apply(s, opts[j]);
      }
      assert opts[..|opts|] == opts;
      ttl := s.ttl;
      ttlLock := s.ttlLock;
      unique := s.unique;
    }

    /** Get reads the key's record and answers as `GetRecord` says; nothing changes. */
    method Get(key: Uuid, now: int) returns (r: Result<seq<byte>, Error>)
      requires Ready(key)
      ensures r == GetRecord(Find(buckets[BucketOf(key, countBucket)], key), now)
    {
      var m := buckets[key[0] % countBucket];
      if key in m {
        var item := m[key];
        if item.isSave {
          if now < item.ttl {
            return Ok(item.data);
          }
          return Err(ItemExpiredError);
        } else {
          return Err(LockExistsError);
        }
      }
      return Err(ItemNotFound);
    }

    /** The save step on the key's record, with lifetime `d`; only that record can change. */
    method Set(key: Uuid, data: seq<byte>, now: int, d: int) returns (err: Option<Error>)
      requires Ready(key)
      modifies this
      ensures countBucket == old(countBucket) && ttl == old(ttl) && ttlLock == old(ttlLock) && unique == old(unique)
      ensures var b := BucketOf(key, countBucket);
              var s := SaveRecord(Find(old(buckets)[b], key), data, now, d, unique);
              err == s.err && buckets == old(buckets)[b := Write(old(buckets)[b], key, s.rec)]
    {
      var b := key[0] % countBucket;
      var m := buckets[b];
      if key in m {
        var item := m[key];
        if item.isSave && unique && now < item.ttl {
          return Some(ItemExistsError);
        } else {
          buckets := buckets[b := Write(m, key, Some(StoreItem(data, now + d, true)))];
          return None;
        }
      }
      return Some(ItemNotFound);
    }

    /** Lock on the key's record, with lock lifetime `d`; only that record can change. */
    method Lock(key: Uuid, now: int, d: int) returns (err: Option<Error>)
      requires Ready(key)
      modifies this
      ensures countBucket == old(countBucket) && ttl == old(ttl) && ttlLock == old(ttlLock) && unique == old(unique)
      ensures var b := BucketOf(key, countBucket);
              var s := LockRecord(Find(old(buckets)[b], key), now, d);
              err == s.err && buckets == old(buckets)[b := Write(old(buckets)[b], key, s.rec)]
    {
      var b := key[0] % countBucket;
      var m := buckets[b];
      if key in m {
        var v := m[key];
        if v.isSave {
          if now < v.ttl {
            return Some(LockExistsSaveError);
          }
        } else {
          return Some(LockExistsError);
        }
      }
      buckets := buckets[b := Write(m, key, Some(Locked(now + d)))];
      return None;
    }

    /** Unlock on the key's record; only that record can change. */
    method Unlock(key: Uuid)
      requires Ready(key)
      modifies this
      ensures countBucket == old(countBucket) && ttl == old(ttl) && ttlLock == old(ttlLock) && unique == old(unique)
      ensures var b := BucketOf(key, countBucket);
              buckets == old(buckets)[b := Write(old(buckets)[b], key, UnlockRecord(Find(old(buckets)[b], key)))]
    {
      var b := key[0] % countBucket;
      var m := buckets[b];
      if key in m {
        var v := m[key];
        if !v.isSave {
          buckets := buckets[b := Write(m, key, None)];
        }
      }
    }

    /** Reset empties every bucket and keeps the set of buckets. */
    method Reset()
      modifies this
      ensures countBucket == old(countBucket) && ttl == old(ttl) && ttlLock == old(ttlLock) && unique == old(unique)
      ensures buckets.Keys == old(buckets).Keys
      ensures forall b :: b in buckets ==> buckets[b] == map[]
    {
      var todo := buckets.Keys;
      while todo != {}
        invariant countBucket == old(countBucket) && ttl == old(ttl) && ttlLock == old(ttlLock) && unique == old(unique)
        invariant buckets.Keys == old(buckets).Keys && todo <= buckets.Keys
        invariant forall b :: b in buckets && b !in todo ==> buckets[b] == map[]
        decreases todo
      {
        var b :| b in todo;
        buckets := buckets[b := map[]];
        todo := todo - {b};
      }
    }

    /** Clear drops every bucket; no key is then ready for any operation. */
    method Clear()
      modifies this
      ensures countBucket == old(countBucket) && ttl == old(ttl) && ttlLock == old(ttlLock) && unique == old(unique)
      ensures buckets == map[]
      ensures forall key: Uuid :: !Ready(key)
    {
      buckets := map[];
    }

    /** One sweep at `now`, as written: every bucket keeps only the records whose expiry has passed. */
    method ExpireDelete(now: int)
      modifies this
      ensures countBucket == old(countBucket) && ttl == old(ttl) && ttlLock == old(ttlLock) && unique == old(unique)
      ensures buckets.Keys == old(buckets).Keys
      ensures forall b :: b in buckets ==> buckets[b] == SweepAsWritten(old(buckets)[b], now)
    {
      var todo := buckets.Keys;
      while todo != {}
        invariant countBucket == old(countBucket) && ttl == old(ttl) && ttlLock == old(ttlLock) && unique == old(unique)
        invariant buckets.Keys == old(buckets).Keys && todo <= buckets.Keys
        invariant forall b :: b in buckets && b in todo ==> buckets[b] == old(buckets)[b]
        invariant forall b :: b in buckets && b !in todo ==> buckets[b] == SweepAsWritten(old(buckets)[b], now)
        decreases todo
      {
        var b :| b in todo;
        var m: map<Uuid, StoreItem> := buckets[b];
        var keys := m.Keys;
        while keys != {}
          invariant keys <= m.Keys
          invariant forall k :: k in m <==> k in old(buckets)[b] && (k in keys || old(buckets)[b][k].ttl < now)
          invariant forall k :: k in m ==> m[k] == old(buckets)[b][k]
          decreases keys
        {
          var key :| key in keys;
          if m[key].ttl >= now {
            m := Write(m, key, None);
          }
          keys := keys - {key};
        }
        buckets := buckets[b := m];
        todo := todo - {b};
      }
    }
  }
}
