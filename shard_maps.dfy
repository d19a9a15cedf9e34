/**
 * Value-level view of the sharded TTL store: the maps held by an array of
 * shards, where a key may live, and what writing, resharding and sweeping do
 * to the key/value contents the store presents to its callers.
 */
module ShardMaps {
  import opened Wrappers

  /** A stored value and the instant (Unix nanoseconds) at which it expires. */
  datatype Item<V> = Item(data: V, ttl: int)

  /** The errors of the sharded store. */
  datatype Error = ErrNilSlice | ErrItemExpired | ErrItemNotFound

  /** An index function maps (shard count, key) into [0, shard count). */
  ghost predicate IndexBounded<K(!new)>(f: (nat, K) -> nat)
  {
    forall n: nat, key: K :: 0 < n ==> f(n, key) < n
  }

  /**
   * The built-in index functions: a checksum of the key's bytes taken modulo
   * the shard count. The checksum itself is a parameter; a zero shard count,
   * for which the source would divide by zero, is never passed by the store.
   */
  function HashIndex<K(!new)>(hash: K -> nat): (f: (nat, K) -> nat)
    ensures IndexBounded(f)
    ensures forall n: nat, key: K :: 0 < n ==> f(n, key) == hash(key) % n
  {
    (n: nat, key: K) => if n == 0 then 0 else hash(key) % n
  }

  // ---------------------------------------------------------------------------
  // Placement and the contents of an array of shards
  // ---------------------------------------------------------------------------

  /** Every key sits in the shard the index function assigns it. */
  ghost predicate Placed<K(!new), V>(ms: seq<map<K, Item<V>>>, f: (nat, K) -> nat)
  {
    forall i, key :: 0 <= i < |ms| && key in ms[i] ==> f(|ms|, key) == i
  }

  /** No key is held by two shards. */
  ghost predicate Disjoint<K(!new), V>(ms: seq<map<K, Item<V>>>)
  {
    forall i, j, key :: 0 <= i < |ms| && 0 <= j < |ms| && key in ms[i] && key in ms[j] ==> i == j
  }

  /** The key/value contents of an array of shards: the union of its maps. */
  ghost function Flatten<K(!new), V>(ms: seq<map<K, Item<V>>>): map<K, Item<V>>
  {
    if ms == [] then map[] else Flatten(ms[..|ms| - 1]) + ms[|ms| - 1]
  }

  lemma PlacedDisjoint<K(!new), V>(ms: seq<map<K, Item<V>>>, f: (nat, K) -> nat)
    requires Placed(ms, f)
    ensures Disjoint(ms)
  {
    forall i, j, key | 0 <= i < |ms| && 0 <= j < |ms| && key in ms[i] && key in ms[j]
      ensures i == j
    {
      assert f(|ms|, key) == i && f(|ms|, key) == j;
    }
  }

  /** Dropping the last shard keeps keys unshared. */
  lemma DisjointInit<K(!new), V>(ms: seq<map<K, Item<V>>>)
    requires Disjoint(ms) && ms != []
    ensures Disjoint(ms[..|ms| - 1])
  {
    var init := ms[..|ms| - 1];
    forall a, b, k | 0 <= a < |init| && 0 <= b < |init| && k in init[a] && k in init[b]
      ensures a == b
    {
      assert init[a] == ms[a] && init[b] == ms[b];
    }
  }

  /** The last shard shares no key with the contents of the ones before it. */
  lemma LastApart<K(!new), V>(ms: seq<map<K, Item<V>>>, k: K)
    requires Disjoint(ms) && ms != [] && k in ms[|ms| - 1]
    ensures k !in Flatten(ms[..|ms| - 1])
  {
    var init := ms[..|ms| - 1];
    FlattenKeys(init, k);
    forall i | 0 <= i < |init| ensures k !in init[i] {
      assert init[i] == ms[i];
    }
  }

  /** A key is in the contents exactly when some shard holds it. */
  lemma {:induction false} FlattenKeys<K(!new), V>(ms: seq<map<K, Item<V>>>, key: K)
    ensures key in Flatten(ms) <==> exists i :: 0 <= i < |ms| && key in ms[i]
  {
    if ms != [] {
      var last := |ms| - 1;
      FlattenKeys(ms[..last], key);
      if key in Flatten(ms[..last]) {
        var i :| 0 <= i < last && key in ms[..last][i];
        assert key in ms[i];
      }
      if exists i :: 0 <= i < |ms| && key in ms[i] {
        var i :| 0 <= i < |ms| && key in ms[i];
        if i < last {
          assert key in ms[..last][i];
        }
      }
    }
  }

  /** When no key is shared, the contents give each key the item its shard holds. */
  lemma {:induction false} FlattenValue<K(!new), V>(ms: seq<map<K, Item<V>>>, i: nat, key: K)
    requires Disjoint(ms) && i < |ms| && key in ms[i]
    ensures key in Flatten(ms) && Flatten(ms)[key] == ms[i][key]
  {
    var last := |ms| - 1;
    if i < last {
      var init := ms[..last];
      assert init[i] == ms[i];
      DisjointInit(ms);
      FlattenValue(init, i, key);
    }
  }

  /**
   * With keys placed by the index function, a key is in the contents exactly
   * when its own shard holds it, with that shard's item.
   */
  lemma FlattenPlaced<K(!new), V>(ms: seq<map<K, Item<V>>>, f: (nat, K) -> nat, key: K)
    requires IndexBounded(f) && |ms| > 0 && Placed(ms, f)
    ensures key in Flatten(ms) <==> key in ms[f(|ms|, key)]
    ensures key in Flatten(ms) ==> Flatten(ms)[key] == ms[f(|ms|, key)][key]
  {
    FlattenKeys(ms, key);
    if key in ms[f(|ms|, key)] {
      PlacedDisjoint(ms, f);
      FlattenValue(ms, f(|ms|, key), key);
    }
  }

  /** Shards that all are empty hold nothing. */
  lemma {:induction false} FlattenEmpty<K(!new), V>(ms: seq<map<K, Item<V>>>)
    requires forall i :: 0 <= i < |ms| ==> ms[i] == map[]
    ensures Flatten(ms) == map[]
  {
    if ms != [] {
      var last := |ms| - 1;
      assert forall i :: 0 <= i < last ==> ms[..last][i] == ms[i];
      FlattenEmpty(ms[..last]);
    }
  }

  // ---------------------------------------------------------------------------
  // The contents as a read sees them
  // ---------------------------------------------------------------------------

  /** Every key some shard holds. */
  ghost function KeysOf<K(!new), V>(ms: seq<map<K, Item<V>>>): set<K>
  {
    set i, k | 0 <= i < |ms| && k in ms[i] :: k
  }

  /**
   * The contents a read reaches: a key is present when the shard the index
   * function assigns it holds it, with that shard's item. For placed shards
   * this is the union of all of them (`GatherIsFlatten`).
   */
  ghost function Gather<K(!new), V>(ms: seq<map<K, Item<V>>>, f: (nat, K) -> nat): map<K, Item<V>>
    requires IndexBounded(f)
  {
    if |ms| == 0 then map[]
    else map k | k in KeysOf(ms) && k in ms[f(|ms|, k)] :: ms[f(|ms|, k)][k]
  }

  /** A key is read from its own shard and nowhere else. */
  lemma GatherAt<K(!new), V>(ms: seq<map<K, Item<V>>>, f: (nat, K) -> nat, key: K)
    requires IndexBounded(f) && |ms| > 0
    ensures key in Gather(ms, f) <==> key in ms[f(|ms|, key)]
    ensures key in Gather(ms, f) ==> Gather(ms, f)[key] == ms[f(|ms|, key)][key]
  {
    var j := f(|ms|, key);
    if key in ms[j] {
      assert key in KeysOf(ms) by {
        assert 0 <= j < |ms| && key in ms[j];
      }
    }
  }

  /** With keys placed, what a read reaches is everything the shards hold. */
  lemma GatherIsFlatten<K(!new), V>(ms: seq<map<K, Item<V>>>, f: (nat, K) -> nat)
    requires IndexBounded(f) && Placed(ms, f)
    ensures Gather(ms, f) == Flatten(ms)
  {
    if |ms| > 0 {
      forall k
        ensures k in Gather(ms, f) <==> k in Flatten(ms)
        ensures k in Gather(ms, f) ==> Gather(ms, f)[k] == Flatten(ms)[k]
      {
        GatherAt(ms, f, k);
        FlattenPlaced(ms, f, k);
      }
    }
  }

  /** Empty shards present nothing. */
  lemma GatherEmpty<K(!new), V>(n: nat, f: (nat, K) -> nat)
    requires IndexBounded(f)
    ensures Placed(Empties<K, V>(n), f)
    ensures Gather(Empties<K, V>(n), f) == map[]
  {
    var e: seq<map<K, Item<V>>> := Empties(n);
    if n > 0 {
      forall k ensures k !in Gather(e, f) {
        GatherAt(e, f, k);
      }
    }
  }

  // ---------------------------------------------------------------------------
  // Writing one key
  // ---------------------------------------------------------------------------

  /** The shards after `key` is written, with item `it`, into its own shard. */
  ghost function Put<K(!new), V>(ms: seq<map<K, Item<V>>>, f: (nat, K) -> nat, key: K, it: Item<V>): (r: seq<map<K, Item<V>>>)
    requires IndexBounded(f) && |ms| > 0
    ensures |r| == |ms|
    ensures var j := f(|ms|, key);
            && key in r[j] && r[j][key] == it
            && (forall k :: k in r[j] && k != key ==> k in ms[j] && r[j][k] == ms[j][k])
            && (forall k :: k in ms[j] ==> k in r[j])
            && |r[j]| == if key in ms[j] then |ms[j]| else |ms[j]| + 1
    ensures forall i :: 0 <= i < |ms| && i != f(|ms|, key) ==> r[i] == ms[i]
  {
    var i := f(|ms|, key);
    ms[i := ms[i][key := it]]
  }

  /** Writing into the key's own shard keeps every key in its own shard. */
  lemma PutPlaced<K(!new), V>(ms: seq<map<K, Item<V>>>, f: (nat, K) -> nat, key: K, it: Item<V>)
    requires IndexBounded(f) && |ms| > 0 && Placed(ms, f)
    ensures Placed(Put(ms, f, key, it), f)
  {
    var n := |ms|;
    var r := Put(ms, f, key, it);
    forall i, k | 0 <= i < n && k in r[i] ensures f(n, k) == i {
      if k != key {
        assert k in ms[i];
      }
    }
  }

  /** Writing into the key's own shard changes what a read reaches at that key only. */
  lemma PutContents<K(!new), V>(ms: seq<map<K, Item<V>>>, f: (nat, K) -> nat, key: K, it: Item<V>)
    requires IndexBounded(f) && |ms| > 0
    ensures Gather(Put(ms, f, key, it), f) == Gather(ms, f)[key := it]
  {
    var r := Put(ms, f, key, it);
    var want := Gather(ms, f)[key := it];
    forall k
      ensures k in Gather(r, f) <==> k in want
      ensures k in Gather(r, f) ==> Gather(r, f)[k] == want[k]
    {
      GatherAt(r, f, k);
      GatherAt(ms, f, k);
    }
  }

  // ---------------------------------------------------------------------------
  // Resharding
  // ---------------------------------------------------------------------------

  /** The entries of `src` whose index among `n` shards is `j`. */
  ghost function Restrict<K(!new), V>(src: map<K, Item<V>>, f: (nat, K) -> nat, n: nat, j: nat): map<K, Item<V>>
  {
    map k | k in src && f(n, k) == j :: src[k]
  }

  /**
   * Copying one old shard into the new array: each entry goes to its index
   * among the new shards unless that shard already holds the key (the entry
   * already there wins).
   */
  ghost function Place<K(!new), V>(t: seq<map<K, Item<V>>>, src: map<K, Item<V>>, f: (nat, K) -> nat): (r: seq<map<K, Item<V>>>)
    ensures |r| == |t|
    ensures forall j, k :: 0 <= j < |t| ==> (k in r[j] <==> k in t[j] || (k in src && f(|t|, k) == j))
    ensures forall j, k :: 0 <= j < |t| && k in t[j] ==> r[j][k] == t[j][k]
    ensures forall j, k :: 0 <= j < |t| && k in r[j] && k !in t[j] ==> r[j][k] == src[k]
  {
    seq(|t|, j requires 0 <= j < |t| => Restrict(src, f, |t|, j) + t[j])
  }

  /** Copying the old shards, in order, into the new array `t`. */
  ghost function Migrate<K(!new), V>(t: seq<map<K, Item<V>>>, olds: seq<map<K, Item<V>>>, f: (nat, K) -> nat): (r: seq<map<K, Item<V>>>)
    ensures |r| == |t|
    ensures forall j, k :: 0 <= j < |t| && k in t[j] ==> k in r[j] && r[j][k] == t[j][k]
    ensures IndexBounded(f) && |t| > 0 ==>
              forall i, k :: 0 <= i < |olds| && k in olds[i] ==> k in r[f(|t|, k)]
    decreases |olds|
  {
    if olds == [] then t else Place(Migrate(t, olds[..|olds| - 1], f), olds[|olds| - 1], f)
  }

  /** `n` empty shards. */
  ghost function Empties<K(!new), V>(n: nat): (r: seq<map<K, Item<V>>>)
    ensures |r| == n && forall i :: 0 <= i < n ==> r[i] == map[]
  {
    seq(n, i => map[])
  }

  /** Copying one shard keeps placement and adds its entries to the contents, existing keys winning. */
  lemma PlaceContents<K(!new), V>(t: seq<map<K, Item<V>>>, src: map<K, Item<V>>, f: (nat, K) -> nat)
    requires IndexBounded(f) && |t| > 0 && Placed(t, f)
    ensures Placed(Place(t, src, f), f)
    ensures Flatten(Place(t, src, f)) == src + Flatten(t)
  {
    var r := Place(t, src, f);
    PlacePlaced(t, src, f);
    var want := src + Flatten(t);
    forall k
      ensures k in Flatten(r) <==> k in want
      ensures k in Flatten(r) ==> Flatten(r)[k] == want[k]
    {
      FlattenPlaced(r, f, k);
      FlattenPlaced(t, f, k);
      PlaceAt(t, src, f, k);
    }
  }

  /** At a key's own index, the copy holds the key exactly when the shard or the copied map did, the shard winning. */
  lemma PlaceAt<K(!new), V>(t: seq<map<K, Item<V>>>, src: map<K, Item<V>>, f: (nat, K) -> nat, k: K)
    requires IndexBounded(f) && |t| > 0
    ensures var j := f(|t|, k);
            && (k in Place(t, src, f)[j] <==> k in t[j] || k in src)
            && (k in t[j] ==> Place(t, src, f)[j][k] == t[j][k])
            && (k !in t[j] && k in src ==> Place(t, src, f)[j][k] == src[k])
  {
  }

  /** Copying one shard keeps every key in its own shard. */
  lemma PlacePlaced<K(!new), V>(t: seq<map<K, Item<V>>>, src: map<K, Item<V>>, f: (nat, K) -> nat)
    requires IndexBounded(f) && |t| > 0 && Placed(t, f)
    ensures Placed(Place(t, src, f), f)
  {
  }

  /** Copying one shard adds its entries to what a read reaches, keys already there winning. */
  lemma PlaceGather<K(!new), V>(t: seq<map<K, Item<V>>>, src: map<K, Item<V>>, f: (nat, K) -> nat)
    requires IndexBounded(f) && |t| > 0
    ensures Gather(Place(t, src, f), f) == src + Gather(t, f)
  {
    var r := Place(t, src, f);
    var want := src + Gather(t, f);
    forall k
      ensures k in Gather(r, f) <==> k in want
      ensures k in Gather(r, f) ==> Gather(r, f)[k] == want[k]
    {
      GatherAt(r, f, k);
      GatherAt(t, f, k);
      PlaceAt(t, src, f, k);
    }
  }

  /**
   * Resharding theorem: copying key-disjoint old shards into a placed array
   * yields a placed array whose contents are the old contents plus what the
   * array already held, the latter winning on a shared key. No key is lost.
   */
  lemma {:induction false} MigrateContents<K(!new), V>(t: seq<map<K, Item<V>>>, olds: seq<map<K, Item<V>>>, f: (nat, K) -> nat)
    requires IndexBounded(f) && |t| > 0 && Placed(t, f) && Disjoint(olds)
    ensures Placed(Migrate(t, olds, f), f)
    ensures Flatten(Migrate(t, olds, f)) == Flatten(olds) + Flatten(t)
  {
    if olds != [] {
      var last := |olds| - 1;
      var init := olds[..last];
      var o := olds[last];
      DisjointInit(olds);
      MigrateContents(t, init, f);
      PlaceContents(Migrate(t, init, f), o, f);
      forall k | k in o ensures k !in Flatten(init) {
        LastApart(olds, k);
      }
      UnionShift(o, Flatten(init), Flatten(t));
    }
  }

  /** Union with a map sharing no key with `a` may be taken on either side of it. */
  lemma UnionShift<K, X>(o: map<K, X>, a: map<K, X>, b: map<K, X>)
    requires forall k :: k in o ==> k !in a
    ensures o + (a + b) == (a + o) + b
  {
    forall k
      ensures k in o + (a + b) <==> k in (a + o) + b
      ensures k in o + (a + b) ==> (o + (a + b))[k] == ((a + o) + b)[k]
    {
    }
  }

  /** Resharding into fresh shards presents exactly the old contents. */
  lemma ResizeKeepsContents<K(!new), V>(n: nat, olds: seq<map<K, Item<V>>>, f: (nat, K) -> nat)
    requires IndexBounded(f) && n > 0 && Disjoint(olds)
    ensures Placed(Migrate(Empties(n), olds, f), f)
    ensures Flatten(Migrate(Empties(n), olds, f)) == Flatten(olds)
  {
    var e: seq<map<K, Item<V>>> := Empties(n);
    FlattenEmpty(e);
    MigrateContents(e, olds, f);
    assert Flatten(olds) + map[] == Flatten(olds);
  }

  /**
   * Resharding as a read sees it: the new array is placed for its own size
   * and a read reaches exactly what it reached in the old one.
   */
  lemma ResizeGather<K(!new), V>(n: nat, olds: seq<map<K, Item<V>>>, f: (nat, K) -> nat)
    requires IndexBounded(f) && n > 0 && Placed(olds, f)
    ensures Placed(Migrate(Empties(n), olds, f), f)
    ensures Gather(Migrate(Empties(n), olds, f), f) == Gather(olds, f)
  {
    PlacedDisjoint(olds, f);
    ResizeKeepsContents(n, olds, f);
    GatherIsFlatten(Migrate(Empties(n), olds, f), f);
    GatherIsFlatten(olds, f);
  }

  /**
   * A write made while a resize is copying survives it whichever comes
   * first. Written into both arrays before its old shard is copied, the
   * new array keeps its own copy `it` and never takes the old array's
   * copy `prev`, which carries a different clock reading. Written into the
   * new array after the copy, it replaces whatever was copied.
   */
  lemma SetDuringResizeSurvives<K(!new), V>(t: seq<map<K, Item<V>>>, src: map<K, Item<V>>, f: (nat, K) -> nat, key: K, it: Item<V>, prev: Item<V>)
    requires IndexBounded(f) && |t| > 0
    ensures key in Gather(Place(Put(t, f, key, it), src[key := prev], f), f)
    ensures Gather(Place(Put(t, f, key, it), src[key := prev], f), f)[key] == it
    ensures Gather(Put(Place(t, src, f), f, key, it), f) == Gather(Place(t, src, f), f)[key := it]
  {
    var before := Put(t, f, key, it);
    PutContents(t, f, key, it);
    PlaceGather(before, src[key := prev], f);
    PutContents(Place(t, src, f), f, key, it);
  }

  // ---------------------------------------------------------------------------
  // Expiry
  // ---------------------------------------------------------------------------

  /** The entries a sweep at `now` keeps: those whose expiry is not before `now`. */
  ghost function Unexpired<K(!new), V>(m: map<K, Item<V>>, now: int): (r: map<K, Item<V>>)
    ensures forall k :: k in r ==> k in m && r[k] == m[k] && now <= m[k].ttl
    ensures forall k :: k in m && now <= m[k].ttl ==> k in r
  {
    map k | k in m && !(m[k].ttl < now) :: m[k]
  }

  /** Every shard swept at `now`. */
  ghost function SweepAll<K(!new), V>(ms: seq<map<K, Item<V>>>, now: int): (r: seq<map<K, Item<V>>>)
    ensures |r| == |ms|
    ensures forall i, k :: 0 <= i < |ms| ==> (k in r[i] <==> k in ms[i] && now <= ms[i][k].ttl)
    ensures forall i, k :: 0 <= i < |ms| && k in r[i] ==> r[i][k] == ms[i][k]
  {
    seq(|ms|, i requires 0 <= i < |ms| => Unexpired(ms[i], now))
  }

  /** Sweeping shard by shard sweeps the contents as a whole. */
  lemma SweepContents<K(!new), V>(ms: seq<map<K, Item<V>>>, f: (nat, K) -> nat, now: int)
    requires IndexBounded(f) && Placed(ms, f)
    ensures Placed(SweepAll(ms, now), f)
    ensures Gather(SweepAll(ms, now), f) == Unexpired(Gather(ms, f), now)
  {
    var r := SweepAll(ms, now);
    if |ms| > 0 {
      var want := Unexpired(Gather(ms, f), now);
      forall k
        ensures k in Gather(r, f) <==> k in want
        ensures k in Gather(r, f) ==> Gather(r, f)[k] == want[k]
      {
        GatherAt(r, f, k);
        GatherAt(ms, f, k);
      }
    }
  }

  // ---------------------------------------------------------------------------
  // Reading one key
  // ---------------------------------------------------------------------------

  /** What Get reports for `key` at `now`, given the store's contents. */
  function Lookup<K(!new), V>(contents: map<K, Item<V>>, key: K, now: int): (r: Result<V, Error>)
    ensures r.Ok? <==> key in contents && now < contents[key].ttl
    ensures r.Ok? ==> r.value == contents[key].data
    ensures r.Err? && r.error == ErrItemExpired <==> key in contents && contents[key].ttl <= now
    ensures r.Err? && r.error == ErrItemNotFound <==> key !in contents
  {
    if key !in contents then Err(ErrItemNotFound)
    else if now < contents[key].ttl then Ok(contents[key].data)
    else Err(ErrItemExpired)
  }

  /** A value written at `now` with lifetime `ttl` is read back until it expires, then reads as expired. */
  lemma SetThenGet<K(!new), V>(contents: map<K, Item<V>>, key: K, data: V, now: int, ttl: int, t: int)
    requires now <= t
    ensures t < now + ttl ==> Lookup(contents[key := Item(data, now + ttl)], key, t) == Ok(data)
    ensures now + ttl <= t ==> Lookup(contents[key := Item(data, now + ttl)], key, t) == Err(ErrItemExpired)
  {
  }

  /** An expired item reads as expired until a sweep after its expiry, and as not found afterwards. */
  lemma SweptThenNotFound<K(!new), V>(contents: map<K, Item<V>>, key: K, t: int, now: int)
    requires Lookup(contents, key, t) == Err(ErrItemExpired) && contents[key].ttl < now
    ensures Lookup(Unexpired(contents, now), key, t) == Err(ErrItemNotFound)
  {
  }

  /** A sweep never changes what Get reports for an item still live at the sweep's instant. */
  lemma SweepKeepsLive<K(!new), V>(contents: map<K, Item<V>>, key: K, now: int, t: int)
    requires Lookup(contents, key, now).Ok?
    ensures Lookup(Unexpired(contents, now), key, t) == Lookup(contents, key, t)
  {
  }

  // ---------------------------------------------------------------------------
  // Counting
  // ---------------------------------------------------------------------------

  function Sum(s: seq<nat>): nat
  {
    if s == [] then 0 else Sum(s[..|s| - 1]) + s[|s| - 1]
  }

  /** The number of entries of each shard. */
  ghost function Sizes<K(!new), V>(ms: seq<map<K, Item<V>>>): (r: seq<nat>)
    ensures |r| == |ms| && forall i :: 0 <= i < |ms| ==> r[i] == |ms[i]|
  {
    seq(|ms|, i requires 0 <= i < |ms| => |ms[i]|)
  }

  /** With no key shared, the shard sizes add up to the number of keys stored. */
  lemma {:induction false} FlattenSize<K(!new), V>(ms: seq<map<K, Item<V>>>)
    requires Disjoint(ms)
    ensures |Flatten(ms)| == Sum(Sizes(ms))
  {
    if ms != [] {
      var last := |ms| - 1;
      var init := ms[..last];
      DisjointInit(ms);
      FlattenSize(init);
      assert Sizes(ms)[..last] == Sizes(init);
      var fi := Flatten(init);
      var o := ms[last];
      forall k | k in o ensures k !in fi.Keys {
        LastApart(ms, k);
      }
      assert fi.Keys * o.Keys == {};
      assert (fi + o).Keys == fi.Keys + o.Keys;
      assert |fi.Keys + o.Keys| == |fi.Keys| + |o.Keys|;
    }
  }

  /** The shard sizes add up to the number of keys a read can reach. */
  lemma GatherSize<K(!new), V>(ms: seq<map<K, Item<V>>>, f: (nat, K) -> nat)
    requires IndexBounded(f) && Placed(ms, f)
    ensures |Gather(ms, f)| == Sum(Sizes(ms))
  {
    PlacedDisjoint(ms, f);
    FlattenSize(ms);
    GatherIsFlatten(ms, f);
  }
}
