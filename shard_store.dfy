/**
 * The sharded TTL store: an array of shards, each a map from key to item with
 * a manually kept count, plus the second array a resize fills before it is
 * swapped in. Locks are left out (every operation runs alone) and the clock
 * is the explicit parameter `now`.
 */
module ShardStore {
  import opened Wrappers
  import opened ShardMaps

  /** One partition: its entries and the number of entries it counts. */
  class Shard<K(==, !new), V> {
    var m: map<K, Item<V>>
    var count: nat

    /** The count is kept equal to the number of entries. */
    ghost predicate Valid()
      reads this
    {
      count == |m|
    }

    constructor ()
      ensures Valid() && m == map[]
    {
      m := map[];
      count := 0;
    }

    /** Insert-if-absent: an entry already present is never overwritten. */
    method ItemSet(key: K, it: Item<V>)
      requires Valid()
      modifies this
      ensures Valid()
      ensures m == if key in old(m) then old(m) else old(m)[key := it]
      ensures count == if key in old(m) then old(count) else old(count) + 1
    {
      if key !in m {
        m := m[key := it];
        count := count + 1;
      }
    }

    /** One sweep of this shard: deletes exactly the entries that expired before `now`. */
    method ExpireDelete(now: int)
      requires Valid()
      modifies this
      ensures Valid() && m == Unexpired(old(m), now)
    {
      var keys := m.Keys;
      while keys != {}
        invariant Valid()
        invariant keys <= m.Keys
        invariant forall k :: k in m <==> k in old(m) && (k in keys || !(old(m)[k].ttl < now))
        invariant forall k :: k in m ==> m[k] == old(m)[k]
        decreases keys
      {
        var key :| key in keys;
        if m[key].ttl < now {
          RemoveOne(m, key);
          m := m - {key};
          count := count - 1;
        }
        keys := keys - {key};
      }
    }

    /**
     * Copies this shard's entries into the new slice `target`, each entry to
     * its index there and only where that shard does not hold the key yet.
     */
    method FillShards(f: (nat, K) -> nat, target: Shards<K, V>)
      requires IndexBounded(f) && target.Valid() && |target.shs| > 0 && this !in target.Repr
      modifies target.Repr
      ensures target.Valid() && target.Repr == old(target.Repr) && target.shs == old(target.shs)
      ensures target.maps == Place(old(target.maps), m, f)
    {
      var keys := m.Keys;
      ghost var done: map<K, Item<V>> := map[];
      PlaceNothing(target.maps, f);
      while keys != {}
        invariant target.Valid() && target.Repr == old(target.Repr) && target.shs == old(target.shs)
        invariant keys <= m.Keys
        invariant forall k :: k in done <==> k in m && k !in keys
        invariant forall k :: k in done ==> done[k] == m[k]
        invariant target.maps == Place(old(target.maps), done, f)
        decreases keys
      {
        var key :| key in keys;
        PlaceStep(old(target.maps), done, f, key, m[key]);
        target.ItemSet(f, key, m[key]);
        done := done[key := m[key]];
        keys := keys - {key};
      }
      assert done == m;
    }
  }

  /** Deleting a present key shrinks a map by one. */
  lemma RemoveOne<K, X>(m: map<K, X>, key: K)
    requires key in m
    ensures |m - {key}| == |m| - 1
  {
    assert (m - {key}).Keys == m.Keys - {key};
  }

  /** Copying nothing leaves the new array as it was. */
  lemma PlaceNothing<K(!new), V>(t: seq<map<K, Item<V>>>, f: (nat, K) -> nat)
    ensures Place(t, map[], f) == t
  {
    var none: map<K, Item<V>> := map[];
    forall j | 0 <= j < |t| ensures Place(t, none, f)[j] == t[j] {
      assert Restrict(none, f, |t|, j) == none;
    }
  }

  /** Adding one more copied entry changes only the key's shard, and only if that shard lacked it. */
  lemma PlaceStep<K(!new), V>(t: seq<map<K, Item<V>>>, done: map<K, Item<V>>, f: (nat, K) -> nat, key: K, v: Item<V>)
    requires IndexBounded(f) && |t| > 0 && key !in done
    ensures var j := f(|t|, key);
            var p := Place(t, done, f);
            Place(t, done[key := v], f) == p[j := if key in p[j] then p[j] else p[j][key := v]]
  {
    var j := f(|t|, key);
    var p := Place(t, done, f);
    var q := Place(t, done[key := v], f);
    var want := p[j := if key in p[j] then p[j] else p[j][key := v]];
    forall i | 0 <= i < |t| ensures q[i] == want[i] {
      RestrictStep(done, f, |t|, key, v, i);
    }
  }

  /** One more copied entry joins the copy bound for its own index and no other. */
  lemma RestrictStep<K(!new), V>(done: map<K, Item<V>>, f: (nat, K) -> nat, n: nat, key: K, v: Item<V>, i: nat)
    ensures Restrict(done[key := v], f, n, i) ==
              if i == f(n, key) then Restrict(done, f, n, i)[key := v] else Restrict(done, f, n, i)
  {
  }

  // ---------------------------------------------------------------------------
  // The `shards` slice
  // ---------------------------------------------------------------------------

  /** No shard object appears twice. */
  ghost predicate Distinct<K(!new), V>(shs: seq<Shard<K, V>>)
  {
    forall i, j :: 0 <= i < j < |shs| ==> shs[i] != shs[j]
  }

  /** The array holds the maps `ms`, one per shard, each with its count right. */
  ghost predicate Holds<K(!new), V>(shs: seq<Shard<K, V>>, ms: seq<map<K, Item<V>>>)
    reads shs
  {
    |shs| == |ms| && forall i :: 0 <= i < |shs| ==> shs[i].m == ms[i] && shs[i].Valid()
  }

  /**
   * The `shards` slice type: the shard objects in index order, with the maps
   * they hold as a ghost view.
   */
  class Shards<K(==, !new), V> {
    var shs: seq<Shard<K, V>>
    ghost var maps: seq<map<K, Item<V>>>
    ghost var Repr: set<object>

    ghost predicate Valid()
      reads this, Repr
    {
      && this in Repr
      && (forall i :: 0 <= i < |shs| ==> shs[i] in Repr)
      && Distinct(shs) && Holds(shs, maps)
    }

    /** `n` fresh empty shards; the starting size is only a capacity hint. */
    constructor (n: nat)
      ensures Valid() && fresh(Repr)
      ensures |shs| == n && maps == Empties(n)
    {
      var a: seq<Shard<K, V>> := [];
      ghost var objs: set<object> := {};
      for i := 0 to n
        invariant |a| == i && Distinct(a) && fresh(objs)
        invariant forall j :: 0 <= j < i ==> a[j] in objs
        invariant Holds(a, Empties(i))
      {
        var sh := new Shard();
        a := a + [sh];
        objs := objs + {sh};
      }
      shs := a;
      maps := Empties(n);
      Repr := objs + {this};
    }

    /** Looks only at the key's own shard; the slice must not be empty. */
    method Get(f: (nat, K) -> nat, key: K) returns (it: Option<Item<V>>)
      requires Valid() && IndexBounded(f) && |shs| > 0
      ensures it == if key in Gather(maps, f) then Some(Gather(maps, f)[key]) else None
    {
      var sh := shs[f(|shs|, key)];
      if key in sh.m {
        it := Some(sh.m[key]);
      } else {
        it := None;
      }
      GatherAt(maps, f, key);
    }

    /**
     * An empty slice is an error and is left alone; otherwise the key's own
     * shard gets `{data, now + ttl}`, its count growing exactly when the key
     * is new, and no other shard changes.
     */
    method Set(f: (nat, K) -> nat, key: K, ttl: int, data: V, now: int) returns (err: Option<Error>)
      requires Valid() && IndexBounded(f)
      modifies Repr
      ensures Valid() && Repr == old(Repr) && shs == old(shs)
      ensures err == if |shs| == 0 then Some(ErrNilSlice) else None
      ensures maps == if |shs| == 0 then old(maps) else Put(old(maps), f, key, Item(data, now + ttl))
    {
      if |shs| == 0 {
        return Some(ErrNilSlice);
      }
      var i := f(|shs|, key);
      var sh := shs[i];
      var it := Item(data, now + ttl);
      if key !in sh.m {
        sh.count := sh.count + 1;
      }
      sh.m := sh.m[key := it];
      maps := Put(maps, f, key, it);
      err := None;
      assert forall j :: 0 <= j < |shs| && j != i ==> shs[j] != sh;
    }

    /** Insert-if-absent into the key's own shard. */
    method ItemSet(f: (nat, K) -> nat, key: K, it: Item<V>)
      requires Valid() && IndexBounded(f) && |shs| > 0
      modifies Repr
      ensures Valid() && Repr == old(Repr) && shs == old(shs)
      ensures var j := f(|shs|, key);
              maps == old(maps)[j := if key in old(maps)[j] then old(maps)[j] else old(maps)[j][key := it]]
    {
      var j := f(|shs|, key);
      shs[j].ItemSet(key, it);
      maps := maps[j := shs[j].m];
      assert forall i :: 0 <= i < |shs| && i != j ==> shs[i] != shs[j];
    }

    /**
     * Copies every shard of `olds`, in index order, into this slice, each
     * entry to its index here unless the key is already present.
     */
    method FillFrom(f: (nat, K) -> nat, olds: Shards<K, V>)
      requires Valid() && olds.Valid() && IndexBounded(f) && |shs| > 0 && Repr !! olds.Repr
      modifies Repr
      ensures Valid() && Repr == old(Repr) && shs == old(shs)
      ensures maps == Migrate(old(maps), olds.maps, f)
    {
      for i := 0 to |olds.shs|
        invariant Valid() && Repr == old(Repr) && shs == old(shs)
        invariant maps == Migrate(old(maps), olds.maps[..i], f)
      {
        assert olds.maps[..i + 1][..i] == olds.maps[..i];
        olds.shs[i].FillShards(f, this);
      }
      assert olds.maps[..|olds.shs|] == olds.maps;
    }

    /** One sweep of every shard, in index order. */
    method ExpireDelete(now: int)
      requires Valid()
      modifies Repr
      ensures Valid() && Repr == old(Repr) && shs == old(shs)
      ensures maps == SweepAll(old(maps), now)
    {
      for i := 0 to |shs|
        invariant Valid() && Repr == old(Repr) && shs == old(shs)
        invariant forall j :: 0 <= j < |shs| ==> maps[j] == if j < i then Unexpired(old(maps)[j], now) else old(maps)[j]
      {
        shs[i].ExpireDelete(now);
        maps := maps[i := shs[i].m];
        assert forall j :: 0 <= j < |shs| && j != i ==> shs[j] != shs[i];
      }
    }

    /** Empties every shard and resets its count. */
    method Clear()
      requires Valid()
      modifies Repr
      ensures Valid() && Repr == old(Repr) && shs == old(shs)
      ensures maps == Empties(|shs|)
    {
      for i := 0 to |shs|
        invariant Valid() && Repr == old(Repr) && shs == old(shs)
        invariant forall j :: 0 <= j < |shs| ==> maps[j] == if j < i then map[] else old(maps)[j]
      {
        shs[i].m := map[];
        shs[i].count := 0;
        maps := maps[i := map[]];
        assert forall j :: 0 <= j < |shs| && j != i ==> shs[j] != shs[i];
      }
    }
  }

  // ---------------------------------------------------------------------------
  // Configuration
  // ---------------------------------------------------------------------------

  /** The store's configuration; durations are nanoseconds. */
  datatype Options = Options(countShard: nat, minSizeShard: nat, ttl: int, expireDelay: int)

  /** The configuration setters a caller passes to the constructor. */
  datatype StoreOption =
    | SetTTL(ttl: int)
    | SetCountShards(countShard: nat)
    | SetStartSizeShard(minSizeShard: nat)
    | SetExpireDelay(expireDelay: int)
  {
    function Apply(o: Options): Options
    {
      match this
      case SetTTL(d) => o.(ttl := d)
      case SetCountShards(n) => o.(countShard := n)
      case SetStartSizeShard(n) => o.(minSizeShard := n)
      case SetExpireDelay(d) => o.(expireDelay := d)
    }
  }

  const NanosPerMinute: int := 60_000_000_000

  /** The defaults set before any option runs: 128 shards of starting size 128, one-minute ttl and sweep interval. */
  const Defaults: Options := Options(128, 128, NanosPerMinute, NanosPerMinute)

  /** The options applied in order, the later one winning. */
  function ApplyOptions(o: Options, opts: seq<StoreOption>): (r: Options)
    ensures (forall i :: 0 <= i < |opts| ==> !opts[i].SetStartSizeShard?) ==> r.minSizeShard == o.minSizeShard
    ensures (forall i :: 0 <= i < |opts| ==> !opts[i].SetExpireDelay?) ==> r.expireDelay == o.expireDelay
    ensures (exists i :: 0 <= i < |opts| && opts[i].SetCountShards?) ==>
              exists i :: 0 <= i < |opts| && opts[i].SetCountShards? && r.countShard == opts[i].countShard
  {
    if opts == [] then o else opts[|opts| - 1].Apply(ApplyOptions(o, opts[..|opts| - 1]))
  }

  /** A shard count set by an option overrides the default; without one the default stays. */
  lemma {:induction false} CountShardOption(o: Options, opts: seq<StoreOption>)
    ensures (forall i :: 0 <= i < |opts| ==> !opts[i].SetCountShards?) ==>
              ApplyOptions(o, opts).countShard == o.countShard
    ensures forall i :: (0 <= i < |opts| && opts[i].SetCountShards? &&
                         forall j :: i < j < |opts| ==> !opts[j].SetCountShards?) ==>
              ApplyOptions(o, opts).countShard == opts[i].countShard
  {
    if opts != [] {
      var last := |opts| - 1;
      var init := opts[..last];
      CountShardOption(o, init);
      var prev := ApplyOptions(o, init);
      assert ApplyOptions(o, opts) == opts[last].Apply(prev);
      assert opts[last].Apply(prev).countShard == if opts[last].SetCountShards? then opts[last].countShard else prev.countShard;
      forall i | 0 <= i < |opts| && opts[i].SetCountShards? && (forall j :: i < j < |opts| ==> !opts[j].SetCountShards?)
        ensures ApplyOptions(o, opts).countShard == opts[i].countShard
      {
        if i < last {
          assert init[i] == opts[i];
          assert forall j :: i < j < last ==> init[j] == opts[j];
        }
      }
      assert forall i :: 0 <= i < last ==> init[i] == opts[i];
    }
  }

  /** A ttl set by an option overrides the default; without one the default stays. */
  lemma {:induction false} TTLOption(o: Options, opts: seq<StoreOption>)
    ensures (forall i :: 0 <= i < |opts| ==> !opts[i].SetTTL?) ==>
              ApplyOptions(o, opts).ttl == o.ttl
    ensures forall i :: (0 <= i < |opts| && opts[i].SetTTL? &&
                         forall j :: i < j < |opts| ==> !opts[j].SetTTL?) ==>
              ApplyOptions(o, opts).ttl == opts[i].ttl
  {
    if opts != [] {
      var last := |opts| - 1;
      var init := opts[..last];
      TTLOption(o, init);
      var prev := ApplyOptions(o, init);
      assert ApplyOptions(o, opts) == opts[last].Apply(prev);
      assert opts[last].Apply(prev).ttl == if opts[last].SetTTL? then opts[last].ttl else prev.ttl;
      forall i | 0 <= i < |opts| && opts[i].SetTTL? && (forall j :: i < j < |opts| ==> !opts[j].SetTTL?)
        ensures ApplyOptions(o, opts).ttl == opts[i].ttl
      {
        if i < last {
          assert init[i] == opts[i];
          assert forall j :: i < j < last ==> init[j] == opts[j];
        }
      }
      assert forall i :: 0 <= i < last ==> init[i] == opts[i];
    }
  }

  // ---------------------------------------------------------------------------
  // The store
  // ---------------------------------------------------------------------------

  class Store<K(==, !new), V> {
    /** The index function, fixed for the store's lifetime. */
    const fGetIndex: (nat, K) -> nat
    var shards: Shards<K, V>
    /** The slice being filled by a resize; `None` (Go's nil) outside a resize. */
    var resizeShards: Option<Shards<K, V>>
    var opt: Options
    /** The objects the store owns. */
    ghost var Repr: set<object>

    /**
     * Both slices are valid, own disjoint objects and keep every key where
     * the index function puts it; a resize target is non-empty.
     */
    ghost predicate Valid()
      reads this, Repr
    {
      && this in Repr
      && IndexBounded(fGetIndex)
      && shards in Repr && shards.Repr <= Repr && this !in shards.Repr
      && shards.Valid() && Placed(shards.maps, fGetIndex)
      && match resizeShards
         case None => true
         case Some(rs) =>
           && rs in Repr && rs.Repr <= Repr && this !in rs.Repr
           && rs.Valid() && |rs.shs| > 0 && Placed(rs.maps, fGetIndex)
           && shards.Repr !! rs.Repr
    }

    /** The key/value contents the store presents. */
    ghost function Contents(): map<K, Item<V>>
      reads this, shards
      requires IndexBounded(fGetIndex)
    {
      Gather(shards.maps, fGetIndex)
    }

    /**
     * Construction: the defaults, then every option in order, then
     * `countShard` fresh empty shards.
     */
    constructor (fGetIndex: (nat, K) -> nat, opts: seq<StoreOption>)
      requires IndexBounded(fGetIndex)
      ensures Valid() && fresh(Repr)
      ensures this.fGetIndex == fGetIndex && opt == ApplyOptions(Defaults, opts)
      ensures |shards.shs| == opt.countShard && resizeShards.None?
      ensures Contents() == map[]
    {
      var o := Defaults;
      for i := 0 to |opts|
        invariant o == ApplyOptions(Defaults, opts[..i])
      {
        assert opts[..i + 1][..i] == opts[..i];
        o := opts[i].Apply(o);
      }
      assert opts[..|opts|] == opts;
      var shs := new Shards(o.countShard);
      this.fGetIndex := fGetIndex;
      opt := o;
      shards := shs;
      resizeShards := None;
      Repr := {this} + shs.Repr;
      new;
      GatherEmpty<K, V>(o.countShard, fGetIndex);
    }

    /** What Get reports: the key's item while it lives, then expired, and not found when absent. */
    method Get(key: K, now: int) returns (r: Result<V, Error>)
      requires Valid() && |shards.shs| > 0
      ensures r == Lookup(Contents(), key, now)
    {
      var it := shards.Get(fGetIndex, key);
      match it
      case Some(item) =>
        if now < item.ttl {
          r := Ok(item.data);
        } else {
          r := Err(ErrItemExpired);
        }
      case None =>
        r := Err(ErrItemNotFound);
    }

    /** The write into the slice a resize is filling. */
    method SetResizeShards(key: K, data: V, now: int)
      requires Valid() && resizeShards.Some?
      modifies Repr
      ensures Valid() && Repr == old(Repr)
      ensures shards == old(shards) && resizeShards == old(resizeShards) && opt == old(opt)
      ensures shards.shs == old(shards.shs) && shards.maps == old(shards.maps)
      ensures resizeShards.value.maps == Put(old(resizeShards.value.maps), fGetIndex, key, Item(data, now + opt.ttl))
    {
      var rs := resizeShards.value;
      PutPlaced(rs.maps, fGetIndex, key, Item(data, now + opt.ttl));
      var _ := rs.Set(fGetIndex, key, opt.ttl, data, now);
    }

    /** The write into the live slice. */
    method SetShards(key: K, data: V, now: int) returns (err: Option<Error>)
      requires Valid()
      modifies Repr
      ensures Valid() && Repr == old(Repr)
      ensures shards == old(shards) && resizeShards == old(resizeShards) && opt == old(opt)
      ensures shards.shs == old(shards.shs)
      ensures resizeShards.Some? ==> resizeShards.value.maps == old(resizeShards.value.maps)
      ensures err == if |shards.shs| == 0 then Some(ErrNilSlice) else None
      ensures shards.maps == if |shards.shs| == 0 then old(shards.maps)
                             else Put(old(shards.maps), fGetIndex, key, Item(data, now + opt.ttl))
    {
      if |shards.shs| > 0 {
        PutPlaced(shards.maps, fGetIndex, key, Item(data, now + opt.ttl));
      }
      err := shards.Set(fGetIndex, key, opt.ttl, data, now);
    }

    /**
     * Set writes `{data, now + ttl}` under `key`. During a resize it first
     * writes into the slice being filled, so the write survives the swap;
     * each slice's write reads the clock on its own, so the resize copy
     * takes the earlier reading `nowResize` and the live copy `now`.
     */
    method Set(key: K, data: V, nowResize: int, now: int) returns (err: Option<Error>)
      requires Valid()
      modifies Repr
      ensures Valid() && Repr == old(Repr)
      ensures shards == old(shards) && resizeShards == old(resizeShards) && opt == old(opt)
      ensures shards.shs == old(shards.shs)
      ensures err == if |shards.shs| == 0 then Some(ErrNilSlice) else None
      ensures shards.maps == if |shards.shs| == 0 then old(shards.maps)
                             else Put(old(shards.maps), fGetIndex, key, Item(data, now + opt.ttl))
      ensures resizeShards.Some? ==>
                resizeShards.value.maps == Put(old(resizeShards.value.maps), fGetIndex, key, Item(data, nowResize + opt.ttl))
    {
      if resizeShards.Some? {
        SetResizeShards(key, data, nowResize);
      }
      err := SetShards(key, data, now);
    }

    /** The per-shard counts, in index order; they add up to the number of entries stored. */
    method GetCount() returns (out: seq<nat>)
      requires Valid()
      ensures |out| == |shards.shs|
      ensures forall i :: 0 <= i < |out| ==> out[i] == |shards.maps[i]|
      ensures Sum(out) == |Contents()|
    {
      out := [];
      for i := 0 to |shards.shs|
        invariant |out| == i
        invariant forall j :: 0 <= j < i ==> out[j] == |shards.maps[j]|
      {
        out := out + [shards.shs[i].count];
      }
      assert out == Sizes(shards.maps);
      GatherSize(shards.maps, fGetIndex);
    }

    /** Empties the live shards; a slice being filled by a resize is not touched. */
    method Clear()
      requires Valid()
      modifies Repr
      ensures Valid() && Repr == old(Repr)
      ensures shards == old(shards) && resizeShards == old(resizeShards) && opt == old(opt)
      ensures shards.shs == old(shards.shs) && shards.maps == Empties(|shards.shs|) && Contents() == map[]
      ensures resizeShards.Some? ==> resizeShards.value.maps == old(resizeShards.value.maps)
    {
      shards.Clear();
      GatherEmpty<K, V>(|shards.shs|, fGetIndex);
    }

    /** One tick of the expiry loop: sweeps every live shard at `now`. */
    method ExpireDelete(now: int)
      requires Valid()
      modifies Repr
      ensures Valid() && Repr == old(Repr)
      ensures shards == old(shards) && resizeShards == old(resizeShards) && opt == old(opt)
      ensures shards.maps == SweepAll(old(shards.maps), now)
      ensures Contents() == Unexpired(old(Contents()), now)
      ensures resizeShards.Some? ==> resizeShards.value.maps == old(resizeShards.value.maps)
    {
      SweepContents(shards.maps, fGetIndex, now);
      shards.ExpireDelete(now);
    }

    /** The filled slice becomes the live one and the resize slot is emptied. */
    method SwapShards()
      requires Valid() && resizeShards.Some?
      modifies this
      ensures Valid() && Repr == old(Repr) && opt == old(opt)
      ensures shards == old(resizeShards.value) && resizeShards.None?
    {
      shards := resizeShards.value;
      resizeShards := None;
    }

    /**
     * The first half of a resize: a fresh slice of `n` shards is put in the
     * resize slot and filled from the live shards.
     */
    method StartResize(n: nat)
      requires Valid() && n > 0
      modifies Repr
      ensures Valid() && fresh(Repr - old(Repr))
      ensures shards == old(shards) && shards.maps == old(shards.maps) && opt == old(opt)
      ensures resizeShards.Some? && |resizeShards.value.shs| == n
      ensures resizeShards.value.maps == Migrate(Empties(n), shards.maps, fGetIndex)
    {
      var rs := new Shards(n);
      resizeShards := Some(rs);
      Repr := Repr + rs.Repr;
      rs.FillFrom(fGetIndex, shards);
      ResizeGather(n, shards.maps, fGetIndex);
    }

    /** The live shards' counts added up: the number of keys the store holds. */
    method CountAll() returns (allCount: nat)
      requires Valid()
      ensures allCount == Sum(Sizes(shards.maps))
    {
      allCount := 0;
      for i := 0 to |shards.shs|
        invariant allCount == Sum(Sizes(shards.maps[..i]))
      {
        assert Sizes(shards.maps[..i + 1])[..i] == Sizes(shards.maps[..i]);
        allCount := allCount + shards.shs[i].count;
      }
      assert shards.maps[..|shards.shs|] == shards.maps;
    }

    /**
     * Resize: the live entries are counted, a fresh slice of `n` shards is
     * filled from the live shards in index order and then swapped in; the
     * contents are unchanged.
     */
    method Resize(n: nat)
      requires Valid() && n > 0
      modifies Repr
      ensures Valid() && fresh(Repr - old(Repr))
      ensures resizeShards.None? && opt == old(opt).(countShard := n) && |shards.shs| == n
      ensures shards.maps == Migrate(Empties(n), old(shards.maps), fGetIndex)
      ensures Contents() == old(Contents())
    {
      var allCount := CountAll();
      StartResize(n);
      ResizeGather(n, shards.maps, fGetIndex);
      opt := opt.(countShard := n);
      SwapShards();
    }
  }

  // ---------------------------------------------------------------------------
  // Constructors by key kind
  // ---------------------------------------------------------------------------

  /** A store over numeric keys, indexed by a checksum of the key's bytes. */
  method NewStoreNum<V>(checksum: int -> nat, opts: seq<StoreOption>) returns (s: Store<int, V>)
    ensures s.Valid() && fresh(s.Repr) && s.opt == ApplyOptions(Defaults, opts)
    ensures |s.shards.shs| == s.opt.countShard && s.Contents() == map[]
    ensures s.fGetIndex == HashIndex(checksum)
  {
    s := new Store(HashIndex(checksum), opts);
  }

  /** A store over fixed-length numeric sequence keys, indexed by a checksum of the key's bytes. */
  method NewStoreSeq<V>(checksum: seq<int> -> nat, opts: seq<StoreOption>) returns (s: Store<seq<int>, V>)
    ensures s.Valid() && fresh(s.Repr) && s.opt == ApplyOptions(Defaults, opts)
    ensures |s.shards.shs| == s.opt.countShard && s.Contents() == map[]
    ensures s.fGetIndex == HashIndex(checksum)
  {
    s := new Store(HashIndex(checksum), opts);
  }

  /** A store over string keys, indexed by a checksum of the key's bytes. */
  method NewStoreStr<V>(checksum: string -> nat, opts: seq<StoreOption>) returns (s: Store<string, V>)
    ensures s.Valid() && fresh(s.Repr) && s.opt == ApplyOptions(Defaults, opts)
    ensures |s.shards.shs| == s.opt.countShard && s.Contents() == map[]
    ensures s.fGetIndex == HashIndex(checksum)
  {
    s := new Store(HashIndex(checksum), opts);
  }
}
