/** The sharded cache of pkg/concurrent/sharded_lru.go: independent LRU shards selected by
    a masked hash.  Each shard is the cache object of LruCache with its own capacity. */
module ShardedLru {
  import opened Options
  import opened LruModel
  import opened LruCache
  import opened WordBits

  /** Go's division truncates toward zero. */
  function TruncDiv(a: int, b: int): int
    requires b > 0
  {
    if a >= 0 then a / b else -((-a) / b)
  }

  function ShardCapacity(capacity: int, count: nat): int
    requires count > 0
  {
    var c := TruncDiv(capacity, count);
    if c == 0 then 1 else c
  }

  ghost function Sizes(shards: seq<LRUCache>): nat
    reads shards
  {
    if shards == [] then 0 else |shards[0].lruList| + Sizes(shards[1..])
  }

  lemma {:induction false} SizesBound(shards: seq<LRUCache>, each: nat)
    requires forall i :: 0 <= i < |shards| ==> |shards[i].lruList| <= each
    ensures Sizes(shards) <= |shards| * each
  {
    if shards != [] {
      SizesBound(shards[1..], each);
      assert |shards| * each == each + (|shards| - 1) * each;
    }
  }

  /** All shards together never exceed the larger of the capacity and the shard count. */
  lemma CapacityBound(capacity: int, count: nat)
    requires count > 0
    ensures count * Room(ShardCapacity(capacity, count)) <= if capacity > count then capacity else count
  {
    if capacity >= 0 {
      assert count * (capacity / count) <= capacity;
    }
  }

  /** Nothing of the capacity is given away but the remainder of the division, and every shard has
      room for an entry. */
  lemma CapacityShared(capacity: int, count: nat)
    requires count > 0 && capacity >= 0
    ensures ShardCapacity(capacity, count) >= 1
    ensures capacity < count * ShardCapacity(capacity, count) + count
    ensures ShardCapacity(capacity, count) > 1 ==> count * ShardCapacity(capacity, count) <= capacity
  {
    assert capacity == count * (capacity / count) + capacity % count;
    if capacity / count == 0 {
      assert count * 0 == 0;
    }
  }

  lemma {:induction false} SizesAppend(a: seq<LRUCache>, b: seq<LRUCache>)
    ensures Sizes(a + b) == Sizes(a) + Sizes(b)
  {
    if a == [] {
      assert a + b == b;
    } else {
      SizesAppend(a[1..], b);
      assert (a + b)[1..] == a[1..] + b;
    }
  }

  lemma SizesAround(shards: seq<LRUCache>, n: nat)
    requires n < |shards|
    ensures Sizes(shards) == Sizes(shards[..n]) + |shards[n].lruList| + Sizes(shards[n + 1..])
  {
    SizesAppend(shards[..n], shards[n..]);
    assert shards == shards[..n] + shards[n..];
    assert shards[n..][1..] == shards[n + 1..];
  }

  lemma ListLength(shard: LRUCache)
    requires shard.Valid()
    ensures |shard.List()| == |shard.lruList|
  {
    RecencyAt(shard.lruList, shard.items);
  }

  lemma ChosenCount(n: Word32, count: Word32)
    requires n == 0 ==> count == 1
    requires n > 0 && And(n, n - 1) == 0 ==> count == n
    requires n > 0 && And(n, n - 1) != 0 ==> if n <= 0x8000_0000 then LeastPow2(n, count) else count == 0
    ensures count == 0 <==> n > 0x8000_0000
    ensures count > 0 ==> IsPow2(count) && (n > 0 ==> LeastPow2(n, count))
  {
    if n == 0 {
      assert count == Pow(0);
    } else {
      PowerTest(n);
      NoPowerAbove(n);
    }
  }

  lemma {:induction false} SizeIsLength(ks: seq<Key>, items: map<Key, Item>)
    requires Agree(ks, items)
    ensures |items| == |ks|
  {
    if ks != [] {
      var rest := items - {ks[0]};
      assert Agree(ks[1..], rest);
      SizeIsLength(ks[1..], rest);
      assert items.Keys == rest.Keys + {ks[0]};
      assert |items.Keys| == |rest.Keys| + 1;
    } else {
      assert items.Keys == {};
    }
  }

  class ShardedLRUCache {
    var shards: seq<LRUCache>
    const shardMask: Word32
    const capacity: int
    const ttl: int
    const hash: Key -> Word32

    /** The shard of a key; equal to the hash modulo the number of shards. */
    function Index(key: Key): nat
    {
      And(hash(key), shardMask)
    }

    ghost predicate Valid()
      reads this, shards
    {
      && |shards| == shardMask + 1 && IsPow2(|shards|)
      && (forall i, j :: 0 <= i < j < |shards| ==> shards[i] != shards[j])
      && (forall i :: 0 <= i < |shards| ==>
            && shards[i].Valid() && shards[i].ttl == ttl
            && shards[i].capacity == ShardCapacity(capacity, |shards|))
      && (forall i, k :: 0 <= i < |shards| && k in shards[i].items ==> Index(k) == i)
    }

    lemma IndexIsMod(key: Key)
      requires Valid()
      ensures Index(key) == hash(key) % |shards| < |shards|
    {
      var k: nat :| |shards| == Pow(k);
      MaskIsMod(hash(key), k);
    }

    /** Rounds the shard count up to a power of two and divides the capacity among the shards.
        Above 2^31 the rounded count is zero and the division fails. */
    static method New(capacity: int, ttl: int, shardCount: Word32, hash: Key -> Word32) returns (r: ShardedLRUCache?)
      ensures r == null <==> shardCount > 0x8000_0000
      ensures r != null ==>
        && fresh(r) && r.Valid() && fresh(r.shards) && r.capacity == capacity && r.ttl == ttl && r.hash == hash
        && (if shardCount == 0 then |r.shards| == 1 else LeastPow2(shardCount, |r.shards|))
        && forall i :: 0 <= i < |r.shards| ==> r.shards[i].List() == []
    {
      var count := shardCount;
      if shardCount == 0 || And(shardCount, shardCount - 1) != 0 {
        count := NextPowerOfTwo(shardCount);
      }
      ChosenCount(shardCount, count);
      if count == 0 {
        return null;
      }
      r := new ShardedLRUCache(capacity, ttl, count, hash);
    }

    constructor (capacity: int, ttl: int, count: Word32, hash: Key -> Word32)
      requires count > 0 && IsPow2(count)
      ensures Valid() && fresh(shards) && |shards| == count
      ensures this.capacity == capacity && this.ttl == ttl && this.hash == hash
      ensures forall i :: 0 <= i < |shards| ==> shards[i].List() == []
    {
      var each := ShardCapacity(capacity, count);
      var list: seq<LRUCache> := [];
      for i := 0 to count
        invariant |list| == i && fresh(list)
        invariant forall j :: 0 <= j < i ==> list[j].Valid() && list[j].List() == [] && list[j].items == map[]
        invariant forall j :: 0 <= j < i ==> list[j].ttl == ttl && list[j].capacity == each
        invariant forall j, k :: 0 <= j < k < i ==> list[j] != list[k]
      {
        var shard := new LRUCache(each, ttl);
        list := list + [shard];
      }
      this.shards, this.shardMask, this.capacity, this.ttl, this.hash := list, count - 1, capacity, ttl, hash;
    }

    /** Sums the shard sizes; the total stays within the larger of capacity and shard count. */
    method Size() returns (total: nat)
      requires Valid()
      ensures total == Sizes(shards)
      ensures total <= if capacity > |shards| then capacity else |shards|
    {
      total := 0;
      for i := 0 to |shards|
        invariant total + Sizes(shards[i..]) == Sizes(shards)
      {
        assert shards[i..][1..] == shards[i + 1..];
        SizeIsLength(shards[i].lruList, shards[i].items);
        total := total + |shards[i].items|;
      }
      SizesBound(shards, Room(ShardCapacity(capacity, |shards|)));
      CapacityBound(capacity, |shards|);
    }

    /** Looks only at the key's own shard, where it acts as the plain LRU cache does. */
    method Get(key: Key, now: int) returns (r: Option<Value>)
      requires Valid()
      modifies shards
      ensures Valid() && shards == old(shards) && Index(key) < |shards|
      ensures (shards[Index(key)].List(), r) == GetList(old(shards[Index(key)].List()), key, now)
      ensures forall i :: 0 <= i < |shards| && i != Index(key) ==> shards[i].List() == old(shards[i].List())
    {
      hide And, IsPow2, Agree, Recency, ShardCapacity, GetList, PutList;
      IndexIsMod(key);
      var shard := shards[Index(key)];
      r := shard.Get(key, now);
    }

    method Put(key: Key, value: Value, now: int)
      requires Valid()
      modifies shards
      ensures Valid() && shards == old(shards) && Index(key) < |shards|
      ensures shards[Index(key)].List() == PutList(old(shards[Index(key)].List()), key, value, now + ttl, ShardCapacity(capacity, |shards|))
      ensures forall i :: 0 <= i < |shards| && i != Index(key) ==> shards[i].List() == old(shards[i].List())
    {
      hide And, IsPow2, Agree, Recency, ShardCapacity, GetList, PutList;
      IndexIsMod(key);
      var shard := shards[Index(key)];
      shard.Put(key, value, now);
    }

    method Clear()
      requires Valid()
      modifies shards
      ensures Valid() && shards == old(shards)
      ensures forall i :: 0 <= i < |shards| ==> shards[i].List() == []
    {
      hide And, IsPow2, Agree, Recency, ShardCapacity;
      for n := 0 to |shards|
        invariant shards == old(shards) && Valid()
        invariant forall i :: 0 <= i < n ==> shards[i].List() == []
      {
        shards[n].Clear();
      }
    }

    method CleanShard(n: nat, now: int) returns (removed: nat)
      requires Valid() && n < |shards|
      modifies shards[n]
      ensures Valid() && shards[n].List() == Live(old(shards[n].List()), now)
      ensures removed + Sizes(shards) == old(Sizes(shards))
    {
      hide And, IsPow2, Agree, Recency, ShardCapacity, Live;
      SizesAround(shards, n);
      ListLength(shards[n]);
      removed := shards[n].CleanupExpired(now);
      SizesAround(shards, n);
      ListLength(shards[n]);
    }

    method CleanupExpired(now: int) returns (total: nat)
      requires Valid()
      modifies shards
      ensures Valid() && shards == old(shards)
      ensures forall i :: 0 <= i < |shards| ==> shards[i].List() == Live(old(shards[i].List()), now)
      ensures total == old(Sizes(shards)) - Sizes(shards)
    {
      hide And, IsPow2, Agree, Recency, ShardCapacity, Live, Sizes;
      total := 0;
      for n := 0 to |shards|
        invariant shards == old(shards) && Valid()
        invariant forall i :: 0 <= i < n ==> shards[i].List() == Live(old(shards[i].List()), now)
        invariant forall i :: n <= i < |shards| ==> shards[i].List() == old(shards[i].List())
        invariant total + Sizes(shards) == old(Sizes(shards))
      {
        var removed := CleanShard(n, now);
        total := total + removed;
      }
    }
  }
}
