/** The cache object of pkg/cache/lru.go: a map of entries beside a recency list. */
module LruCache {
  import opened Options
  import opened LruModel

  datatype Item = Item(val: Value, expires: int)

  function RemoveKey(ks: seq<Key>, k: Key): seq<Key> {
    if ks == [] then [] else if ks[0] == k then ks[1..] else [ks[0]] + RemoveKey(ks[1..], k)
  }

  ghost predicate Covered(ks: seq<Key>, items: map<Key, Item>) {
    forall i :: 0 <= i < |ks| ==> ks[i] in items
  }

  /** The recency list a key order and an item map stand for. */
  ghost function Recency(ks: seq<Key>, items: map<Key, Item>): seq<Entry>
    requires Covered(ks, items)
  {
    if ks == [] then [] else [Entry(ks[0], items[ks[0]].val, items[ks[0]].expires)] + Recency(ks[1..], items)
  }

  ghost predicate NoRepeats(ks: seq<Key>) {
    forall i, j :: 0 <= i < j < |ks| ==> ks[i] != ks[j]
  }

  ghost predicate Agree(ks: seq<Key>, items: map<Key, Item>) {
    NoRepeats(ks) && Covered(ks, items) && forall k :: k in items ==> k in ks
  }

  lemma {:induction false} RecencyAt(ks: seq<Key>, items: map<Key, Item>)
    requires Covered(ks, items)
    ensures |Recency(ks, items)| == |ks|
    ensures forall i :: 0 <= i < |ks| ==> Recency(ks, items)[i] == Entry(ks[i], items[ks[i]].val, items[ks[i]].expires)
  {
    if ks != [] {
      RecencyAt(ks[1..], items);
      forall i | 0 < i < |ks| ensures Recency(ks, items)[i] == Entry(ks[i], items[ks[i]].val, items[ks[i]].expires) {
        assert Recency(ks, items)[i] == Recency(ks[1..], items)[i - 1];
      }
    }
  }

  lemma {:induction false} RecencyFind(ks: seq<Key>, items: map<Key, Item>, k: Key)
    requires Covered(ks, items)
    ensures Find(Recency(ks, items), k) == if k in ks then Some(Entry(k, items[k].val, items[k].expires)) else None
  {
    if ks != [] {
      RecencyFind(ks[1..], items, k);
    }
  }

  lemma {:induction false} RemoveKeyMembers(ks: seq<Key>, k: Key)
    requires NoRepeats(ks)
    ensures NoRepeats(RemoveKey(ks, k)) && forall x :: x in RemoveKey(ks, k) <==> x in ks && x != k
  {
    if ks != [] {
      RemoveKeyMembers(ks[1..], k);
      var rest := RemoveKey(ks[1..], k);
      forall i | 0 <= i < |rest| ensures rest[i] != ks[0] {
        assert rest[i] in ks[1..];
      }
    }
  }

  /** Items of keys outside the list do not matter to it. */
  lemma {:induction false} RecencyExt(ks: seq<Key>, items: map<Key, Item>, items': map<Key, Item>)
    requires Covered(ks, items) && Covered(ks, items')
    requires forall i :: 0 <= i < |ks| ==> items[ks[i]] == items'[ks[i]]
    ensures Recency(ks, items) == Recency(ks, items')
  {
    if ks != [] {
      RecencyExt(ks[1..], items, items');
    }
  }

  lemma {:induction false} RecencyDrop(ks: seq<Key>, items: map<Key, Item>, k: Key)
    requires Covered(ks, items) && NoRepeats(ks)
    ensures Covered(RemoveKey(ks, k), items) && Recency(RemoveKey(ks, k), items) == Drop(Recency(ks, items), k)
  {
    if ks != [] {
      RecencyDrop(ks[1..], items, k);
    }
  }

  /** The keys of `ks` that still have an item. */
  function Keep(ks: seq<Key>, present: set<Key>): seq<Key> {
    if ks == [] then [] else if ks[0] in present then [ks[0]] + Keep(ks[1..], present) else Keep(ks[1..], present)
  }

  lemma {:induction false} KeepAll(ks: seq<Key>, present: set<Key>)
    requires forall k :: k in ks ==> k in present
    ensures Keep(ks, present) == ks
  {
    if ks != [] {
      KeepAll(ks[1..], present);
    }
  }

  lemma {:induction false} KeepWithout(ks: seq<Key>, present: set<Key>, k: Key)
    requires NoRepeats(ks)
    ensures RemoveKey(Keep(ks, present), k) == Keep(ks, present - {k})
    ensures forall x :: x in Keep(ks, present) <==> x in ks && x in present
  {
    if ks != [] {
      KeepWithout(ks[1..], present, k);
      if ks[0] == k {
        KeepSame(ks[1..], present, k);
      }
    }
  }

  lemma {:induction false} KeepSame(ks: seq<Key>, present: set<Key>, k: Key)
    requires k !in ks
    ensures Keep(ks, present - {k}) == Keep(ks, present)
  {
    if ks != [] {
      KeepSame(ks[1..], present, k);
    }
  }

  lemma {:induction false} KeepIsLive(ks: seq<Key>, items: map<Key, Item>, live: set<Key>, now: int)
    requires Covered(ks, items)
    requires forall k :: k in ks ==> (k in live <==> !(now > items[k].expires))
    ensures Covered(Keep(ks, live), items) && Recency(Keep(ks, live), items) == Live(Recency(ks, items), now)
  {
    if ks != [] {
      KeepIsLive(ks[1..], items, live, now);
    }
  }

  lemma {:induction false} RemoveKeyLength(ks: seq<Key>, k: Key)
    ensures |RemoveKey(ks, k)| == if k in ks then |ks| - 1 else |ks|
  {
    if ks != [] {
      RemoveKeyLength(ks[1..], k);
    }
  }

  /** Taking a key out of both the list and the map drops its entry. */
  lemma TakeOut(ks: seq<Key>, items: map<Key, Item>, k: Key)
    requires Agree(ks, items) && k in items
    ensures Agree(RemoveKey(ks, k), items - {k}) && |RemoveKey(ks, k)| == |ks| - 1
    ensures Recency(RemoveKey(ks, k), items - {k}) == Drop(Recency(ks, items), k)
  {
    RecencyDrop(ks, items, k);
    RemoveKeyMembers(ks, k);
    RemoveKeyLength(ks, k);
    RecencyExt(RemoveKey(ks, k), items, items - {k});
  }

  /** Adding a key at the front of the list and to the map. */
  lemma PushFront(ks: seq<Key>, items: map<Key, Item>, k: Key, item: Item)
    requires Agree(ks, items) && k !in items
    ensures Agree([k] + ks, items[k := item])
    ensures Recency([k] + ks, items[k := item]) == [Entry(k, item.val, item.expires)] + Recency(ks, items)
  {
    assert ([k] + ks)[1..] == ks;
    RecencyExt(ks, items, items[k := item]);
  }

  /** Moving a present key to the front, with a possibly new item. */
  lemma MoveToFront(ks: seq<Key>, items: map<Key, Item>, k: Key, item: Item)
    requires Agree(ks, items) && k in items
    ensures var ks' := [k] + RemoveKey(ks, k);
      && Agree(ks', items[k := item]) && |ks'| == |ks|
      && Recency(ks', items[k := item]) == [Entry(k, item.val, item.expires)] + Drop(Recency(ks, items), k)
  {
    TakeOut(ks, items, k);
    PushFront(RemoveKey(ks, k), items - {k}, k, item);
    assert (items - {k})[k := item] == items[k := item];
  }

  lemma AgreeCovers(ks: seq<Key>, items: map<Key, Item>, k: Key)
    requires Agree(ks, items)
    ensures |Recency(ks, items)| == |ks| && (Find(Recency(ks, items), k).Some? <==> k in items)
  {
    RecencyAt(ks, items);
    RecencyFind(ks, items, k);
  }

  /** What a Put leaves, before a possible eviction. */
  lemma PutIs(ks: seq<Key>, items: map<Key, Item>, k: Key, item: Item, capacity: int)
    requires Agree(ks, items)
    ensures k in items ==>
      && Agree([k] + RemoveKey(ks, k), items[k := item]) && |[k] + RemoveKey(ks, k)| == |ks|
      && Recency([k] + RemoveKey(ks, k), items[k := item]) == PutList(Recency(ks, items), k, item.val, item.expires, capacity)
    ensures k !in items ==>
      && Agree([k] + ks, items[k := item])
      && var full := Recency([k] + ks, items[k := item]);
         PutList(Recency(ks, items), k, item.val, item.expires, capacity) == if |ks| + 1 > capacity then Front(full) else full
  {
    hide Recency, RemoveKey, Find, Drop, Front, Agree;
    AgreeCovers(ks, items, k);
    if k in items {
      MoveToFront(ks, items, k, item);
    } else {
      PushFront(ks, items, k, item);
    }
  }

  /** What an eviction leaves. */
  lemma EvictIs(ks: seq<Key>, items: map<Key, Item>)
    requires Agree(ks, items)
    ensures ks == [] ==> Recency(ks, items) == Front(Recency(ks, items))
    ensures ks != [] ==>
      var rest, fewer := ks[..|ks| - 1], items - {ks[|ks| - 1]};
      Agree(rest, fewer) && Recency(rest, fewer) == Front(Recency(ks, items))
  {
    if ks != [] {
      EvictAgrees(ks, items);
      RecencyFront(ks, items, items - {ks[|ks| - 1]});
    }
  }

  lemma EvictAgrees(ks: seq<Key>, items: map<Key, Item>)
    requires Agree(ks, items) && ks != []
    ensures Agree(ks[..|ks| - 1], items - {ks[|ks| - 1]})
  {
    var rest, last := ks[..|ks| - 1], ks[|ks| - 1];
    assert ks == rest + [last];
  }

  lemma {:induction false} RecencyFront(ks: seq<Key>, items: map<Key, Item>, fewer: map<Key, Item>)
    requires ks != [] && Covered(ks, items) && Covered(ks[..|ks| - 1], fewer)
    requires forall k :: k in fewer ==> k in items && fewer[k] == items[k]
    ensures Recency(ks[..|ks| - 1], fewer) == Front(Recency(ks, items))
  {
    if |ks| > 1 {
      assert ks[1..][..|ks| - 2] == ks[..|ks| - 1][1..];
      RecencyFront(ks[1..], items, fewer);
    }
  }

  class LRUCache {
    const capacity: int
    const ttl: int
    var items: map<Key, Item>
    var lruList: seq<Key>
    var hits: nat
    var misses: nat
    var evictions: nat

    ghost predicate Valid()
      reads this
    {
      Agree(lruList, items) && |lruList| <= Room(capacity)
    }

    /** The recency list, most recent first. */
    ghost function List(): seq<Entry>
      requires Valid()
      reads this
    {
      Recency(lruList, items)
    }

    constructor (capacity: int, ttl: int)
      ensures this.capacity == capacity && this.ttl == ttl
      ensures Valid() && List() == [] && hits == misses == evictions == 0
    {
      this.capacity, this.ttl := capacity, ttl;
      items, lruList := map[], [];
      hits, misses, evictions := 0, 0, 0;
    }

    method Get(key: Key, now: int) returns (r: Option<Value>)
      requires Valid()
      modifies this
      ensures Valid() && (List(), r) == GetList(old(List()), key, now)
      ensures evictions == old(evictions) && hits + misses == old(hits + misses) + 1
      ensures hits == old(hits) + if r.Some? then 1 else 0
      ensures items.Keys <= old(items.Keys)
    {
      hide Recency, RemoveKey, Find, Drop;
      RecencyFind(lruList, items, key);
      if key !in items {
        misses := misses + 1;
        return None;
      }
      var entry := items[key];
      if now > entry.expires {
        TakeOut(lruList, items, key);
        lruList := RemoveKey(lruList, key);
        items := items - {key};
        misses := misses + 1;
        return None;
      }
      MoveToFront(lruList, items, key, entry);
      assert items[key := entry] == items;
      lruList := [key] + RemoveKey(lruList, key);
      hits := hits + 1;
      return Some(entry.val);
    }

    method EvictOldest()
      requires Agree(lruList, items)
      modifies this
      ensures Agree(lruList, items) && Recency(lruList, items) == Front(old(Recency(lruList, items)))
      ensures lruList == if old(lruList) == [] then [] else old(lruList)[..|old(lruList)| - 1]
      ensures evictions == old(evictions) + (if old(lruList) == [] then 0 else 1)
      ensures hits == old(hits) && misses == old(misses) && items.Keys <= old(items.Keys)
    {
      hide Agree, Recency, Front;
      EvictIs(lruList, items);
      if lruList != [] {
        var oldest := lruList[|lruList| - 1];
        lruList := lruList[..|lruList| - 1];
        items := items - {oldest};
        evictions := evictions + 1;
      }
    }

    method Put(key: Key, value: Value, now: int)
      requires Valid()
      modifies this
      ensures Valid() && List() == PutList(old(List()), key, value, now + ttl, capacity)
      ensures evictions == old(evictions) + if Find(old(List()), key).None? && |old(List())| + 1 > capacity then 1 else 0
      ensures hits == old(hits) && misses == old(misses) && items.Keys <= old(items.Keys) + {key}
    {
      hide Recency, RemoveKey, Find, Drop, Front, PutList, Agree;
      var item := Item(value, now + ttl);
      PutIs(lruList, items, key, item, capacity);
      AgreeCovers(lruList, items, key);
      if key in items {
        items := items[key := item];
        lruList := [key] + RemoveKey(lruList, key);
        return;
      }
      lruList := [key] + lruList;
      items := items[key := item];
      if |lruList| > capacity {
        EvictOldest();
      }
    }

    method Clear()
      modifies `items, `lruList
      ensures Valid() && List() == [] && items == map[]
    {
      items, lruList := map[], [];
    }

    method CleanupExpired(now: int) returns (removed: nat)
      requires Valid()
      modifies `items, `lruList
      ensures Valid() && List() == Live(old(List()), now)
      ensures removed == |old(List())| - |List()| && items.Keys <= old(items.Keys)
    {
      hide Keep, RemoveKey;
      removed := 0;
      var todo := items.Keys;
      ghost var all, ks := items, lruList;
      KeepAll(ks, all.Keys);
      while todo != {}
        invariant todo <= items.Keys && Swept(ks, all, lruList, items, todo, now)
        invariant removed == |ks| - |lruList|
      {
        var key :| key in todo;
        todo := todo - {key};
        if now > items[key].expires {
          SweepOne(ks, all, lruList, items, todo, key, now);
          lruList := RemoveKey(lruList, key);
          items := items - {key};
          removed := removed + 1;
        }
      }
      SweepDone(ks, all, lruList, items, now);
    }
  }

  /** A clean-up in progress: everything outside `todo` that has expired is gone. */
  ghost predicate Swept(ks: seq<Key>, all: map<Key, Item>, list: seq<Key>, items: map<Key, Item>, todo: set<Key>, now: int) {
    && Agree(ks, all) && items.Keys <= all.Keys
    && (forall k :: k in items ==> items[k] == all[k])
    && (forall k :: k in all && k !in todo ==> (k in items <==> !(now > all[k].expires)))
    && list == Keep(ks, items.Keys)
  }

  lemma SweepOne(ks: seq<Key>, all: map<Key, Item>, list: seq<Key>, items: map<Key, Item>, todo: set<Key>, k: Key, now: int)
    requires Swept(ks, all, list, items, todo + {k}, now) && k in items && k !in todo && now > items[k].expires
    ensures Swept(ks, all, RemoveKey(list, k), items - {k}, todo, now)
    ensures |RemoveKey(list, k)| == |list| - 1
  {
    KeepWithout(ks, items.Keys, k);
    RemoveKeyLength(list, k);
    assert (items - {k}).Keys == items.Keys - {k};
  }

  lemma {:induction false} KeepNoRepeats(ks: seq<Key>, present: set<Key>)
    requires NoRepeats(ks)
    ensures NoRepeats(Keep(ks, present)) && |Keep(ks, present)| <= |ks|
    ensures forall x :: x in Keep(ks, present) <==> x in ks && x in present
  {
    if ks != [] {
      KeepNoRepeats(ks[1..], present);
      var rest := Keep(ks[1..], present);
      forall i | 0 <= i < |rest| ensures rest[i] != ks[0] {
        assert rest[i] in ks[1..];
      }
    }
  }

  lemma SweepDone(ks: seq<Key>, all: map<Key, Item>, list: seq<Key>, items: map<Key, Item>, now: int)
    requires Swept(ks, all, list, items, {}, now)
    ensures Agree(list, items) && |list| <= |ks| && Recency(list, items) == Live(Recency(ks, all), now)
    ensures |Recency(ks, all)| == |ks| && |Recency(list, items)| == |list|
  {
    KeepNoRepeats(ks, items.Keys);
    KeepIsLive(ks, all, items.Keys, now);
    RecencyExt(list, all, items);
    RecencyAt(ks, all);
    RecencyAt(list, items);
  }
}
