/** The mutable version store of pkg/mvcc/version_store.go. */
module VersionStore {
  import opened Options
  import opened Mvcc

  function ChainIn(data: map<Key, Chain>, k: Key): Chain { if k in data then data[k] else [] }

  class Store {
    var data: map<Key, Chain>

    constructor ()
      ensures data == map[]
    {
      data := map[];
    }

    /** From the new number on snapshots of the key see the new value, older ones what they saw
        before; no version is lost and no other key is touched. */
    method Put(k: Key, v: Version)
      modifies this
      ensures data.Keys == old(data).Keys + {k} && forall x :: x in old(data) && x != k ==> data[x] == old(data)[x]
      ensures multiset(data[k]) == multiset(ChainIn(old(data), k)) + multiset{v} && data[k][1..] == ChainIn(old(data), k)
      ensures forall n :: Lookup(data[k], n) == (if v.number <= n then v.value else Lookup(ChainIn(old(data), k), n))
    {
      var chain := ChainIn(data, k);
      data := data[k := [v] + chain];
      assert data[k][1..] == chain;
    }

    /** Walks the chain from the head to the first version the snapshot may see. */
    method GetVersion(k: Key, snapshot: nat) returns (r: Option<Value>)
      ensures r == Lookup(ChainIn(data, k), snapshot)
    {
      if k !in data {
        return None;
      }
      var chain := data[k];
      var i := 0;
      assert chain[0..] == chain;
      while i < |chain|
        invariant 0 <= i <= |chain|
        invariant Visible(chain, snapshot) == Visible(chain[i..], snapshot)
      {
        if chain[i].number <= snapshot {
          return chain[i].value;
        }
        assert chain[i..][1..] == chain[i + 1..];
        i := i + 1;
      }
      return None;
    }

    /** Unlinks the old versions behind the head. */
    static method CollectChain(chain: Chain, min: nat) returns (r: Chain)
      ensures r == Collected(chain, min)
    {
      if |chain| < 2 {
        return chain;
      }
      r := chain[..1];
      var i := 1;
      assert AtLeast(chain[1..1], min) == [];
      while i < |chain|
        invariant 1 <= i <= |chain|
        invariant r == [chain[0]] + AtLeast(chain[1..i], min)
      {
        AtLeastAppend(chain[1..i], chain[i], min);
        assert chain[1..i + 1] == chain[1..i] + [chain[i]];
        if chain[i].number >= min {
          r := r + [chain[i]];
        }
        i := i + 1;
      }
      assert chain[1..|chain|] == chain[1..];
    }

    method GarbageCollect(min: nat)
      modifies this
      ensures data == map k | k in old(data) :: Collected(old(data)[k], min)
    {
      var keys := data.Keys;
      while keys != {}
        invariant keys <= data.Keys == old(data).Keys
        invariant forall k :: k in data ==> data[k] == if k in keys then old(data)[k] else Collected(old(data)[k], min)
        decreases |keys|
      {
        var k :| k in keys;
        keys := keys - {k};
        var chain := CollectChain(data[k], min);
        data := data[k := chain];
      }
    }
  }

  lemma {:induction false} AtLeastAppend(c: Chain, v: Version, min: nat)
    ensures AtLeast(c + [v], min) == AtLeast(c, min) + if v.number >= min then [v] else []
  {
    if c == [] {
      assert c + [v] == [v];
    } else {
      assert (c + [v])[1..] == c[1..] + [v];
      AtLeastAppend(c[1..], v, min);
      var head, tail := if c[0].number >= min then [c[0]] else [], if v.number >= min then [v] else [];
      var rest := AtLeast(c[1..], min);
      assert head + (rest + tail) == head + rest + tail;
      assert AtLeast(c + [v], min) == head + AtLeast((c + [v])[1..], min);
    }
  }
}
