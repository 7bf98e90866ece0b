/** In-order contents of a valid B+ tree: sorted, within the node's bounds, and
    split around any key by the descent the operations share. */
module BTreeOrder {
  import opened Options
  import opened OrderedEntries
  import opened BTreeModel

  ghost predicate InRange(s: seq<Entry>, lo: Option<Key>, hi: Option<Key>) {
    forall i :: 0 <= i < |s| ==> AtLeast(lo, s[i].key) && Below(s[i].key, hi)
  }

  lemma {:induction false} ZipAt(keys: seq<Key>, vals: seq<Value>)
    requires |keys| == |vals|
    ensures |Zip(keys, vals)| == |keys|
    ensures forall i :: 0 <= i < |keys| ==> Zip(keys, vals)[i] == Entry(keys[i], vals[i])
  {
    if keys != [] {
      ZipAt(keys[1..], vals[1..]);
    }
  }

  lemma ShapedKids(keys: seq<Key>, kids: seq<Tree>, lo: Option<Key>, hi: Option<Key>, h: nat, order: nat)
    requires KidsValid(keys, kids, lo, hi, h, order)
    ensures AllShaped(kids)
  {
    forall i | 0 <= i < |kids| ensures Shaped(kids[i]) {
      ValidIsShaped(kids[i], Lower(keys, i, lo), Upper(keys, i, hi), h, order);
    }
  }

  /** The contents of a valid tree are strictly sorted and stay within its bounds. */
  lemma {:induction false} EntriesSorted(t: Tree, lo: Option<Key>, hi: Option<Key>, h: nat, order: nat)
    requires Valid(t, lo, hi, h, order)
    ensures Shaped(t) && Sorted(Entries(t)) && InRange(Entries(t), lo, hi)
    decreases t
  {
    ValidIsShaped(t, lo, hi, h, order);
    match t
    case Leaf(keys, vals) => ZipAt(keys, vals);
    case Node(keys, kids) =>
      SuffixSorted(keys, kids, lo, hi, h - 1, order, 0);
      assert kids[0..] == kids;
  }

  lemma {:induction false} SuffixSorted(keys: seq<Key>, kids: seq<Tree>, lo: Option<Key>, hi: Option<Key>, h: nat, order: nat, i: nat)
    requires KidsValid(keys, kids, lo, hi, h, order) && i < |kids|
    ensures AllShaped(kids[i..])
    ensures Sorted(Forest(kids[i..])) && InRange(Forest(kids[i..]), Lower(keys, i, lo), hi)
    decreases kids, |kids| - i
  {
    ShapedKids(keys, kids, lo, hi, h, order);
    EntriesSorted(kids[i], Lower(keys, i, lo), Upper(keys, i, hi), h, order);
    assert kids[i..][1..] == kids[i + 1..];
    if i + 1 < |kids| {
      SuffixSorted(keys, kids, lo, hi, h, order, i + 1);
      assert Precedes(Entries(kids[i]), Forest(kids[i + 1..]));
      SortedAppend(Entries(kids[i]), Forest(kids[i + 1..]));
    }
  }

  lemma {:induction false} PrefixBelow(keys: seq<Key>, kids: seq<Tree>, lo: Option<Key>, hi: Option<Key>, h: nat, order: nat, i: nat)
    requires KidsValid(keys, kids, lo, hi, h, order) && 0 < i <= |keys|
    ensures AllShaped(kids[..i])
    ensures InRange(Forest(kids[..i]), lo, Some(keys[i - 1]))
  {
    ShapedKids(keys, kids, lo, hi, h, order);
    EntriesSorted(kids[i - 1], Lower(keys, i - 1, lo), Upper(keys, i - 1, hi), h, order);
    ForestAppend(kids[..i - 1], kids[i - 1..i]);
    assert kids[..i - 1] + kids[i - 1..i] == kids[..i];
    assert Forest(kids[i - 1..i]) == Entries(kids[i - 1]) + Forest([]);
    if i > 1 {
      PrefixBelow(keys, kids, lo, hi, h, order, i - 1);
    }
  }

  /** Around child `pos` the contents split into a part before, the child, and a part after. */
  lemma ForestAround(kids: seq<Tree>, pos: nat)
    requires AllShaped(kids)
    requires pos < |kids|
    ensures Forest(kids) == Forest(kids[..pos]) + Entries(kids[pos]) + Forest(kids[pos + 1..])
  {
    assert kids == kids[..pos] + kids[pos..];
    ForestAppend(kids[..pos], kids[pos..]);
    assert kids[pos..][1..] == kids[pos + 1..];
  }

  /** The descent for `k` leaves only smaller keys to its left and larger ones to its right. */
  lemma Locate(keys: seq<Key>, kids: seq<Tree>, lo: Option<Key>, hi: Option<Key>, h: nat, order: nat, k: Key)
    requires KidsValid(keys, kids, lo, hi, h, order)
    requires AtLeast(lo, k) && Below(k, hi)
    ensures AllShaped(kids)
    ensures var pos := Position(keys, k);
      && AtLeast(Lower(keys, pos, lo), k) && Below(k, Upper(keys, pos, hi))
      && InRange(Forest(kids[..pos]), None, Some(k))
      && InRange(Forest(kids[pos + 1..]), Some(k + 1), None)
      && Forest(kids) == Forest(kids[..pos]) + Entries(kids[pos]) + Forest(kids[pos + 1..])
  {
    hide Forest, Entries, Shaped, Valid, InRange;
    var pos := Position(keys, k);
    ShapedKids(keys, kids, lo, hi, h, order);
    ForestAround(kids, pos);
    if pos > 0 {
      PrefixBelow(keys, kids, lo, hi, h, order, pos);
      Loosen(Forest(kids[..pos]), lo, Some(keys[pos - 1]), None, Some(k));
    } else {
      NothingInRange(kids[..pos], None, Some(k));
    }
    if pos < |keys| {
      SuffixSorted(keys, kids, lo, hi, h, order, pos + 1);
      Loosen(Forest(kids[pos + 1..]), Some(keys[pos]), hi, Some(k + 1), None);
    } else {
      NothingInRange(kids[pos + 1..], Some(k + 1), None);
    }
  }

  /** Looser bounds hold as well. */
  lemma Loosen(s: seq<Entry>, lo: Option<Key>, hi: Option<Key>, lo': Option<Key>, hi': Option<Key>)
    requires InRange(s, lo, hi)
    requires lo'.Some? ==> lo.Some? && lo'.value <= lo.value
    requires hi'.Some? ==> hi.Some? && hi.value <= hi'.value
    ensures InRange(s, lo', hi')
  {
  }

  lemma NothingInRange(kids: seq<Tree>, lo: Option<Key>, hi: Option<Key>)
    requires kids == []
    ensures AllShaped(kids) && InRange(Forest(kids), lo, hi)
  {
  }

  // ---- searching

  lemma {:induction false} FindInLeafComplete(keys: seq<Key>, k: Key)
    requires Ascending(keys)
    ensures FindInLeaf(keys, k).None? ==> k !in keys
  {
    if keys != [] && k > keys[0] {
      FindInLeafComplete(keys[1..], k);
    }
  }

  /** Searching a valid tree reads exactly the entry its contents hold for the key. */
  lemma {:induction false} SearchCorrect(t: Tree, k: Key, lo: Option<Key>, hi: Option<Key>, h: nat, order: nat)
    requires Valid(t, lo, hi, h, order) && AtLeast(lo, k) && Below(k, hi)
    ensures Shaped(t)
    ensures Search(t, k).None? <==> !HasKey(Entries(t), k)
    ensures forall v :: Search(t, k) == Some(v) ==> Entry(k, v) in Entries(t)
    decreases t
  {
    ValidIsShaped(t, lo, hi, h, order);
    match t
    case Leaf(keys, vals) =>
      ZipAt(keys, vals);
      FindInLeafComplete(keys, k);
      var found := FindInLeaf(keys, k);
      if found.Some? {
        assert Zip(keys, vals)[found.value] == Entry(k, vals[found.value]);
      }
    case Node(keys, kids) =>
      var pos := Position(keys, k);
      Locate(keys, kids, lo, hi, h - 1, order, k);
      SearchCorrect(kids[pos], k, Lower(keys, pos, lo), Upper(keys, pos, hi), h - 1, order);
      KeyInMiddle(Forest(kids[..pos]), Entries(kids[pos]), Forest(kids[pos + 1..]), k);
  }

  lemma KeyInMiddle(a: seq<Entry>, e: seq<Entry>, b: seq<Entry>, k: Key)
    requires !HasKey(a, k) && !HasKey(b, k)
    ensures HasKey(a + e + b, k) <==> HasKey(e, k)
  {
    var s := a + e + b;
    if HasKey(e, k) {
      var i :| 0 <= i < |e| && e[i].key == k;
      assert s[|a| + i] == e[i];
    }
  }

  // ---- deleting

  lemma RemoveLater<T>(s: seq<T>, i: nat)
    requires 0 < i < |s|
    ensures RemoveAt(s, i)[0] == s[0] && RemoveAt(s, i)[1..] == RemoveAt(s[1..], i - 1)
  {
    assert s[..i][1..] == s[1..][..i - 1];
    assert s[1..][i..] == s[i + 1..];
  }

  lemma {:induction false} ZipRemove(keys: seq<Key>, vals: seq<Value>, i: nat)
    requires |keys| == |vals| && i < |keys| && Ascending(keys)
    ensures Zip(RemoveAt(keys, i), RemoveAt(vals, i)) == Without(Zip(keys, vals), keys[i])
  {
    if i == 0 {
      assert RemoveAt(keys, i) == keys[1..] && RemoveAt(vals, i) == vals[1..];
      ZipAt(keys[1..], vals[1..]);
      WithoutAbsent(Zip(keys[1..], vals[1..]), keys[0]);
    } else {
      ZipRemove(keys[1..], vals[1..], i - 1);
      RemoveLater(keys, i);
      RemoveLater(vals, i);
    }
  }

  lemma DeleteFromLeaf(keys: seq<Key>, vals: seq<Value>, k: Key, lo: Option<Key>, hi: Option<Key>, order: nat)
    requires Valid(Leaf(keys, vals), lo, hi, 1, order)
    ensures Valid(Delete(Leaf(keys, vals), k), lo, hi, 1, order)
    ensures Entries(Delete(Leaf(keys, vals), k)) == Without(Zip(keys, vals), k)
  {
    FindInLeafComplete(keys, k);
    var found := FindInLeaf(keys, k);
    if found.Some? {
      ZipRemove(keys, vals, found.value);
    } else {
      ZipAt(keys, vals);
      WithoutAbsent(Zip(keys, vals), k);
    }
  }

  /** Replacing one child by another with the same bounds keeps the children valid. */
  lemma ReplaceKid(keys: seq<Key>, kids: seq<Tree>, lo: Option<Key>, hi: Option<Key>, h: nat, order: nat, pos: nat, kid: Tree)
    requires KidsValid(keys, kids, lo, hi, h, order) && pos < |kids|
    requires Valid(kid, Lower(keys, pos, lo), Upper(keys, pos, hi), h, order)
    ensures KidsValid(keys, kids[pos := kid], lo, hi, h, order)
    ensures AllShaped(kids[pos := kid])
    ensures Forest(kids[pos := kid]) == Forest(kids[..pos]) + Entries(kid) + Forest(kids[pos + 1..])
  {
    var kids' := kids[pos := kid];
    ShapedKids(keys, kids', lo, hi, h, order);
    ForestAround(kids', pos);
    assert kids'[..pos] == kids[..pos] && kids'[pos + 1..] == kids[pos + 1..];
  }

  lemma KeyOutside(a: seq<Entry>, b: seq<Entry>, k: Key)
    requires InRange(a, None, Some(k)) && InRange(b, Some(k + 1), None)
    ensures !HasKey(a, k) && !HasKey(b, k)
  {
  }

  lemma DeleteFromNode(keys: seq<Key>, kids: seq<Tree>, k: Key, lo: Option<Key>, hi: Option<Key>, h: nat, order: nat, kid: Tree)
    requires KidsValid(keys, kids, lo, hi, h, order) && AtLeast(lo, k) && Below(k, hi)
    requires var pos := Position(keys, k);
      && Valid(kid, Lower(keys, pos, lo), Upper(keys, pos, hi), h, order) && Shaped(kids[pos]) && Shaped(kid)
      && Entries(kid) == Without(Entries(kids[pos]), k)
    ensures KidsValid(keys, kids[Position(keys, k) := kid], lo, hi, h, order)
    ensures AllShaped(kids) && AllShaped(kids[Position(keys, k) := kid])
    ensures Forest(kids[Position(keys, k) := kid]) == Without(Forest(kids), k)
  {
    hide Forest, Entries, Valid, Shaped, Without, Lower, Upper, SeparatorsIn, InRange, HasKey;
    var pos := Position(keys, k);
    Locate(keys, kids, lo, hi, h, order, k);
    KeyOutside(Forest(kids[..pos]), Forest(kids[pos + 1..]), k);
    WithoutInMiddle(Forest(kids[..pos]), Entries(kids[pos]), Forest(kids[pos + 1..]), k);
    ReplaceKid(keys, kids, lo, hi, h, order, pos, kid);
  }

  /** Deleting keeps every bound and depth and removes exactly that key. */
  lemma {:induction false} DeleteCorrect(t: Tree, k: Key, lo: Option<Key>, hi: Option<Key>, h: nat, order: nat)
    requires Valid(t, lo, hi, h, order) && AtLeast(lo, k) && Below(k, hi)
    ensures Shaped(t) && Valid(Delete(t, k), lo, hi, h, order) && Shaped(Delete(t, k))
    ensures Entries(Delete(t, k)) == Without(Entries(t), k)
    decreases t
  {
    ValidIsShaped(t, lo, hi, h, order);
    match t
    case Leaf(keys, vals) => DeleteFromLeaf(keys, vals, k, lo, hi, order);
    case Node(keys, kids) =>
      var pos := Position(keys, k);
      assert AtLeast(Lower(keys, pos, lo), k) && Below(k, Upper(keys, pos, hi));
      DeleteCorrect(kids[pos], k, Lower(keys, pos, lo), Upper(keys, pos, hi), h - 1, order);
      DeleteFromNode(keys, kids, k, lo, hi, h - 1, order, Delete(kids[pos], k));
  }

  lemma WithoutInMiddle(a: seq<Entry>, e: seq<Entry>, b: seq<Entry>, k: Key)
    requires !HasKey(a, k) && !HasKey(b, k)
    ensures Without(a + e + b, k) == a + Without(e, k) + b
  {
    WithoutAppend(a + e, b, k);
    WithoutAppend(a, e, k);
    WithoutAbsent(a, k);
    WithoutAbsent(b, k);
  }
}
