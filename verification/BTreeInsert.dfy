/** Insertion into a valid B+ tree: bounds, depth and capacity survive every
    split, and the contents gain exactly the new entry. */
module BTreeInsert {
  import opened Options
  import opened OrderedEntries
  import opened BTreeModel
  import opened BTreeOrder

  /** What an insertion into a subtree with the given bounds must produce. */
  ghost predicate Grown(r: Outcome, s: seq<Entry>, lo: Option<Key>, hi: Option<Key>, h: nat, order: nat) {
    match r
    case Whole(t) => Valid(t, lo, hi, h, order) && Shaped(t) && Entries(t) == s
    case Split(left, sep, right) =>
      && Above(lo, sep) && Below(sep, hi)
      && Valid(left, lo, Some(sep), h, order) && Shaped(left)
      && Valid(right, Some(sep), hi, h, order) && Shaped(right)
      && Entries(left) + Entries(right) == s
  }

  lemma {:induction false} PositionUnique(keys: seq<Key>, k: Key, p: nat)
    requires p <= |keys|
    requires forall i :: 0 <= i < p ==> keys[i] <= k
    requires p < |keys| ==> k < keys[p]
    ensures Position(keys, k) == p
  {
    if p > 0 {
      PositionUnique(keys[1..], k, p - 1);
    }
  }

  lemma {:induction false} ZipInsert(keys: seq<Key>, vals: seq<Value>, k: Key, v: Value)
    requires |keys| == |vals|
    ensures var p := Position(keys, k);
      Zip(InsertAt(keys, p, k), InsertAt(vals, p, v)) == Put(Zip(keys, vals), k, v)
  {
    var p := Position(keys, k);
    var keys', vals' := InsertAt(keys, p, k), InsertAt(vals, p, v);
    if p == 0 {
      assert keys'[1..] == keys && vals'[1..] == vals;
    } else {
      ZipInsert(keys[1..], vals[1..], k, v);
      assert keys'[0] == keys[0] && vals'[0] == vals[0];
      InsertAtTail(keys, p, k);
      InsertAtTail(vals, p, v);
    }
  }

  lemma InsertAtTail<T>(s: seq<T>, p: nat, x: T)
    requires 0 < p <= |s|
    ensures InsertAt(s, p, x)[1..] == InsertAt(s[1..], p - 1, x)
  {
  }

  lemma {:induction false} ZipAppend(k1: seq<Key>, v1: seq<Value>, k2: seq<Key>, v2: seq<Value>)
    requires |k1| == |v1| && |k2| == |v2|
    ensures Zip(k1 + k2, v1 + v2) == Zip(k1, v1) + Zip(k2, v2)
  {
    if k1 == [] {
      assert k1 + k2 == k2 && v1 + v2 == v2;
    } else {
      ZipAppend(k1[1..], v1[1..], k2, v2);
      Regroup([Entry(k1[0], v1[0])], Zip(k1[1..], v1[1..]), Zip(k2, v2));
      assert (k1 + k2)[1..] == k1[1..] + k2 && (v1 + v2)[1..] == v1[1..] + v2;
    }
  }

  lemma SplitLeafGrown(keys: seq<Key>, vals: seq<Value>, lo: Option<Key>, hi: Option<Key>, order: nat)
    requires |keys| == |vals| == order >= 3 && LeafIn(keys, lo, hi)
    ensures Grown(SplitLeaf(keys, vals), Zip(keys, vals), lo, hi, 1, order)
  {
    hide Zip, LeafIn;
    var mid := order / 2;
    assert keys[..mid] + keys[mid..] == keys && vals[..mid] + vals[mid..] == vals;
    ZipAppend(keys[..mid], vals[..mid], keys[mid..], vals[mid..]);
    LeafHalves(keys, lo, hi, mid);
  }

  lemma LeafHalves(keys: seq<Key>, lo: Option<Key>, hi: Option<Key>, mid: nat)
    requires LeafIn(keys, lo, hi) && 0 < mid < |keys|
    ensures LeafIn(keys[..mid], lo, Some(keys[mid])) && LeafIn(keys[mid..], Some(keys[mid]), hi)
    ensures Above(lo, keys[mid]) && Below(keys[mid], hi)
  {
    assert AtLeast(lo, keys[0]) && keys[0] < keys[mid];
  }

  lemma InsertAtAscending(keys: seq<Key>, k: Key, p: nat)
    requires Ascending(keys) && p <= |keys|
    requires p > 0 ==> keys[p - 1] < k
    requires p < |keys| ==> k < keys[p]
    ensures Ascending(InsertAt(keys, p, k))
    ensures forall x :: x in InsertAt(keys, p, k) <==> x == k || x in keys
  {
  }

  lemma InsertIntoLeafGrown(keys: seq<Key>, vals: seq<Value>, k: Key, v: Value, lo: Option<Key>, hi: Option<Key>, order: nat)
    requires Valid(Leaf(keys, vals), lo, hi, 1, order) && order >= 3
    requires AtLeast(lo, k) && Below(k, hi) && !HasKey(Zip(keys, vals), k)
    ensures Grown(InsertIntoLeaf(keys, vals, k, v, order), Put(Zip(keys, vals), k, v), lo, hi, 1, order)
  {
    var p := Position(keys, k);
    ZipInsert(keys, vals, k, v);
    assert p > 0 ==> keys[p - 1] != k by { ZipAt(keys, vals); }
    InsertAtAscending(keys, k, p);
    var keys', vals' := InsertAt(keys, p, k), InsertAt(vals, p, v);
    assert LeafIn(keys', lo, hi);
    if |keys'| >= order { SplitLeafGrown(keys', vals', lo, hi, order); }
  }

  lemma SpliceSeparators(keys: seq<Key>, lo: Option<Key>, hi: Option<Key>, pos: nat, sep: Key)
    requires SeparatorsIn(keys, lo, hi) && pos <= |keys|
    requires Above(Lower(keys, pos, lo), sep) && Below(sep, Upper(keys, pos, hi))
    ensures Position(keys, sep) == pos && SeparatorsIn(InsertAt(keys, pos, sep), lo, hi)
  {
    PositionUnique(keys, sep, pos);
    InsertAtAscending(keys, sep, pos);
    assert Above(lo, sep) by { assert pos > 0 ==> Above(lo, keys[pos - 1]); }
    assert Below(sep, hi) by { assert pos < |keys| ==> Below(keys[pos], hi); }
    assert forall x :: x in InsertAt(keys, pos, sep) ==> Above(lo, x) && Below(x, hi);
  }

  /** Replacing child `pos` by two halves around a separator keeps the children valid. */
  lemma SpliceKids(keys: seq<Key>, kids: seq<Tree>, lo: Option<Key>, hi: Option<Key>, h: nat, order: nat,
                   pos: nat, left: Tree, sep: Key, right: Tree)
    requires KidsValid(keys, kids, lo, hi, h, order) && pos < |kids|
    requires Above(Lower(keys, pos, lo), sep) && Below(sep, Upper(keys, pos, hi))
    requires Valid(left, Lower(keys, pos, lo), Some(sep), h, order)
    requires Valid(right, Some(sep), Upper(keys, pos, hi), h, order)
    ensures Position(keys, sep) == pos
    ensures KidsValid(InsertAt(keys, pos, sep), InsertAt(kids[pos := left], pos + 1, right), lo, hi, h, order)
  {
    hide Valid, Lower, Upper, Above, Below;
    SpliceSeparators(keys, lo, hi, pos, sep);
    var keys', kids' := InsertAt(keys, pos, sep), InsertAt(kids[pos := left], pos + 1, right);
    forall i | 0 <= i < |kids'| ensures Valid(kids'[i], Lower(keys', i, lo), Upper(keys', i, hi), h, order) {
      SplicedBounds(keys, lo, hi, pos, sep, i);
      if i < pos {
        assert kids'[i] == kids[i];
      } else if i > pos + 1 {
        assert kids'[i] == kids[i - 1];
      } else {
        assert kids'[i] == if i == pos then left else right;
      }
    }
  }

  lemma SplicedBounds(keys: seq<Key>, lo: Option<Key>, hi: Option<Key>, pos: nat, sep: Key, i: nat)
    requires pos <= |keys| && i <= |keys| + 1
    ensures var keys' := InsertAt(keys, pos, sep);
      && Lower(keys', i, lo) == (if i <= pos then Lower(keys, i, lo) else if i == pos + 1 then Some(sep) else Lower(keys, i - 1, lo))
      && Upper(keys', i, hi) == (if i < pos then Upper(keys, i, hi) else if i == pos then Some(sep) else Upper(keys, i - 1, hi))
  {
  }

  lemma SpliceForest(kids: seq<Tree>, pos: nat, left: Tree, right: Tree)
    requires AllShaped(kids)
    requires pos < |kids| && Shaped(left) && Shaped(right)
    ensures AllShaped(InsertAt(kids[pos := left], pos + 1, right))
    ensures Forest(InsertAt(kids[pos := left], pos + 1, right))
         == Forest(kids[..pos]) + (Entries(left) + Entries(right)) + Forest(kids[pos + 1..])
  {
    hide Forest, Entries, Shaped;
    var kids' := InsertAt(kids[pos := left], pos + 1, right);
    assert kids' == kids[..pos] + ([left, right] + kids[pos + 1..]);
    ForestAppend(kids[..pos], [left, right] + kids[pos + 1..]);
    ForestAppend([left, right], kids[pos + 1..]);
    ForestTwo(left, right);
    Regroup(Forest(kids[..pos]), Entries(left) + Entries(right), Forest(kids[pos + 1..]));
  }

  lemma Regroup(a: seq<Entry>, b: seq<Entry>, c: seq<Entry>)
    ensures a + (b + c) == a + b + c
  {
  }

  lemma ForestTwo(left: Tree, right: Tree)
    requires Shaped(left) && Shaped(right)
    ensures AllShaped([left, right]) && Forest([left, right]) == Entries(left) + Entries(right)
  {
    assert [left, right][1..] == [right] && [right][1..] == [];
    assert Forest([right]) == Entries(right) + [];
  }

  lemma LeftHalfValid(keys: seq<Key>, kids: seq<Tree>, lo: Option<Key>, hi: Option<Key>, h: nat, order: nat, mid: nat)
    requires KidsValid(keys, kids, lo, hi, h, order) && mid < |keys|
    ensures KidsValid(keys[..mid], kids[..mid + 1], lo, Some(keys[mid]), h, order)
  {
    forall i | 0 <= i <= mid
      ensures Valid(kids[..mid + 1][i], Lower(keys[..mid], i, lo), Upper(keys[..mid], i, Some(keys[mid])), h, order)
    {
      assert kids[..mid + 1][i] == kids[i];
    }
  }

  lemma RightHalfValid(keys: seq<Key>, kids: seq<Tree>, lo: Option<Key>, hi: Option<Key>, h: nat, order: nat, mid: nat)
    requires KidsValid(keys, kids, lo, hi, h, order) && mid < |keys|
    ensures KidsValid(keys[mid + 1..], kids[mid + 1..], Some(keys[mid]), hi, h, order)
  {
    var rightKeys, rightKids := keys[mid + 1..], kids[mid + 1..];
    forall i | 0 <= i < |rightKids|
      ensures Valid(rightKids[i], Lower(rightKeys, i, Some(keys[mid])), Upper(rightKeys, i, hi), h, order)
    {
      assert rightKids[i] == kids[mid + 1 + i];
    }
  }

  lemma SeparatorBetween(keys: seq<Key>, kids: seq<Tree>, lo: Option<Key>, hi: Option<Key>, h: nat, order: nat, mid: nat)
    requires KidsValid(keys, kids, lo, hi, h, order) && AllShaped(kids) && mid < |keys|
    ensures |kids| == |keys| + 1 && Above(lo, keys[mid]) && Below(keys[mid], hi)
    ensures AllShaped(kids[..mid + 1]) && AllShaped(kids[mid + 1..])
  {
  }

  lemma NodeValid(keys: seq<Key>, kids: seq<Tree>, lo: Option<Key>, hi: Option<Key>, h: nat, order: nat)
    requires KidsValid(keys, kids, lo, hi, h, order) && AllShaped(kids) && 0 < |keys| < order && h >= 1
    ensures var t := Node(keys, kids); Valid(t, lo, hi, h + 1, order) && Shaped(t) && Entries(t) == Forest(kids)
  {
  }

  lemma SplitNodeGrown(keys: seq<Key>, kids: seq<Tree>, lo: Option<Key>, hi: Option<Key>, h: nat, order: nat)
    requires KidsValid(keys, kids, lo, hi, h, order) && |keys| == order >= 3 && h >= 1
    requires AllShaped(kids)
    ensures Grown(SplitNode(keys, kids), Forest(kids), lo, hi, h + 1, order)
  {
    hide Forest, KidsValid, AllShaped, Valid, Shaped, Entries;
    var mid := order / 2;
    LeftHalfValid(keys, kids, lo, hi, h, order, mid);
    RightHalfValid(keys, kids, lo, hi, h, order, mid);
    SeparatorBetween(keys, kids, lo, hi, h, order, mid);
    NodeValid(keys[..mid], kids[..mid + 1], lo, Some(keys[mid]), h, order);
    NodeValid(keys[mid + 1..], kids[mid + 1..], Some(keys[mid]), hi, h, order);
    ForestAppend(kids[..mid + 1], kids[mid + 1..]);
    assert kids[..mid + 1] + kids[mid + 1..] == kids;
  }

  lemma AbsorbSplitGrown(keys: seq<Key>, kids: seq<Tree>, lo: Option<Key>, hi: Option<Key>, h: nat, order: nat,
                         pos: nat, left: Tree, sep: Key, right: Tree)
    requires KidsValid(keys, kids, lo, hi, h, order) && pos < |kids| && 0 < |keys| < order && order >= 3 && h >= 1
    requires AllShaped(kids)
    requires Above(Lower(keys, pos, lo), sep) && Below(sep, Upper(keys, pos, hi))
    requires Valid(left, Lower(keys, pos, lo), Some(sep), h, order) && Shaped(left)
    requires Valid(right, Some(sep), Upper(keys, pos, hi), h, order) && Shaped(right)
    ensures Grown(AbsorbSplit(keys, kids, pos, left, sep, right, order),
                  Forest(kids[..pos]) + (Entries(left) + Entries(right)) + Forest(kids[pos + 1..]),
                  lo, hi, h + 1, order)
  {
    hide Valid, Shaped, Entries, Forest, AllShaped, Lower, Upper, Above, Below, SeparatorsIn;
    SpliceKids(keys, kids, lo, hi, h, order, pos, left, sep, right);
    SpliceForest(kids, pos, left, right);
    var keys', kids' := InsertAt(keys, pos, sep), InsertAt(kids[pos := left], pos + 1, right);
    if |keys'| >= order {
      SplitNodeGrown(keys', kids', lo, hi, h, order);
    } else {
      NodeValid(keys', kids', lo, hi, h, order);
    }
  }

  /** The node step: a grown child makes the whole node grow in the same way. */
  lemma NodeGrown(keys: seq<Key>, kids: seq<Tree>, k: Key, v: Value, lo: Option<Key>, hi: Option<Key>, h: nat, order: nat)
    requires KidsValid(keys, kids, lo, hi, h, order) && AllShaped(kids) && 0 < |keys| < order && order >= 3 && h >= 1
    requires var pos := Position(keys, k);
      Grown(InsertInto(kids[pos], k, v, order), Put(Entries(kids[pos]), k, v), Lower(keys, pos, lo), Upper(keys, pos, hi), h, order)
    ensures var pos := Position(keys, k);
      Grown(InsertInto(Node(keys, kids), k, v, order),
            Forest(kids[..pos]) + Put(Entries(kids[pos]), k, v) + Forest(kids[pos + 1..]), lo, hi, h + 1, order)
  {
    hide Put, Valid, Entries, Forest, Lower, Upper, Position, SeparatorsIn;
    var pos := Position(keys, k);
    match InsertInto(kids[pos], k, v, order)
    case Whole(kid) =>
      ReplaceKid(keys, kids, lo, hi, h, order, pos, kid);
      NodeValid(keys, kids[pos := kid], lo, hi, h, order);
    case Split(left, sep, right) =>
      AbsorbSplitGrown(keys, kids, lo, hi, h, order, pos, left, sep, right);
  }

  lemma InsertLeafIs(keys: seq<Key>, vals: seq<Value>, k: Key, v: Value, order: nat)
    requires |keys| == |vals|
    ensures InsertInto(Leaf(keys, vals), k, v, order) == InsertIntoLeaf(keys, vals, k, v, order)
  {
  }

  /** What is known about the child an insertion descends to. */
  lemma Descend(keys: seq<Key>, kids: seq<Tree>, k: Key, v: Value, lo: Option<Key>, hi: Option<Key>, h: nat, order: nat)
    requires Valid(Node(keys, kids), lo, hi, h, order) && AllShaped(kids)
    requires AtLeast(lo, k) && Below(k, hi) && !HasKey(Forest(kids), k)
    ensures h > 1 && 0 < |keys| < order && KidsValid(keys, kids, lo, hi, h - 1, order)
    ensures var pos := Position(keys, k);
      && pos < |kids| && Valid(kids[pos], Lower(keys, pos, lo), Upper(keys, pos, hi), h - 1, order)
      && AtLeast(Lower(keys, pos, lo), k) && Below(k, Upper(keys, pos, hi)) && !HasKey(Entries(kids[pos]), k)
      && AllShaped(kids[..pos]) && AllShaped(kids[pos + 1..])
      && Put(Forest(kids), k, v) == Forest(kids[..pos]) + Put(Entries(kids[pos]), k, v) + Forest(kids[pos + 1..])
  {
    hide Forest, Put;
    var pos := Position(keys, k);
    Locate(keys, kids, lo, hi, h - 1, order, k);
    var a, e, b := Forest(kids[..pos]), Entries(kids[pos]), Forest(kids[pos + 1..]);
    KeyInMiddle(a, e, b, k);
    PutInMiddle(a, e, b, k, v);
  }

  /** Insertion keeps a subtree valid and adds exactly the new entry, split or not. */
  lemma {:induction false} InsertCorrect(t: Tree, k: Key, v: Value, lo: Option<Key>, hi: Option<Key>, h: nat, order: nat)
    requires Valid(t, lo, hi, h, order) && order >= 3
    requires AtLeast(lo, k) && Below(k, hi)
    requires Shaped(t) && !HasKey(Entries(t), k)
    ensures Grown(InsertInto(t, k, v, order), Put(Entries(t), k, v), lo, hi, h, order)
    decreases t
  {
    hide Grown, InsertInto, Put, HasKey, Forest, KidsValid, Position;
    match t
    case Leaf(keys, vals) =>
      InsertLeafIs(keys, vals, k, v, order);
      InsertIntoLeafGrown(keys, vals, k, v, lo, hi, order);
    case Node(keys, kids) =>
      var pos := Position(keys, k);
      Descend(keys, kids, k, v, lo, hi, h, order);
      InsertCorrect(kids[pos], k, v, Lower(keys, pos, lo), Upper(keys, pos, hi), h - 1, order);
      NodeGrown(keys, kids, k, v, lo, hi, h - 1, order);
  }

  lemma ShapedAt(kids: seq<Tree>, i: nat)
    requires AllShaped(kids) && i < |kids|
    ensures Shaped(kids[i])
  {
  }

  /** Everything an insertion relies on when it descends: the child takes the key, and
      a separator coming back up belongs exactly where the descent went. */
  lemma DescendToInsert(keys: seq<Key>, kids: seq<Tree>, k: Key, v: Value, lo: Option<Key>, hi: Option<Key>, h: nat, order: nat)
    requires Valid(Node(keys, kids), lo, hi, h, order) && order >= 3
    requires AtLeast(lo, k) && Below(k, hi)
    requires AllShaped(kids) && !HasKey(Forest(kids), k)
    ensures h > 1 && |kids| == |keys| + 1
    ensures var pos := Position(keys, k);
      && Shaped(kids[pos]) && Valid(kids[pos], Lower(keys, pos, lo), Upper(keys, pos, hi), h - 1, order)
      && AtLeast(Lower(keys, pos, lo), k) && Below(k, Upper(keys, pos, hi))
      && !HasKey(Entries(kids[pos]), k)
      && (InsertInto(kids[pos], k, v, order).Split? ==> Position(keys, InsertInto(kids[pos], k, v, order).sep) == pos)
  {
    hide Put, HasKey, Forest, Position, Valid, InsertInto, Lower, Upper, AllShaped;
    var pos := Position(keys, k);
    Descend(keys, kids, k, v, lo, hi, h, order);
    assert Shaped(kids[pos]) by { ShapedAt(kids, pos); }
    InsertCorrect(kids[pos], k, v, Lower(keys, pos, lo), Upper(keys, pos, hi), h - 1, order);
    match InsertInto(kids[pos], k, v, order)
    case Whole(_) =>
    case Split(_, sep, _) => SpliceSeparators(keys, lo, hi, pos, sep);
  }
}
