/** The B+ tree of pkg/index as a value: leaves hold parallel key and value
    lists, internal nodes hold separators between their children.  Insertion
    splits a node that reaches `order` keys; deletion never rebalances. */
module BTreeModel {
  import opened Options
  import opened OrderedEntries

  datatype Tree =
    | Leaf(keys: seq<Key>, vals: seq<Value>)
    | Node(keys: seq<Key>, kids: seq<Tree>)

  /** What an insertion makes of a subtree: one node, or two around a separator. */
  datatype Outcome = Whole(tree: Tree) | Split(left: Tree, sep: Key, right: Tree)

  function InsertAt<T>(s: seq<T>, i: nat, x: T): seq<T>
    requires i <= |s|
  {
    s[..i] + [x] + s[i..]
  }

  function RemoveAt<T>(s: seq<T>, i: nat): seq<T>
    requires i < |s|
  {
    s[..i] + s[i + 1..]
  }

  /** The first index whose key exceeds `k`, or the length. */
  function Position(keys: seq<Key>, k: Key): (p: nat)
    ensures p <= |keys|
    ensures forall i :: 0 <= i < p ==> keys[i] <= k
    ensures p < |keys| ==> k < keys[p]
  {
    if keys == [] || k < keys[0] then 0 else 1 + Position(keys[1..], k)
  }

  /** Key and value lists match up, and every internal node has one more child than keys. */
  ghost predicate Shaped(t: Tree) {
    match t
    case Leaf(keys, vals) => |vals| == |keys|
    case Node(keys, kids) => |kids| == |keys| + 1 && forall i :: 0 <= i < |kids| ==> Shaped(kids[i])
  }

  ghost predicate AllShaped(kids: seq<Tree>) {
    forall i :: 0 <= i < |kids| ==> Shaped(kids[i])
  }

  // ---- operations

  function SplitLeaf(keys: seq<Key>, vals: seq<Value>): Outcome
    requires 0 < |keys| == |vals|
  {
    var mid := |keys| / 2;
    Split(Leaf(keys[..mid], vals[..mid]), keys[mid], Leaf(keys[mid..], vals[mid..]))
  }

  function SplitNode(keys: seq<Key>, kids: seq<Tree>): Outcome
    requires 0 < |keys| && |kids| == |keys| + 1
  {
    var mid := |keys| / 2;
    Split(Node(keys[..mid], kids[..mid + 1]), keys[mid], Node(keys[mid + 1..], kids[mid + 1..]))
  }

  function InsertIntoLeaf(keys: seq<Key>, vals: seq<Value>, k: Key, v: Value, order: nat): Outcome
    requires |vals| == |keys|
  {
    var pos := Position(keys, k);
    var keys' := InsertAt(keys, pos, k);
    var vals' := InsertAt(vals, pos, v);
    if |keys'| >= order then SplitLeaf(keys', vals') else Whole(Leaf(keys', vals'))
  }

  /** Puts a split child's halves in place of child `pos`; the separator finds its own position. */
  function AbsorbSplit(keys: seq<Key>, kids: seq<Tree>, pos: nat, left: Tree, sep: Key, right: Tree, order: nat): Outcome
    requires |kids| == |keys| + 1 && pos < |kids|
  {
    var at := Position(keys, sep);
    var keys' := InsertAt(keys, at, sep);
    var kids' := InsertAt(kids[pos := left], at + 1, right);
    if |keys'| >= order then SplitNode(keys', kids') else Whole(Node(keys', kids'))
  }

  function InsertInto(t: Tree, k: Key, v: Value, order: nat): Outcome
    requires Shaped(t)
  {
    match t
    case Leaf(keys, vals) => InsertIntoLeaf(keys, vals, k, v, order)
    case Node(keys, kids) =>
      var pos := Position(keys, k);
      match InsertInto(kids[pos], k, v, order)
      case Whole(kid) => Whole(Node(keys, kids[pos := kid]))
      case Split(left, sep, right) => AbsorbSplit(keys, kids, pos, left, sep, right, order)
  }

  /** Scans a leaf from the left, stopping at the key or at the first larger one. */
  function FindInLeaf(keys: seq<Key>, k: Key): (i: Option<nat>)
    ensures i.Some? ==> i.value < |keys| && keys[i.value] == k
  {
    if keys == [] || k < keys[0] then None
    else if keys[0] == k then Some(0)
    else match FindInLeaf(keys[1..], k)
      case None => None
      case Some(i) => Some(i + 1)
  }

  function Search(t: Tree, k: Key): Option<Value>
    requires Shaped(t)
  {
    match t
    case Leaf(keys, vals) =>
      (match FindInLeaf(keys, k)
       case None => None
       case Some(i) => Some(vals[i]))
    case Node(keys, kids) => Search(kids[Position(keys, k)], k)
  }

  function Delete(t: Tree, k: Key): Tree
    requires Shaped(t)
  {
    match t
    case Leaf(keys, vals) =>
      (match FindInLeaf(keys, k)
       case None => t
       case Some(i) => Leaf(RemoveAt(keys, i), RemoveAt(vals, i)))
    case Node(keys, kids) =>
      var pos := Position(keys, k);
      Node(keys, kids[pos := Delete(kids[pos], k)])
  }

  // ---- what a tree holds

  function Zip(keys: seq<Key>, vals: seq<Value>): seq<Entry>
    requires |keys| == |vals|
  {
    if keys == [] then [] else [Entry(keys[0], vals[0])] + Zip(keys[1..], vals[1..])
  }

  ghost function Entries(t: Tree): seq<Entry>
    requires Shaped(t)
  {
    match t
    case Leaf(keys, vals) => Zip(keys, vals)
    case Node(_, kids) => Forest(kids)
  }

  ghost function Forest(kids: seq<Tree>): seq<Entry>
    requires AllShaped(kids)
  {
    if kids == [] then [] else Entries(kids[0]) + Forest(kids[1..])
  }

  lemma {:induction false} ForestAppend(a: seq<Tree>, b: seq<Tree>)
    requires AllShaped(a) && AllShaped(b)
    ensures AllShaped(a + b) && Forest(a + b) == Forest(a) + Forest(b)
  {
    if a == [] {
      assert a + b == b;
    } else {
      ForestAppend(a[1..], b);
      assert (a + b)[1..] == a[1..] + b;
    }
  }

  // ---- the search-tree invariant

  ghost predicate AtLeast(lo: Option<Key>, k: Key) { lo.Some? ==> lo.value <= k }
  ghost predicate Above(lo: Option<Key>, k: Key) { lo.Some? ==> lo.value < k }
  ghost predicate Below(k: Key, hi: Option<Key>) { hi.Some? ==> k < hi.value }

  ghost predicate Ascending(keys: seq<Key>) {
    forall i, j :: 0 <= i < j < |keys| ==> keys[i] < keys[j]
  }

  ghost function Lower(keys: seq<Key>, i: nat, lo: Option<Key>): Option<Key>
    requires i <= |keys|
  {
    if i == 0 then lo else Some(keys[i - 1])
  }

  ghost function Upper(keys: seq<Key>, i: nat, hi: Option<Key>): Option<Key>
    requires i <= |keys|
  {
    if i == |keys| then hi else Some(keys[i])
  }

  ghost predicate SeparatorsIn(keys: seq<Key>, lo: Option<Key>, hi: Option<Key>) {
    Ascending(keys) && forall i :: 0 <= i < |keys| ==> Above(lo, keys[i]) && Below(keys[i], hi)
  }

  ghost predicate LeafIn(keys: seq<Key>, lo: Option<Key>, hi: Option<Key>) {
    Ascending(keys) && forall i :: 0 <= i < |keys| ==> AtLeast(lo, keys[i]) && Below(keys[i], hi)
  }

  /** `t` is a search tree for keys in [lo, hi), all its leaves are at depth `h`,
      and every node has fewer than `order` keys. */
  ghost predicate Valid(t: Tree, lo: Option<Key>, hi: Option<Key>, h: nat, order: nat)
    decreases t
  {
    match t
    case Leaf(keys, vals) => h == 1 && |vals| == |keys| < order && LeafIn(keys, lo, hi)
    case Node(keys, kids) =>
      && h > 1
      && 0 < |keys| < order
      && |kids| == |keys| + 1
      && SeparatorsIn(keys, lo, hi)
      && forall i :: 0 <= i < |kids| ==> Valid(kids[i], Lower(keys, i, lo), Upper(keys, i, hi), h - 1, order)
  }

  ghost predicate KidsValid(keys: seq<Key>, kids: seq<Tree>, lo: Option<Key>, hi: Option<Key>, h: nat, order: nat) {
    && |kids| == |keys| + 1
    && SeparatorsIn(keys, lo, hi)
    && forall i :: 0 <= i < |kids| ==> Valid(kids[i], Lower(keys, i, lo), Upper(keys, i, hi), h, order)
  }

  lemma {:induction false} ValidIsShaped(t: Tree, lo: Option<Key>, hi: Option<Key>, h: nat, order: nat)
    requires Valid(t, lo, hi, h, order)
    ensures Shaped(t)
    decreases t
  {
    if t.Node? {
      forall i | 0 <= i < |t.kids| ensures Shaped(t.kids[i]) {
        ValidIsShaped(t.kids[i], Lower(t.keys, i, lo), Upper(t.keys, i, hi), h - 1, order);
      }
    }
  }
}
