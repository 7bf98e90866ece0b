/** The B+ tree as the linked, mutable structure of pkg/index/btree.go. */
module BTreeHeap {
  import opened Options
  import opened OrderedEntries
  import opened BTreeModel
  import BTreeOrder
  import BTreeInsert
  import BTreeRuns

  class BTreeNode {
    var isLeaf: bool
    var keys: seq<Key>
    var values: seq<Value>
    var children: seq<BTreeNode>
    var next: BTreeNode?
    var parent: BTreeNode?

    // What the subtree below this node stands for.
    ghost var repr: set<BTreeNode>
    ghost var tree: Tree
    ghost var first: BTreeNode    // its leftmost leaf
    ghost var tail: BTreeNode?    // the leaf chained after its rightmost leaf

    constructor (isLeaf: bool, keys: seq<Key>, values: seq<Value>, children: seq<BTreeNode>, next: BTreeNode?, parent: BTreeNode?)
      ensures this.isLeaf == isLeaf && this.keys == keys && this.values == values
      ensures this.children == children && this.next == next && this.parent == parent
      ensures repr == {this} && tree == Leaf(keys, values) && first == this && tail == next
    {
      this.isLeaf, this.keys, this.values, this.children, this.next, this.parent := isLeaf, keys, values, children, next, parent;
      this.repr, this.tree, this.first, this.tail := {this}, Leaf(keys, values), this, next;
    }

    /** The subtree's links and fields are exactly those of the value `tree`. */
    ghost predicate Rep()
      reads this, repr
      ensures Rep() ==> this in repr
      decreases repr
    {
      if isLeaf then
        repr == {this} && tree == Leaf(keys, values) && first == this && tail == next
      else
        && this in repr && Family(this, children, repr - {this})
        && tree.Node? && tree.keys == keys && |tree.kids| == |children|
        && first == children[0].first && tail == children[|children| - 1].tail
        && forall i :: 0 <= i < |children| ==> children[i].tree == tree.kids[i] && children[i].Rep()
    }

    /** Recomputes what an internal node stands for from its children. */
    ghost method Refresh(below: set<BTreeNode>, kids: seq<Tree>)
      requires !isLeaf && Family(this, children, below) && AllRep(children, kids, below)
      modifies this`repr, this`tree, this`first, this`tail
      ensures Rep() && repr == below + {this}
      ensures tree == Node(keys, kids)
      ensures first == children[0].first && tail == children[|children| - 1].tail
    {
      first, tail := children[0].first, children[|children| - 1].tail;
      tree := Node(keys, kids);
      repr := below + {this};
      assert repr - {this} == below;
    }

    /** Moving a subtree under another parent leaves the subtree itself alone. */
    method SetParent(p: BTreeNode)
      requires Rep()
      modifies this`parent
      ensures Rep() && parent == p
    {
      parent := p;
    }
  }

  /** `cs` are separate subtrees over `below`, all pointing back to `n`, whose
      leaves are chained from each child to the next. */
  ghost predicate Family(n: BTreeNode, cs: seq<BTreeNode>, below: set<BTreeNode>)
    reads below
  {
    && |cs| > 0 && n !in below
    && (forall i :: 0 <= i < |cs| ==> cs[i] in below && cs[i] in cs[i].repr && cs[i].repr <= below && cs[i].parent == n)
    && (forall i, j :: 0 <= i < j < |cs| ==> cs[i].repr !! cs[j].repr)
    && (forall i, j :: 0 <= i < j < |cs| && j == i + 1 ==> cs[i].tail == cs[j].first)
  }

  ghost predicate AllRep(cs: seq<BTreeNode>, kids: seq<Tree>, below: set<BTreeNode>)
    reads below
  {
    && |kids| == |cs|
    && forall i :: 0 <= i < |cs| ==> cs[i] in below && cs[i].repr <= below && cs[i].tree == kids[i] && cs[i].Rep()
  }

  /** What an internal node's representation says about its children. */
  lemma Opened(n: BTreeNode)
    requires n.Rep() && !n.isLeaf
    ensures n in n.repr && Family(n, n.children, n.repr - {n})
    ensures n.tree.Node? && n.tree.keys == n.keys && AllRep(n.children, n.tree.kids, n.repr - {n})
    ensures n.first == n.children[0].first && n.tail == n.children[|n.children| - 1].tail
  {
  }

  /** All nodes below the children `cs`, which share none with the children `others`. */
  lemma NodesOf(cs: seq<BTreeNode>, others: seq<BTreeNode>, below: set<BTreeNode>) returns (s: set<BTreeNode>)
    requires forall i :: 0 <= i < |cs| ==> cs[i].repr <= below
    requires forall i, j :: 0 <= i < |cs| && 0 <= j < |others| ==> cs[i].repr !! others[j].repr
    ensures s <= below && forall i :: 0 <= i < |cs| ==> cs[i].repr <= s
    ensures forall j :: 0 <= j < |others| ==> s !! others[j].repr
  {
    s := set c, x | c in cs && x in c.repr :: x;
  }

  /** Cutting a family in two gives two families over separate nodes. */
  lemma CutFamily(p: BTreeNode, cs: seq<BTreeNode>, kids: seq<Tree>, below: set<BTreeNode>, mid: nat)
    returns (left: set<BTreeNode>, right: set<BTreeNode>)
    requires Family(p, cs, below) && AllRep(cs, kids, below) && 0 < mid < |cs|
    ensures left !! right && left <= below && right <= below
    ensures Family(p, cs[..mid], left) && AllRep(cs[..mid], kids[..mid], left)
    ensures Family(p, cs[mid..], right) && AllRep(cs[mid..], kids[mid..], right)
  {
    hide p.Rep;
    right := NodesOf(cs[mid..], cs[..mid], below);
    left := below - right;
    assert forall i :: 0 <= i < |cs| - mid ==> cs[mid..][i] == cs[mid + i];
  }

  /** What holds of all children of `node` but child `pos`, over the nodes `rest`;
      `first` and `tail` are the ends of the leaf chain they leave open. */
  ghost predicate Siblings(node: BTreeNode, cs: seq<BTreeNode>, kids: seq<Tree>, pos: nat, rest: set<BTreeNode>,
                           first: BTreeNode, tail: BTreeNode?)
    reads rest
  {
    && pos < |cs| == |kids| && node !in rest
    && (forall i :: 0 <= i < |cs| && i != pos ==>
          && cs[i] in rest && cs[i] in cs[i].repr && cs[i].repr <= rest
          && cs[i].parent == node && cs[i].tree == kids[i] && cs[i].Rep())
    && (forall i, j :: 0 <= i < j < |cs| && i != pos && j != pos ==> cs[i].repr !! cs[j].repr)
    && (forall i, j :: 0 <= i < j < |cs| && i != pos && j != pos && j == i + 1 ==> cs[i].tail == cs[j].first)
    && (pos > 0 ==> cs[pos - 1].tail == first)
    && (pos + 1 < |cs| ==> cs[pos + 1].first == tail)
  }

  lemma SetAside(node: BTreeNode, cs: seq<BTreeNode>, kids: seq<Tree>, pos: nat, below: set<BTreeNode>)
    requires Family(node, cs, below) && AllRep(cs, kids, below) && pos < |cs|
    ensures Siblings(node, cs, kids, pos, below - cs[pos].repr, cs[pos].first, cs[pos].tail)
  {
    hide node.Rep;
  }

  lemma NodeShape(n: BTreeNode)
    requires n.Rep() && !n.isLeaf && Shaped(n.tree)
    ensures n.tree == Node(n.keys, n.tree.kids) && |n.tree.kids| == |n.children| && AllShaped(n.tree.kids)
    ensures Entries(n.tree) == Forest(n.tree.kids)
  {
  }

  /** What a descent to child `pos` may rely on, and what it leaves alone. */
  lemma ChildOf(n: BTreeNode, pos: nat)
    requires n.Rep() && !n.isLeaf && pos < |n.children|
    ensures n in n.repr && n.tree.Node? && |n.tree.kids| == |n.children|
    ensures var c := n.children[pos];
      && c.Rep() && c.tree == n.tree.kids[pos] && c.parent == n && c in c.repr && c.repr <= n.repr - {n}
      && Siblings(n, n.children, n.tree.kids, pos, n.repr - {n} - c.repr, c.first, c.tail)
      && n.first == (if pos == 0 then c.first else n.children[0].first)
      && n.tail == (if pos + 1 == |n.children| then c.tail else n.children[|n.children| - 1].tail)
      && (pos > 0 ==> n.children[0] !in c.repr)
      && (pos + 1 < |n.children| ==> n.children[|n.children| - 1] !in c.repr)
  {
    hide n.Rep, Siblings;
    Opened(n);
    SetAside(n, n.children, n.tree.kids, pos, n.repr - {n});
  }

  /** A changed child that kept its ends of the leaf chain fits back among its siblings. */
  lemma Rejoin(node: BTreeNode, cs: seq<BTreeNode>, kids: seq<Tree>, pos: nat, rest: set<BTreeNode>)
    requires pos < |cs| && node !in cs[pos].repr && cs[pos].repr !! rest
    requires Siblings(node, cs, kids, pos, rest, cs[pos].first, cs[pos].tail)
    requires cs[pos].Rep() && cs[pos].parent == node
    ensures Family(node, cs, rest + cs[pos].repr)
    ensures AllRep(cs, kids[pos := cs[pos].tree], rest + cs[pos].repr)
  {
    hide node.Rep;
  }

  /** The two halves of a split child take its place among its siblings. */
  lemma RejoinHalves(node: BTreeNode, cs: seq<BTreeNode>, kids: seq<Tree>, pos: nat, rest: set<BTreeNode>,
                     first: BTreeNode, tail: BTreeNode?, r: BTreeNode, out: Outcome)
    requires pos < |cs| && Siblings(node, cs, kids, pos, rest, first, tail)
    requires Halves(cs[pos], r, first, tail, out) && cs[pos].parent == r.parent == node
    requires node !in cs[pos].repr + r.repr && (cs[pos].repr + r.repr) !! rest
    ensures Family(node, InsertAt(cs, pos + 1, r), rest + cs[pos].repr + r.repr)
    ensures AllRep(InsertAt(cs, pos + 1, r), InsertAt(kids[pos := out.left], pos + 1, out.right), rest + cs[pos].repr + r.repr)
    ensures var more := InsertAt(cs, pos + 1, r);
      && more[0].first == (if pos == 0 then first else cs[0].first)
      && more[|cs|].tail == (if pos + 1 == |cs| then tail else cs[|cs| - 1].tail)
  {
    hide node.Rep;
    var cs' := InsertAt(cs, pos + 1, r);
    assert forall i :: 0 <= i < |cs'| ==> cs'[i] == if i <= pos then cs[i] else if i == pos + 1 then r else cs[i - 1];
  }

  ghost function Shift(found: Option<nat>, offset: nat): Option<nat> {
    if found.None? then None else Some(offset + found.value)
  }

  /** What a node split leaves behind: two linked siblings, the old node in front. */
  ghost predicate Halves(node: BTreeNode, right: BTreeNode, first: BTreeNode, tail: BTreeNode?, out: Outcome)
    reads node, right, node.repr, right.repr
  {
    && out.Split? && node.Rep() && right.Rep()
    && node.repr !! right.repr
    && node.tree == out.left && right.tree == out.right
    && node.first == first && node.tail == right.first && right.tail == tail
  }

  /** `node`, and `r` beside or above it, hold the outcome of a change to the subtree
      of `node`: `parent` is nil exactly for the root, whose split yields a new root;
      below the root the separator travels through `sep`. */
  ghost predicate Grew(node: BTreeNode, r: BTreeNode?, first: BTreeNode, tail: BTreeNode?, parent: BTreeNode?, out: Outcome, sep: Key)
    reads node, node.repr, r, if r == null then {} else r.repr
  {
    match out
    case Whole(t) =>
      && r == null && node.Rep() && node.tree == t
      && node.first == first && node.tail == tail && node.parent == parent
    case Split(left, s, right) =>
      && r != null
      && if parent == null then
           && r.Rep() && r.parent == null && r.tree == Node([s], [left, right])
           && r.first == first && r.tail == tail
         else
           Halves(node, r, first, tail, out) && sep == s && node.parent == r.parent == parent
  }

  ghost function Reach(node: BTreeNode, r: BTreeNode?): set<BTreeNode>
    reads node, r
  {
    node.repr + if r == null then {} else r.repr
  }

  class BTree {
    var root: BTreeNode
    var order: nat
    var size: nat
    var height: nat
    var lastSplitKey: Key

    /** The tree as a value. */
    ghost function Model(): BTreeRuns.State
      reads this, root
    {
      BTreeRuns.State(root.tree, order, size, height)
    }

    /** The linked structure represents a tree that some run can reach. */
    ghost predicate WellFormed()
      reads this, root, root.repr
    {
      root.Rep() && root.parent == null && root.tail == null && BTreeRuns.Good(Model())
    }

    constructor (order: int)
      ensures WellFormed() && fresh(root.repr) && Model() == BTreeRuns.NewTree(order)
    {
      root := new BTreeNode(true, [], [], [], null, null);
      this.order, size, height, lastSplitKey := if order < 3 then 3 else order, 0, 1, 0;
    }

    method FindPosition(keys: seq<Key>, key: Key) returns (pos: nat)
      ensures pos == Position(keys, key)
    {
      for i := 0 to |keys|
        invariant Position(keys, key) == i + Position(keys[i..], key)
      {
        if key < keys[i] {
          return i;
        }
      }
      return |keys|;
    }

    /** The scan of a leaf's keys that stops at the key or past it. */
    method ScanLeaf(keys: seq<Key>, key: Key) returns (r: Option<nat>)
      ensures r == FindInLeaf(keys, key)
    {
      for i := 0 to |keys|
        invariant FindInLeaf(keys, key) == Shift(FindInLeaf(keys[i..], key), i)
      {
        if key == keys[i] {
          return Some(i);
        }
        if key < keys[i] {
          return None;
        }
        assert keys[i..][1..] == keys[i + 1..];
      }
      return None;
    }

    method SearchNode(node: BTreeNode, key: Key) returns (r: Option<Value>)
      requires node.Rep() && Shaped(node.tree)
      ensures r == Search(node.tree, key)
      decreases node.repr
    {
      if node.isLeaf {
        var found := ScanLeaf(node.keys, key);
        return if found.None? then None else Some(node.values[found.value]);
      }
      var pos := FindPosition(node.keys, key);
      r := SearchNode(node.children[pos], key);
    }

    /** Puts two halves of a split root under a fresh root. */
    method GrowRoot(left: BTreeNode, sep: Key, right: BTreeNode, ghost out: Outcome) returns (r: BTreeNode)
      requires out.Split? && out.sep == sep && Halves(left, right, left.first, right.tail, out)
      modifies left`parent, right`parent
      ensures r.Rep() && r.parent == null && r.tree == Node([sep], [out.left, out.right])
      ensures r.first == left.first && r.tail == right.tail
      ensures fresh(r) && r.repr == {r} + left.repr + right.repr
    {
      hide left.Rep;
      r := new BTreeNode(false, [sep], [], [left, right], null, null);
      left.SetParent(r);
      right.SetParent(r);
      assert left.Rep() && right.Rep();
      ghost var below := left.repr + right.repr;
      assert Family(r, [left, right], below);
      r.Refresh(below, [out.left, out.right]);
    }

    method SplitLeafNode(leaf: BTreeNode) returns (r: BTreeNode)
      requires leaf.Rep() && leaf.isLeaf && |leaf.values| == |leaf.keys| > 0
      modifies leaf, this`lastSplitKey
      ensures Grew(leaf, r, old(leaf.first), old(leaf.tail), old(leaf.parent), BTreeModel.SplitLeaf(old(leaf.keys), old(leaf.values)), lastSplitKey)
      ensures fresh(Reach(leaf, r) - {leaf})
    {
      ghost var out := BTreeModel.SplitLeaf(leaf.keys, leaf.values);
      var mid := |leaf.keys| / 2;
      var newLeaf := new BTreeNode(true, leaf.keys[mid..], leaf.values[mid..], [], leaf.next, leaf.parent);
      var separatorKey := newLeaf.keys[0];
      leaf.keys := leaf.keys[..mid];
      leaf.values := leaf.values[..mid];
      leaf.next := newLeaf;
      leaf.tree, leaf.tail := Leaf(leaf.keys, leaf.values), newLeaf;
      if leaf.parent == null {
        r := GrowRoot(leaf, separatorKey, newLeaf, out);
        return;
      }
      lastSplitKey := separatorKey;
      return newLeaf;
    }

    /** Points every child in `cs` to its new parent `n`. */
    method Adopt(n: BTreeNode, cs: seq<BTreeNode>, ghost p: BTreeNode, ghost kids: seq<Tree>, ghost below: set<BTreeNode>)
      requires Family(p, cs, below) && AllRep(cs, kids, below) && n !in below
      modifies below`parent
      ensures Family(n, cs, below) && AllRep(cs, kids, below)
    {
      hide n.Rep;
      for k := 0 to |cs|
        invariant AllRep(cs, kids, below)
        invariant forall i :: 0 <= i < k ==> cs[i].parent == n
      {
        cs[k].SetParent(n);
      }
    }

    /** Moves the children from `mid + 1` on to a new right sibling of `node`. */
    method TakeRight(node: BTreeNode, mid: nat) returns (r: BTreeNode, ghost left: set<BTreeNode>, ghost right: set<BTreeNode>)
      requires node.Rep() && !node.isLeaf && mid < |node.keys| && |node.children| == |node.keys| + 1
      modifies (node.repr - {node})`parent
      ensures node.tree.Node? && |node.tree.kids| == |node.children|
      ensures fresh(r) && r.Rep() && r.parent == node.parent && r.repr == right + {r}
      ensures r.tree == Node(node.keys[mid + 1..], node.tree.kids[mid + 1..])
      ensures r.first == node.children[mid + 1].first && r.tail == node.tail
      ensures Family(node, node.children[..mid + 1], left)
      ensures AllRep(node.children[..mid + 1], node.tree.kids[..mid + 1], left)
      ensures left !! right && left <= node.repr - {node} && right <= node.repr - {node}
      ensures node.children[0].first == node.first && node.children[mid].tail == r.first
    {
      hide node.Rep, AllRep;
      Opened(node);
      var moved := node.children[mid + 1..];
      ghost var below, kids := node.repr - {node}, node.tree.kids;
      left, right := CutFamily(node, node.children, kids, below, mid + 1);
      r := new BTreeNode(false, node.keys[mid + 1..], [], moved, null, node.parent);
      Adopt(r, moved, node, kids[mid + 1..], right);
      r.Refresh(right, kids[mid + 1..]);
    }

    /** Cuts an internal node around its middle key, which neither half keeps. */
    method DivideNode(node: BTreeNode) returns (r: BTreeNode)
      requires node.Rep() && !node.isLeaf && 0 < |node.keys| && |node.children| == |node.keys| + 1
      requires node.tree.Node? && |node.tree.kids| == |node.children|
      modifies node.repr
      ensures Halves(node, r, old(node.first), old(node.tail), SplitNode(old(node.keys), old(node.tree.kids)))
      ensures fresh(r) && node.repr + r.repr <= old(node.repr) + {r} && node.parent == r.parent == old(node.parent)
    {
      hide node.Rep, Family, AllRep;
      Opened(node);
      ghost var out := SplitNode(node.keys, node.tree.kids);
      var mid := |node.keys| / 2;
      ghost var left, right;
      r, left, right := TakeRight(node, mid);
      node.keys := node.keys[..mid];
      node.children := node.children[..mid + 1];
      node.Refresh(left, out.left.kids);
    }

    method SplitInternalNode(node: BTreeNode) returns (r: BTreeNode)
      requires node.Rep() && !node.isLeaf && 0 < |node.keys| && |node.children| == |node.keys| + 1
      requires node.tree.Node? && |node.tree.kids| == |node.children|
      modifies node.repr, this`lastSplitKey
      ensures Grew(node, r, old(node.first), old(node.tail), old(node.parent), SplitNode(old(node.keys), old(node.tree.kids)), lastSplitKey)
      ensures fresh(Reach(node, r) - old(node.repr))
    {
      hide node.Rep;
      Opened(node);
      ghost var out := SplitNode(node.keys, node.tree.kids);
      var promoteKey := node.keys[|node.keys| / 2];
      var newNode := DivideNode(node);
      if node.parent == null {
        r := GrowRoot(node, promoteKey, newNode, out);
        return;
      }
      lastSplitKey := promoteKey;
      return newNode;
    }

    method InsertIntoLeafNode(leaf: BTreeNode, key: Key, value: Value) returns (r: BTreeNode?)
      requires leaf.Rep() && leaf.isLeaf && |leaf.values| == |leaf.keys| && order > 0
      modifies leaf, this`lastSplitKey
      ensures Grew(leaf, r, old(leaf.first), old(leaf.tail), old(leaf.parent), InsertIntoLeaf(old(leaf.keys), old(leaf.values), key, value, order), lastSplitKey)
      ensures fresh(Reach(leaf, r) - {leaf})
    {
      var pos := FindPosition(leaf.keys, key);
      leaf.keys := InsertAt(leaf.keys, pos, key);
      leaf.values := InsertAt(leaf.values, pos, value);
      leaf.tree := Leaf(leaf.keys, leaf.values);
      if |leaf.keys| >= order {
        r := SplitLeafNode(leaf);
        return;
      }
      return null;
    }

    /** Child `pos` changed without splitting: only what `node` stands for changes. */
    ghost method KeepChild(node: BTreeNode, pos: nat, rest: set<BTreeNode>)
      requires !node.isLeaf && node.tree.Node? && node.tree.keys == node.keys && |node.tree.kids| == |node.children|
      requires pos < |node.children| && node.children[pos].repr !! rest && node !in node.children[pos].repr
      requires Siblings(node, node.children, node.tree.kids, pos, rest, node.children[pos].first, node.children[pos].tail)
      requires node.children[pos].Rep() && node.children[pos].parent == node
      requires node.first == node.children[0].first && node.tail == node.children[|node.children| - 1].tail
      modifies node
      ensures node.Rep() && node.repr == rest + node.children[pos].repr + {node} && node.parent == old(node.parent)
      ensures node.tree == Node(old(node.keys), old(node.tree.kids)[pos := node.children[pos].tree])
      ensures node.children == old(node.children)
      ensures node.first == old(node.first) && node.tail == old(node.tail)
    {
      hide node.Rep;
      Rejoin(node, node.children, node.tree.kids, pos, rest);
      node.Refresh(rest + node.children[pos].repr, node.tree.kids[pos := node.children[pos].tree]);
    }

    /** Puts the new sibling of child `pos` and its separator into `node`. */
    method TakeIn(node: BTreeNode, newChild: BTreeNode, ghost pos: nat, ghost rest: set<BTreeNode>,
                  ghost first: BTreeNode, ghost tail: BTreeNode?, ghost out: Outcome, ghost below: set<BTreeNode>)
      requires !node.isLeaf && node.tree.Node? && node.tree.keys == node.keys && |node.tree.kids| == |node.children| == |node.keys| + 1
      requires pos < |node.children| && Siblings(node, node.children, node.tree.kids, pos, rest, first, tail)
      requires Halves(node.children[pos], newChild, first, tail, out) && node.children[pos].parent == newChild.parent == node
      requires (node.children[pos].repr + newChild.repr) !! rest && below == rest + node.children[pos].repr + newChild.repr && node !in below
      requires lastSplitKey == out.sep && Position(node.keys, out.sep) == pos
      requires node.first == (if pos == 0 then first else node.children[0].first)
      requires node.tail == (if pos == |node.keys| then tail else node.children[|node.keys|].tail)
      modifies node
      ensures node.Rep() && !node.isLeaf && node.repr == below + {node} && |node.children| == |node.keys| + 1
      ensures node.keys == InsertAt(old(node.keys), pos, out.sep)
      ensures node.tree == Node(node.keys, InsertAt(old(node.tree.kids)[pos := out.left], pos + 1, out.right))
      ensures node.first == old(node.first) && node.tail == old(node.tail) && node.parent == old(node.parent)
    {
      hide node.Rep, Family, AllRep, Position, Siblings;
      ghost var kids := InsertAt(node.tree.kids[pos := out.left], pos + 1, out.right);
      RejoinHalves(node, node.children, node.tree.kids, pos, rest, first, tail, newChild, out);
      var splitKey := lastSplitKey;
      var at := FindPosition(node.keys, splitKey);
      node.keys := InsertAt(node.keys, at, splitKey);
      node.children := InsertAt(node.children, at + 1, newChild);
      node.Refresh(below, kids);
    }

    method SplitIfFull(node: BTreeNode) returns (r: BTreeNode?)
      requires node.Rep() && !node.isLeaf && |node.children| == |node.keys| + 1 && order > 0
      requires node.tree.Node? && |node.tree.kids| == |node.children|
      modifies node.repr, this`lastSplitKey
      ensures Grew(node, r, old(node.first), old(node.tail), old(node.parent),
                   if |old(node.keys)| >= order then SplitNode(old(node.keys), old(node.tree.kids)) else Whole(old(node.tree)), lastSplitKey)
      ensures fresh(Reach(node, r) - old(node.repr))
    {
      hide node.Rep;
      if |node.keys| >= order {
        r := SplitInternalNode(node);
        return;
      }
      return null;
    }

    /** Inserts below any node; the child's split, if any, travels up through lastSplitKey. */
    method InsertIntoNode(node: BTreeNode, key: Key, value: Value, ghost lo: Option<Key>, ghost hi: Option<Key>, ghost h: nat) returns (r: BTreeNode?)
      requires node.Rep() && order >= 3 && Valid(node.tree, lo, hi, h, order) && Shaped(node.tree)
      requires AtLeast(lo, key) && BTreeModel.Below(key, hi) && !HasKey(Entries(node.tree), key)
      modifies node.repr, this`lastSplitKey
      ensures Grew(node, r, old(node.first), old(node.tail), old(node.parent), InsertInto(old(node.tree), key, value, order), lastSplitKey)
      ensures fresh(Reach(node, r) - old(node.repr))
      decreases node.repr, 2
    {
      if node.isLeaf {
        r := InsertIntoLeafNode(node, key, value);
      } else {
        r := InsertIntoInternalNode(node, key, value, lo, hi, h);
      }
    }

    /** The descent: inserts into the child the key belongs to and leaves `node` itself alone. */
    method InsertIntoChild(node: BTreeNode, key: Key, value: Value, ghost lo: Option<Key>, ghost hi: Option<Key>, ghost h: nat)
      returns (pos: nat, newChild: BTreeNode?, ghost rest: set<BTreeNode>, ghost first: BTreeNode, ghost tail: BTreeNode?)
      requires node.Rep() && !node.isLeaf && order >= 3 && Valid(node.tree, lo, hi, h, order) && Shaped(node.tree)
      requires AtLeast(lo, key) && BTreeModel.Below(key, hi) && !HasKey(Entries(node.tree), key)
      modifies node.repr - {node}, this`lastSplitKey
      ensures node.tree.Node? && node.tree.keys == node.keys && |node.tree.kids| == |node.children| == |node.keys| + 1
      ensures pos == Position(node.keys, key) && Siblings(node, node.children, node.tree.kids, pos, rest, first, tail)
      ensures var out := InsertInto(node.tree.kids[pos], key, value, order);
        && Grew(node.children[pos], newChild, first, tail, node, out, lastSplitKey)
        && (out.Split? ==> Position(node.keys, out.sep) == pos)
      ensures node.first == (if pos == 0 then first else node.children[0].first)
      ensures node.tail == (if pos == |node.keys| then tail else node.children[|node.keys|].tail)
      ensures rest <= node.repr - {node} && Reach(node.children[pos], newChild) !! rest && node !in Reach(node.children[pos], newChild)
      ensures fresh(Reach(node.children[pos], newChild) - node.repr)
      decreases node.repr, 0
    {
      hide node.Rep, Siblings, Family, AllRep, Grew, Halves, Valid, HasKey, Entries, Position, Lower, Upper, InsertInto;
      NodeShape(node);
      BTreeInsert.DescendToInsert(node.keys, node.tree.kids, key, value, lo, hi, h, order);
      pos := FindPosition(node.keys, key);
      var child := node.children[pos];
      ChildOf(node, pos);
      first, tail, rest := child.first, child.tail, node.repr - {node} - child.repr;
      newChild := InsertIntoNode(child, key, value, Lower(node.keys, pos, lo), Upper(node.keys, pos, hi), h - 1);
    }

    method InsertIntoInternalNode(node: BTreeNode, key: Key, value: Value, ghost lo: Option<Key>, ghost hi: Option<Key>, ghost h: nat) returns (r: BTreeNode?)
      requires node.Rep() && !node.isLeaf && order >= 3 && Valid(node.tree, lo, hi, h, order) && Shaped(node.tree)
      requires AtLeast(lo, key) && BTreeModel.Below(key, hi) && !HasKey(Entries(node.tree), key)
      modifies node.repr, this`lastSplitKey
      ensures Grew(node, r, old(node.first), old(node.tail), old(node.parent), InsertInto(old(node.tree), key, value, order), lastSplitKey)
      ensures fresh(Reach(node, r) - old(node.repr))
      decreases node.repr, 1
    {
      hide node.Rep, Siblings, Halves, Valid, Entries, HasKey, SplitNode, Position;
      ghost var rest, first, tail;
      var pos, newChild;
      pos, newChild, rest, first, tail := InsertIntoChild(node, key, value, lo, hi, h);
      ghost var kids := node.tree.kids;
      var child := node.children[pos];
      ghost var out := InsertInto(kids[pos], key, value, order);
      if newChild == null {
        KeepChild(node, pos, rest);
        assert fresh(node.repr - old(node.repr));
        return null;
      }
      TakeIn(node, newChild, pos, rest, first, tail, out, rest + Reach(child, newChild));
      assert fresh(node.repr - old(node.repr));
      r := SplitIfFull(node);
    }

    /** Rejects a present key; otherwise adds the entry, giving a split root a new root above it. */
    method Insert(key: Key, value: Value) returns (reply: BTreeRuns.Reply)
      requires WellFormed()
      modifies this, root.repr
      ensures WellFormed() && fresh(root.repr - old(root.repr))
      ensures (Model(), reply) == BTreeRuns.Apply(old(Model()), BTreeRuns.Insert(key, value))
    {
      hide root.Rep, Search, Valid, Entries, BTreeRuns.Contents, BTreeRuns.MapApply;
      BTreeRuns.ApplyRefinesMap(Model(), BTreeRuns.Insert(key, value));
      BTreeOrder.SearchCorrect(root.tree, key, None, None, height, order);
      var found := SearchNode(root, key);
      if found.Some? {
        return BTreeRuns.DuplicateKey;
      }
      var newRoot := InsertIntoNode(root, key, value, None, None, height);
      if newRoot != null {
        root := newRoot;
        height := height + 1;
      }
      size := size + 1;
      return BTreeRuns.Done;
    }

    method Find(key: Key) returns (r: Option<Value>)
      requires WellFormed()
      ensures r == if key in BTreeRuns.Contents(Model()) then Some(BTreeRuns.Contents(Model())[key]) else None
    {
      BTreeRuns.SearchIsMapLookup(Model(), key);
      r := SearchNode(root, key);
    }

    /** The full scan of a leaf for the key to delete. */
    method LeafIndex(keys: seq<Key>, key: Key) returns (r: Option<nat>)
      requires Ascending(keys)
      ensures r == FindInLeaf(keys, key)
    {
      BTreeOrder.FindInLeafComplete(keys, key);
      for i := 0 to |keys|
        invariant key !in keys[..i]
      {
        if key == keys[i] {
          return Some(i);
        }
      }
      return None;
    }

    method DeleteFromNode(node: BTreeNode, key: Key, ghost lo: Option<Key>, ghost hi: Option<Key>, ghost h: nat) returns (deleted: bool)
      requires node.Rep() && Valid(node.tree, lo, hi, h, order) && Shaped(node.tree)
      modifies node.repr
      ensures node.Rep() && node.tree == Delete(old(node.tree), key) && node.repr == old(node.repr)
      ensures deleted == Search(old(node.tree), key).Some?
      ensures node.first == old(node.first) && node.tail == old(node.tail) && node.parent == old(node.parent)
      decreases node.repr
    {
      if node.isLeaf {
        var i := LeafIndex(node.keys, key);
        if i.Some? {
          node.keys := RemoveAt(node.keys, i.value);
          node.values := RemoveAt(node.values, i.value);
          node.tree := Leaf(node.keys, node.values);
        }
        return i.Some?;
      }
      deleted := DeleteFromChild(node, key, lo, hi, h);
    }

    method DeleteFromChild(node: BTreeNode, key: Key, ghost lo: Option<Key>, ghost hi: Option<Key>, ghost h: nat) returns (deleted: bool)
      requires node.Rep() && !node.isLeaf && Valid(node.tree, lo, hi, h, order) && Shaped(node.tree)
      modifies node.repr
      ensures node.Rep() && node.tree == Delete(old(node.tree), key) && node.repr == old(node.repr)
      ensures deleted == Search(old(node.tree), key).Some?
      ensures node.first == old(node.first) && node.tail == old(node.tail) && node.parent == old(node.parent)
      decreases node.repr, 0
    {
      hide node.Rep, Siblings;
      Opened(node);
      var pos := FindPosition(node.keys, key);
      var child := node.children[pos];
      ghost var below, kids := node.repr - {node}, node.tree.kids;
      ghost var rest := below - child.repr;
      SetAside(node, node.children, kids, pos, below);
      deleted := DeleteFromNode(child, key, Lower(node.keys, pos, lo), Upper(node.keys, pos, hi), h - 1);
      KeepChild(node, pos, rest);
    }

    /** Reports a missing key; otherwise removes its entry from its leaf without rebalancing. */
    method Remove(key: Key) returns (reply: BTreeRuns.Reply)
      requires WellFormed()
      modifies this, root.repr
      ensures WellFormed() && root.repr == old(root.repr)
      ensures (Model(), reply) == BTreeRuns.Apply(old(Model()), BTreeRuns.Remove(key))
    {
      hide root.Rep;
      BTreeRuns.ApplyRefinesMap(Model(), BTreeRuns.Remove(key));
      BTreeOrder.SearchCorrect(root.tree, key, None, None, height, order);
      var found := SearchNode(root, key);
      if found.None? {
        return BTreeRuns.KeyNotFound;
      }
      assert size > 0;
      var deleted := DeleteFromNode(root, key, None, None, height);
      size := size - 1;
      return BTreeRuns.Done;
    }
  }
}
