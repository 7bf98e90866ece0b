/** Range scans over the leaf chain: RangeScan returns exactly the entries of the
    tree between its two optional ends, in ascending order. */
module BTreeScan {
  import opened Options
  import opened OrderedEntries
  import opened BTreeModel
  import opened BTreeHeap
  import BTreeOrder
  import BTreeInsert
  import BTreeRuns

  predicate Within(k: Key, start: Option<Key>, end: Option<Key>) {
    (start.None? || k >= start.value) && (end.None? || k <= end.value)
  }

  /** The entries between two optional ends, both inclusive. */
  ghost function Select(s: seq<Entry>, start: Option<Key>, end: Option<Key>): seq<Entry> {
    if s == [] then []
    else (if Within(s[0].key, start, end) then [s[0]] else []) + Select(s[1..], start, end)
  }

  lemma {:induction false} SelectAppend(a: seq<Entry>, b: seq<Entry>, start: Option<Key>, end: Option<Key>)
    ensures Select(a + b, start, end) == Select(a, start, end) + Select(b, start, end)
  {
    if a == [] {
      assert a + b == b;
    } else {
      SelectAppend(a[1..], b, start, end);
      assert (a + b)[1..] == a[1..] + b;
      var head := if Within(a[0].key, start, end) then [a[0]] else [];
      BTreeInsert.Regroup(head, Select(a[1..], start, end), Select(b, start, end));
    }
  }

  lemma {:induction false} SelectNone(s: seq<Entry>, start: Option<Key>, end: Option<Key>)
    requires forall i :: 0 <= i < |s| ==> !Within(s[i].key, start, end)
    ensures Select(s, start, end) == []
  {
    if s != [] {
      SelectNone(s[1..], start, end);
    }
  }

  /** Selection keeps exactly the entries in range, and keeps their order. */
  lemma SelectExact(s: seq<Entry>, start: Option<Key>, end: Option<Key>)
    ensures forall e :: e in Select(s, start, end) <==> e in s && Within(e.key, start, end)
    ensures Sorted(s) ==> Sorted(Select(s, start, end))
  {
    forall e ensures e in Select(s, start, end) <==> e in s && Within(e.key, start, end) {
      SelectMember(s, start, end, e);
    }
    if Sorted(s) {
      SelectSorted(s, start, end);
    }
  }

  lemma {:induction false} SelectMember(s: seq<Entry>, start: Option<Key>, end: Option<Key>, e: Entry)
    ensures e in Select(s, start, end) <==> e in s && Within(e.key, start, end)
  {
    if s != [] {
      SelectMember(s[1..], start, end, e);
      assert s == [s[0]] + s[1..];
    }
  }

  lemma {:induction false} SelectAbove(s: seq<Entry>, start: Option<Key>, end: Option<Key>, low: Key)
    requires forall i :: 0 <= i < |s| ==> low < s[i].key
    ensures forall i :: 0 <= i < |Select(s, start, end)| ==> low < Select(s, start, end)[i].key
  {
    if s != [] {
      SelectAbove(s[1..], start, end, low);
    }
  }

  lemma {:induction false} SelectSorted(s: seq<Entry>, start: Option<Key>, end: Option<Key>)
    requires Sorted(s)
    ensures Sorted(Select(s, start, end))
  {
    if s != [] {
      SelectSorted(s[1..], start, end);
      SelectAbove(s[1..], start, end, s[0].key);
    }
  }

  // ---- the leaf chain

  ghost predicate EvenLeaves(leaves: seq<BTreeNode>)
    reads leaves
  {
    forall i :: 0 <= i < |leaves| ==> |leaves[i].values| == |leaves[i].keys|
  }

  /** Following `next` from the first of `leaves` visits them all and then reaches `tail`. */
  ghost predicate Chain(leaves: seq<BTreeNode>, tail: BTreeNode?)
    reads leaves
  {
    && |leaves| > 0 && EvenLeaves(leaves)
    && (forall i, j :: 0 <= i < j < |leaves| && j == i + 1 ==> leaves[i].next == leaves[j])
    && leaves[|leaves| - 1].next == tail
  }

  ghost function Flat(leaves: seq<BTreeNode>): seq<Entry>
    requires EvenLeaves(leaves)
    reads leaves
  {
    if leaves == [] then [] else Zip(leaves[0].keys, leaves[0].values) + Flat(leaves[1..])
  }

  lemma {:induction false} FlatAppend(a: seq<BTreeNode>, b: seq<BTreeNode>)
    requires EvenLeaves(a) && EvenLeaves(b)
    ensures EvenLeaves(a + b) && Flat(a + b) == Flat(a) + Flat(b)
  {
    if a == [] {
      assert a + b == b;
    } else {
      FlatAppend(a[1..], b);
      assert (a + b)[1..] == a[1..] + b;
    }
  }

  lemma ChainAppend(a: seq<BTreeNode>, b: seq<BTreeNode>, tail: BTreeNode?)
    requires b != [] && Chain(a, b[0]) && Chain(b, tail)
    ensures Chain(a + b, tail) && Flat(a + b) == Flat(a) + Flat(b)
  {
    FlatAppend(a, b);
  }

  /** The chain through a subtree's leaves lists its contents in order. */
  lemma {:induction false} LeavesOf(node: BTreeNode) returns (leaves: seq<BTreeNode>)
    requires node.Rep() && Shaped(node.tree)
    ensures Chain(leaves, node.tail) && leaves[0] == node.first && Flat(leaves) == Entries(node.tree)
    decreases node.repr, 0
  {
    if node.isLeaf {
      leaves := [node];
      assert leaves[1..] == [];
    } else {
      Opened(node);
      leaves := LeavesOfKids(node, node.children, node.tree.kids, node.repr - {node});
    }
  }

  lemma {:induction false} LeavesOfKids(p: BTreeNode, cs: seq<BTreeNode>, kids: seq<Tree>, below: set<BTreeNode>) returns (leaves: seq<BTreeNode>)
    requires Family(p, cs, below) && AllRep(cs, kids, below) && AllShaped(kids)
    ensures Chain(leaves, cs[|cs| - 1].tail) && leaves[0] == cs[0].first && Flat(leaves) == Forest(kids)
    decreases below, |cs|
  {
    hide p.Rep;
    leaves := LeavesOf(cs[0]);
    if |cs| > 1 {
      var more := LeavesOfKids(p, cs[1..], kids[1..], below);
      assert cs[0].tail == cs[1].first;
      ChainAppend(leaves, more, cs[|cs| - 1].tail);
      leaves := leaves + more;
    } else {
      assert kids[1..] == [];
    }
  }

  lemma SuffixFamily(p: BTreeNode, cs: seq<BTreeNode>, kids: seq<Tree>, below: set<BTreeNode>, i: nat)
    requires Family(p, cs, below) && AllRep(cs, kids, below) && i < |cs|
    ensures Family(p, cs[i..], below) && AllRep(cs[i..], kids[i..], below)
  {
    hide p.Rep;
  }

  /** A chain through part of child `pos` goes on through the children after it. */
  lemma ExtendChain(p: BTreeNode, cs: seq<BTreeNode>, kids: seq<Tree>, below: set<BTreeNode>, pos: nat, part: seq<BTreeNode>)
    returns (leaves: seq<BTreeNode>)
    requires Family(p, cs, below) && AllRep(cs, kids, below) && AllShaped(kids) && pos < |cs|
    requires Chain(part, cs[pos].tail)
    ensures Chain(leaves, cs[|cs| - 1].tail) && leaves[0] == part[0] && AllShaped(kids[pos + 1..])
    ensures Flat(leaves) == Flat(part) + Forest(kids[pos + 1..])
  {
    hide p.Rep;
    leaves := part;
    if pos + 1 < |cs| {
      SuffixFamily(p, cs, kids, below, pos + 1);
      var more := LeavesOfKids(p, cs[pos + 1..], kids[pos + 1..], below);
      assert cs[pos].tail == cs[pos + 1].first;
      ChainAppend(part, more, cs[|cs| - 1].tail);
      leaves := part + more;
    } else {
      assert kids[pos + 1..] == [];
    }
  }

  lemma Regroup(a: seq<Entry>, b: seq<Entry>, c: seq<Entry>, d: seq<Entry>)
    ensures a + (b + c) + d == (a + b) + (c + d)
  {
  }

  // ---- finding where to start

  /** Descends to the leaf for `key`; everything in front of that leaf is smaller. */
  method FindLeaf(bt: BTree, node: BTreeNode, key: Key, ghost lo: Option<Key>, ghost hi: Option<Key>, ghost h: nat)
    returns (leaf: BTreeNode, ghost before: seq<Entry>, ghost leaves: seq<BTreeNode>)
    requires node.Rep() && Shaped(node.tree) && Valid(node.tree, lo, hi, h, bt.order) && AtLeast(lo, key) && Below(key, hi)
    ensures Chain(leaves, node.tail) && leaves[0] == leaf
    ensures Entries(node.tree) == before + Flat(leaves)
    ensures forall i :: 0 <= i < |before| ==> before[i].key < key
    decreases node.repr, 1
  {
    if node.isLeaf {
      assert [node][1..] == [];
      return node, [], [node];
    }
    leaf, before, leaves := FindBelow(bt, node, key, lo, hi, h);
  }

  method FindBelow(bt: BTree, node: BTreeNode, key: Key, ghost lo: Option<Key>, ghost hi: Option<Key>, ghost h: nat)
    returns (leaf: BTreeNode, ghost before: seq<Entry>, ghost leaves: seq<BTreeNode>)
    requires !node.isLeaf && node.Rep() && Shaped(node.tree) && Valid(node.tree, lo, hi, h, bt.order) && AtLeast(lo, key) && Below(key, hi)
    ensures Chain(leaves, node.tail) && leaves[0] == leaf
    ensures Entries(node.tree) == before + Flat(leaves)
    ensures forall i :: 0 <= i < |before| ==> before[i].key < key
    decreases node.repr, 0
  {
    hide node.Rep, Chain, Flat;
    Opened(node);
    var pos := bt.FindPosition(node.keys, key);
    ghost var cs, kids, below := node.children, node.tree.kids, node.repr - {node};
    BTreeOrder.Locate(node.keys, kids, lo, hi, h - 1, bt.order, key);
    ghost var before', leaves';
    leaf, before', leaves' := FindLeaf(bt, node.children[pos], key, Lower(node.keys, pos, lo), Upper(node.keys, pos, hi), h - 1);
    leaves := ExtendChain(node, cs, kids, below, pos, leaves');
    before := Forest(kids[..pos]) + before';
    Regroup(Forest(kids[..pos]), before', Flat(leaves'), Forest(kids[pos + 1..]));
  }

  method LeftmostLeaf(node: BTreeNode) returns (leaf: BTreeNode)
    requires node.Rep()
    ensures leaf == node.first
    decreases node.repr
  {
    leaf := node;
    while !leaf.isLeaf
      invariant leaf.Rep() && leaf.first == node.first
      decreases leaf.repr
    {
      leaf := leaf.children[0];
    }
  }

  // ---- the scan

  ghost predicate Beyond(keys: seq<Key>, end: Option<Key>) {
    end.Some? && exists i :: 0 <= i < |keys| && keys[i] > end.value
  }

  lemma SelectOne(e: Entry, start: Option<Key>, end: Option<Key>)
    ensures Select([e], start, end) == if Within(e.key, start, end) then [e] else []
  {
    assert [e][1..] == [];
  }

  /** One leaf of the scan: collects its keys in range and reports whether it passed the end. */
  method ScanKeys(ks: seq<Key>, vs: seq<Value>, start: Option<Key>, end: Option<Key>) returns (keys: seq<Key>, values: seq<Value>, stop: bool)
    requires |ks| == |vs| && Ascending(ks)
    ensures |keys| == |values| && Zip(keys, values) == Select(Zip(ks, vs), start, end)
    ensures stop <==> Beyond(ks, end)
  {
    keys, values := [], [];
    for i := 0 to |ks|
      invariant |keys| == |values| && Zip(keys, values) == Select(Zip(ks[..i], vs[..i]), start, end)
      invariant !Beyond(ks[..i], end)
    {
      StepPrefix(ks, vs, i, start, end);
      if Within(ks[i], start, end) {
        BTreeInsert.ZipAppend(keys, values, [ks[i]], [vs[i]]);
        keys, values := keys + [ks[i]], values + [vs[i]];
      }
      if end.Some? && ks[i] > end.value {
        RestBeyond(ks, vs, i, start, end);
        return keys, values, true;
      }
    }
    assert ks[..|ks|] == ks && vs[..|vs|] == vs;
    return keys, values, false;
  }

  lemma StepPrefix(ks: seq<Key>, vs: seq<Value>, i: nat, start: Option<Key>, end: Option<Key>)
    requires |ks| == |vs| && i < |ks|
    ensures Zip([ks[i]], [vs[i]]) == [Entry(ks[i], vs[i])]
    ensures Select(Zip(ks[..i + 1], vs[..i + 1]), start, end)
         == Select(Zip(ks[..i], vs[..i]), start, end) + (if Within(ks[i], start, end) then [Entry(ks[i], vs[i])] else [])
  {
    assert ks[..i + 1] == ks[..i] + [ks[i]] && vs[..i + 1] == vs[..i] + [vs[i]];
    BTreeInsert.ZipAppend(ks[..i], vs[..i], [ks[i]], [vs[i]]);
    assert [ks[i]][1..] == [];
    SelectAppend(Zip(ks[..i], vs[..i]), [Entry(ks[i], vs[i])], start, end);
    SelectOne(Entry(ks[i], vs[i]), start, end);
  }

  /** Past the first key beyond the end nothing else of a leaf is selected. */
  lemma RestBeyond(ks: seq<Key>, vs: seq<Value>, i: nat, start: Option<Key>, end: Option<Key>)
    requires |ks| == |vs| && Ascending(ks) && i < |ks| && end.Some? && ks[i] > end.value
    ensures Select(Zip(ks, vs), start, end) == Select(Zip(ks[..i + 1], vs[..i + 1]), start, end)
  {
    var ks', vs' := ks[i + 1..], vs[i + 1..];
    assert ks == ks[..i + 1] + ks' && vs == vs[..i + 1] + vs';
    BTreeInsert.ZipAppend(ks[..i + 1], vs[..i + 1], ks', vs');
    BTreeOrder.ZipAt(ks', vs');
    SelectAppend(Zip(ks[..i + 1], vs[..i + 1]), Zip(ks', vs'), start, end);
    SelectNone(Zip(ks', vs'), start, end);
  }

  lemma LeafAscending(done: seq<Entry>, ks: seq<Key>, vs: seq<Value>, rest: seq<Entry>)
    requires |ks| == |vs| && Sorted(done + Zip(ks, vs) + rest)
    ensures Ascending(ks)
    ensures forall i, j :: 0 <= i < |ks| && 0 <= j < |rest| ==> ks[i] < rest[j].key
  {
    BTreeOrder.ZipAt(ks, vs);
    var s := done + Zip(ks, vs) + rest;
    assert forall i :: 0 <= i < |ks| ==> s[|done| + i].key == ks[i];
    assert forall j :: 0 <= j < |rest| ==> s[|done| + |ks| + j] == rest[j];
  }

  /** The first leaf to scan; nothing in front of it is in range. */
  method ScanStart(bt: BTree, start: Option<Key>, end: Option<Key>) returns (leaf: BTreeNode, ghost done: seq<Entry>, ghost leaves: seq<BTreeNode>)
    requires bt.WellFormed()
    ensures Ahead(leaf, leaves)
    ensures Entries(bt.root.tree) == done + Flat(leaves) && Select(done, start, end) == []
  {
    var root := bt.root;
    hide root.Rep;
    if start.None? {
      leaf := LeftmostLeaf(root);
      done := [];
      leaves := LeavesOf(root);
    } else {
      leaf, done, leaves := FindLeaf(bt, root, start.value, None, None, bt.height);
      SelectNone(done, start, end);
    }
  }

  lemma ZipEmpty()
    ensures Zip([], []) == []
  {
  }

  lemma ScanStep(done: seq<Entry>, here: seq<Entry>, keys: seq<Key>, values: seq<Value>, ks: seq<Key>, vs: seq<Value>, start: Option<Key>, end: Option<Key>)
    requires |keys| == |values| && Zip(keys, values) == Select(done, start, end)
    requires |ks| == |vs| && Zip(ks, vs) == Select(here, start, end)
    ensures Zip(keys + ks, values + vs) == Select(done + here, start, end)
  {
    hide Zip, Select;
    BTreeInsert.ZipAppend(keys, values, ks, vs);
    SelectAppend(done, here, start, end);
  }

  /** Behind a leaf with a key beyond the end nothing more is selected. */
  lemma StopHere(done: seq<Entry>, ks: seq<Key>, rest: seq<Entry>, start: Option<Key>, end: Option<Key>)
    requires Beyond(ks, end) && forall i, j :: 0 <= i < |ks| && 0 <= j < |rest| ==> ks[i] < rest[j].key
    ensures Select(done + rest, start, end) == Select(done, start, end)
  {
    SelectAppend(done, rest, start, end);
    SelectNone(rest, start, end);
  }

  /** The scan stands at the first of `leaves`, or behind the last leaf. */
  ghost predicate Ahead(leaf: BTreeNode?, leaves: seq<BTreeNode>)
    reads leaves
  {
    EvenLeaves(leaves) && if leaves == [] then leaf == null else leaf == leaves[0] && Chain(leaves, null)
  }

  /** Moving on by `next` takes exactly the first leaf off. */
  lemma NextLeaf(leaf: BTreeNode, leaves: seq<BTreeNode>) returns (here: seq<Entry>, rest: seq<Entry>)
    requires Ahead(leaf, leaves)
    ensures leaves != [] && |leaf.keys| == |leaf.values| && Ahead(leaf.next, leaves[1..])
    ensures here == Zip(leaf.keys, leaf.values) && rest == Flat(leaves[1..]) && Flat(leaves) == here + rest
  {
    here, rest := Zip(leaf.keys, leaf.values), Flat(leaves[1..]);
  }

  lemma FlatEmpty(leaves: seq<BTreeNode>)
    requires leaves == []
    ensures EvenLeaves(leaves) && Flat(leaves) == []
  {
  }

  /** Returns exactly the entries between the two ends, in ascending key order;
      a missing end leaves that side open. */
  method RangeScan(bt: BTree, start: Option<Key>, end: Option<Key>) returns (keys: seq<Key>, values: seq<Value>)
    requires bt.WellFormed()
    ensures |keys| == |values| && Zip(keys, values) == Select(Entries(bt.root.tree), start, end)
  {
    hide Zip, Select, Within, Valid, Entries, Sorted, Ascending, Chain, Flat;
    ghost var all := Entries(bt.root.tree);
    assert Sorted(all) by { BTreeOrder.EntriesSorted(bt.root.tree, None, None, bt.height, bt.order); }
    var leaf: BTreeNode?;
    ghost var done, leaves;
    leaf, done, leaves := ScanStart(bt, start, end);
    keys, values := [], [];
    assert Zip(keys, values) == [] by { ZipEmpty(); }
    while leaf != null
      invariant Ahead(leaf, leaves) && all == done + Flat(leaves)
      invariant |keys| == |values| && Zip(keys, values) == Select(done, start, end)
      decreases |leaves|
    {
      ghost var here, rest := NextLeaf(leaf, leaves);
      BTreeInsert.Regroup(done, here, rest);
      LeafAscending(done, leaf.keys, leaf.values, rest);
      var ks, vs, stop := ScanKeys(leaf.keys, leaf.values, start, end);
      ScanStep(done, here, keys, values, ks, vs, start, end);
      keys, values, done := keys + ks, values + vs, done + here;
      if stop {
        StopHere(done, leaf.keys, rest, start, end);
        return;
      }
      leaf, leaves := leaf.next, leaves[1..];
    }
    assert done + Flat(leaves) == done by { FlatEmpty(leaves); }
  }
}
