/** Occupancy: as long as nothing is deleted every node below the root stays at
    least half full, which bounds the height by a logarithm of the size. */
module BTreeFill {
  import opened Options
  import opened OrderedEntries
  import opened BTreeModel
  import opened BTreeOrder
  import opened BTreeInsert
  import opened BTreeRuns

  function MinLeaf(order: nat): nat { order / 2 }
  function MinKids(order: nat): nat { (order + 1) / 2 }

  ghost predicate Filled(t: Tree, order: nat, isRoot: bool) {
    match t
    case Leaf(keys, _) => isRoot || |keys| >= MinLeaf(order)
    case Node(_, kids) =>
      && |kids| >= (if isRoot then 2 else MinKids(order))
      && AllFilled(kids, order)
  }

  ghost predicate AllFilled(kids: seq<Tree>, order: nat) {
    forall i :: 0 <= i < |kids| ==> Filled(kids[i], order, false)
  }

  ghost predicate OutcomeFilled(r: Outcome, order: nat, isRoot: bool) {
    match r
    case Whole(t) => Filled(t, order, isRoot)
    case Split(left, _, right) => Filled(left, order, false) && Filled(right, order, false)
  }

  lemma FilledKidsSpliced(keys: seq<Key>, kids: seq<Tree>, order: nat, isRoot: bool, pos: nat, left: Tree, sep: Key, right: Tree)
    requires |kids| == |keys| + 1 && pos < |kids| && 3 <= order && |keys| < order
    requires Filled(Node(keys, kids), order, isRoot)
    requires Filled(left, order, false) && Filled(right, order, false)
    requires Position(keys, sep) == pos
    ensures OutcomeFilled(AbsorbSplit(keys, kids, pos, left, sep, right, order), order, isRoot)
  {
    hide AllFilled, SplitNode, InsertAt, OutcomeFilled;
    var keys', kids' := InsertAt(keys, pos, sep), InsertAt(kids[pos := left], pos + 1, right);
    SplicedFilled(kids, order, pos, left, right);
    SplicedLengths(keys, kids, pos, left, sep, right);
    if |keys'| >= order {
      SplitFilled(keys', kids', order, isRoot);
    } else {
      WholeFilled(keys', kids', order, isRoot);
    }
  }

  lemma SplicedLengths(keys: seq<Key>, kids: seq<Tree>, pos: nat, left: Tree, sep: Key, right: Tree)
    requires pos < |kids| == |keys| + 1
    ensures |InsertAt(keys, pos, sep)| == |keys| + 1 && |InsertAt(kids[pos := left], pos + 1, right)| == |kids| + 1
  {
  }

  lemma WholeFilled(keys: seq<Key>, kids: seq<Tree>, order: nat, isRoot: bool)
    requires AllFilled(kids, order) && |kids| >= if isRoot then 2 else MinKids(order)
    ensures OutcomeFilled(Whole(Node(keys, kids)), order, isRoot)
  {
  }

  lemma SplitFilled(keys: seq<Key>, kids: seq<Tree>, order: nat, isRoot: bool)
    requires AllFilled(kids, order) && |keys| == order >= 3 && |kids| == order + 1
    ensures OutcomeFilled(SplitNode(keys, kids), order, isRoot)
  {
    hide AllFilled;
    HalvesFilled(kids, order, order / 2 + 1);
  }

  lemma SplicedFilled(kids: seq<Tree>, order: nat, pos: nat, left: Tree, right: Tree)
    requires AllFilled(kids, order) && pos < |kids| && Filled(left, order, false) && Filled(right, order, false)
    ensures AllFilled(InsertAt(kids[pos := left], pos + 1, right), order)
  {
  }

  lemma HalvesFilled(kids: seq<Tree>, order: nat, m: nat)
    requires AllFilled(kids, order) && m <= |kids|
    ensures AllFilled(kids[..m], order) && AllFilled(kids[m..], order)
  {
  }

  /** Insertion keeps every node below the root half full. */
  lemma {:induction false} InsertKeepsFilled(t: Tree, k: Key, v: Value, lo: Option<Key>, hi: Option<Key>, h: nat, order: nat, isRoot: bool)
    requires Valid(t, lo, hi, h, order) && order >= 3 && AtLeast(lo, k) && Below(k, hi)
    requires Shaped(t) && !HasKey(Entries(t), k) && Filled(t, order, isRoot)
    ensures OutcomeFilled(InsertInto(t, k, v, order), order, isRoot)
    decreases t
  {
    hide HasKey, Put, Forest, Position, AllShaped, Grown, SeparatorsIn, OutcomeFilled, KidsValid;
    match t
    case Leaf(keys, vals) => LeafKeepsFilled(keys, vals, k, v, order, isRoot);
    case Node(keys, kids) =>
      var pos := Position(keys, k);
      var lo', hi' := Lower(keys, pos, lo), Upper(keys, pos, hi);
      assert AllShaped(kids) by { ShapedNode(keys, kids); }
      Descend(keys, kids, k, v, lo, hi, h, order);
      InsertKeepsFilled(kids[pos], k, v, lo', hi', h - 1, order, false);
      DescendToInsert(keys, kids, k, v, lo, hi, h, order);
      NodeKeepsFilled(keys, kids, k, v, order, isRoot);
  }

  lemma ShapedNode(keys: seq<Key>, kids: seq<Tree>)
    requires Shaped(Node(keys, kids))
    ensures AllShaped(kids)
  {
  }

  lemma LeafKeepsFilled(keys: seq<Key>, vals: seq<Value>, k: Key, v: Value, order: nat, isRoot: bool)
    requires |keys| == |vals| < order && order >= 3 && Filled(Leaf(keys, vals), order, isRoot)
    ensures OutcomeFilled(InsertInto(Leaf(keys, vals), k, v, order), order, isRoot)
  {
  }

  /** A node stays filled if its child does and a separator comes back where the descent went. */
  lemma NodeKeepsFilled(keys: seq<Key>, kids: seq<Tree>, k: Key, v: Value, order: nat, isRoot: bool)
    requires Shaped(Node(keys, kids)) && 3 <= order && |keys| < order && Filled(Node(keys, kids), order, isRoot)
    requires var r := InsertInto(kids[Position(keys, k)], k, v, order);
      OutcomeFilled(r, order, false) && (r.Split? ==> Position(keys, r.sep) == Position(keys, k))
    ensures OutcomeFilled(InsertInto(Node(keys, kids), k, v, order), order, isRoot)
  {
    hide Position, AllFilled, AbsorbSplit;
    var pos := Position(keys, k);
    match InsertInto(kids[pos], k, v, order)
    case Whole(kid) => ReplacedFilled(kids, order, pos, kid);
    case Split(left, sep, right) => FilledKidsSpliced(keys, kids, order, isRoot, pos, left, sep, right);
  }

  lemma ReplacedFilled(kids: seq<Tree>, order: nat, pos: nat, kid: Tree)
    requires AllFilled(kids, order) && pos < |kids| && Filled(kid, order, false)
    ensures AllFilled(kids[pos := kid], order)
  {
  }

  // ---- the logarithmic height

  function Power(b: nat, e: nat): nat { if e == 0 then 1 else b * Power(b, e - 1) }

  /** The least number of entries below a non-root node of height `h`. */
  function MinEntries(order: nat, h: nat): nat
    requires h >= 1
  {
    Power(MinKids(order), h - 1) * MinLeaf(order)
  }

  lemma MinEntriesStep(order: nat, h: nat)
    requires h >= 1
    ensures MinEntries(order, h + 1) == MinKids(order) * MinEntries(order, h)
  {
    var c, p, f := MinKids(order), Power(MinKids(order), h - 1), MinLeaf(order);
    assert (c * p) * f == c * (p * f);
  }

  lemma {:induction false} ForestAtLeast(kids: seq<Tree>, m: nat)
    requires AllShaped(kids)
    requires forall i :: 0 <= i < |kids| ==> |Entries(kids[i])| >= m
    ensures |Forest(kids)| >= |kids| * m
  {
    if kids != [] {
      ForestAtLeast(kids[1..], m);
      assert |kids| * m == m + (|kids| - 1) * m;
    }
  }

  lemma {:induction false} FilledSize(t: Tree, lo: Option<Key>, hi: Option<Key>, h: nat, order: nat)
    requires Valid(t, lo, hi, h, order) && Shaped(t) && Filled(t, order, false)
    ensures |Entries(t)| >= MinEntries(order, h)
    decreases t
  {
    match t
    case Leaf(keys, vals) => ZipAt(keys, vals);
    case Node(keys, kids) =>
      forall i | 0 <= i < |kids| ensures |Entries(kids[i])| >= MinEntries(order, h - 1) {
        FilledSize(kids[i], Lower(keys, i, lo), Upper(keys, i, hi), h - 1, order);
      }
      ForestAtLeast(kids, MinEntries(order, h - 1));
      MinEntriesStep(order, h - 1);
      Monotone(MinKids(order), |kids|, MinEntries(order, h - 1));
  }

  lemma Monotone(a: nat, b: nat, m: nat)
    requires a <= b
    ensures a * m <= b * m
  {
  }

  ghost predicate InsertsOnly(ops: seq<Op>) {
    forall i :: 0 <= i < |ops| ==> !ops[i].Remove?
  }

  lemma {:induction false} RunKeepsFilled(st: State, ops: seq<Op>)
    requires Good(st) && Filled(st.root, st.order, true) && InsertsOnly(ops)
    ensures Good(Run(st, ops).0) && Run(st, ops).0.order == st.order
    ensures Filled(Run(st, ops).0.root, st.order, true)
    decreases |ops|
  {
    if ops != [] {
      var op := ops[0];
      ApplyRefinesMap(st, op);
      if op.Insert? && Search(st.root, op.key).None? {
        SearchCorrect(st.root, op.key, None, None, st.height, st.order);
        InsertKeepsFilled(st.root, op.key, op.val, None, None, st.height, st.order, true);
      }
      RunKeepsFilled(Apply(st, op).0, ops[1..]);
    }
  }

  /** A tree built without deletions holds at least 2 * ceil(order/2)^(h-2) * floor(order/2)
      entries once it has height h >= 2. */
  lemma LogarithmicHeight(order: int, ops: seq<Op>)
    requires InsertsOnly(ops)
    ensures var st := Run(NewTree(order), ops).0;
      st.height >= 2 ==> st.size >= 2 * (Power(MinKids(st.order), st.height - 2) * MinLeaf(st.order))
  {
    RunKeepsFilled(NewTree(order), ops);
    var st := Run(NewTree(order), ops).0;
    if st.height >= 2 {
      var keys, kids := st.root.keys, st.root.kids;
      var m := MinEntries(st.order, st.height - 1);
      forall i | 0 <= i < |kids| ensures |Entries(kids[i])| >= m {
        FilledSize(kids[i], Lower(keys, i, None), Upper(keys, i, None), st.height - 1, st.order);
      }
      ForestAtLeast(kids, m);
      Monotone(2, |kids|, m);
    }
  }

  // ---- the other side

  lemma {:induction false} ForestAtMost(kids: seq<Tree>, m: nat)
    requires AllShaped(kids)
    requires forall i :: 0 <= i < |kids| ==> |Entries(kids[i])| <= m
    ensures |Forest(kids)| <= |kids| * m
  {
    if kids != [] {
      ForestAtMost(kids[1..], m);
      assert |kids| * m == m + (|kids| - 1) * m;
    }
  }

  lemma {:induction false} SizeBelowPower(t: Tree, lo: Option<Key>, hi: Option<Key>, h: nat, order: nat)
    requires Valid(t, lo, hi, h, order) && Shaped(t)
    ensures |Entries(t)| < Power(order, h)
    decreases t
  {
    match t
    case Leaf(keys, vals) =>
      ZipAt(keys, vals);
      assert Power(order, 1) == order * Power(order, 0);
    case Node(keys, kids) =>
      forall i | 0 <= i < |kids| ensures |Entries(kids[i])| <= Power(order, h - 1) - 1 {
        SizeBelowPower(kids[i], Lower(keys, i, lo), Upper(keys, i, hi), h - 1, order);
      }
      assert |Entries(kids[0])| >= 0;
      var m := Power(order, h - 1) - 1;
      ForestAtMost(kids, m);
      Monotone(|kids|, order, m);
      assert order * (m + 1) == order * m + order;
  }

  /** In every reachable tree order^height exceeds the number of entries, so the bound
      "height <= log_order(size)" that the documentation gives never holds. */
  lemma HeightExceedsLogarithm(st: State)
    requires Good(st)
    ensures st.size < Power(st.order, st.height)
  {
    SizeBelowPower(st.root, None, None, st.height, st.order);
  }
}
