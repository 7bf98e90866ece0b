/** The in-place insertion sort used by pkg/geo (by distance) and pkg/database (by id);
    `gt` is the comparison that keeps the scan moving left. */
module InsertionSort {
  function InsertLast<T>(s: seq<T>, x: T, gt: (T, T) -> bool): seq<T> {
    if s == [] || !gt(s[|s| - 1], x) then s + [x]
    else InsertLast(s[..|s| - 1], x, gt) + [s[|s| - 1]]
  }

  /** What the sort leaves in the slice. */
  function Sorted<T>(s: seq<T>, gt: (T, T) -> bool): (r: seq<T>)
    ensures |r| == |s|
  {
    if s == [] then [] else Lengthen(Sorted(s[..|s| - 1], gt), s[|s| - 1], gt); InsertLast(Sorted(s[..|s| - 1], gt), s[|s| - 1], gt)
  }

  lemma Lengthen<T>(s: seq<T>, x: T, gt: (T, T) -> bool)
    ensures |InsertLast(s, x, gt)| == |s| + 1
  {
  }

  method Sort<T>(a: array<T>, gt: (T, T) -> bool)
    modifies a
    ensures a[..] == Sorted(old(a[..]), gt)
  {
    hide InsertLast, Sorted, Placed;
    ghost var was := a[..];
    var i := 1;
    SortedStart(was, gt);
    while i < a.Length
      invariant 1 <= i && (a.Length > 0 ==> i <= a.Length)
      invariant a.Length > 0 ==> a[..] == Sorted(was[..i], gt) + was[i..]
    {
      Place(a, i, gt);
      SortedNext(was, i, gt);
      i := i + 1;
    }
    assert a.Length > 0 ==> was[..a.Length] == was && was[a.Length..] == [];
  }

  /** The sequence with element `i` moved left past everything it must precede. */
  function Placed<T>(s: seq<T>, i: nat, gt: (T, T) -> bool): seq<T>
    requires i < |s|
  {
    InsertLast(s[..i], s[i], gt) + s[i + 1..]
  }

  lemma SortedStart<T>(s: seq<T>, gt: (T, T) -> bool)
    ensures s == [] ==> Sorted(s, gt) == []
    ensures s != [] ==> s == Sorted(s[..1], gt) + s[1..]
  {
    if s != [] {
      assert s[..1][..0] == [] && Sorted(s[..1][..0], gt) == [];
      assert Sorted(s[..1], gt) == [s[0]];
    }
  }

  lemma SortedNext<T>(s: seq<T>, i: nat, gt: (T, T) -> bool)
    requires 0 < i < |s|
    ensures var t := Sorted(s[..i], gt) + s[i..];
      |t| == |s| && Placed(t, i, gt) == Sorted(s[..i + 1], gt) + s[i + 1..]
  {
    hide InsertLast;
    var t := Sorted(s[..i], gt) + s[i..];
    assert t[..i] == Sorted(s[..i], gt) && t[i] == s[i] && t[i + 1..] == s[i + 1..];
    assert s[..i + 1][..i] == s[..i] && s[..i + 1][i] == s[i];
  }

  /** Moves element `i` left past everything it must precede. */
  method Place<T>(a: array<T>, i: nat, gt: (T, T) -> bool)
    requires i < a.Length
    modifies a
    ensures a[..] == Placed(old(a[..]), i, gt)
  {
    hide Placed, Partly;
    ghost var was := a[..];
    var key := a[i];
    var j := i - 1;
    PartlyStart(was, i, gt);
    while j >= 0 && gt(a[j], key)
      invariant -1 <= j < i && Partly(a[..], was, i, j, gt)
    {
      PartlyNext(a[..], was, i, j, gt);
      ghost var next := a[..][j + 1 := a[j]];
      a[j + 1] := a[j];
      assert a[..] == next;
      j := j - 1;
    }
    PartlyDone(a[..], was, i, j, gt);
    ghost var done := a[..][j + 1 := key];
    a[j + 1] := key;
    assert a[..] == done;
  }

  /** The elements behind `j` have moved one place right, and passing them does not change where
      element `i` ends up. */
  ghost predicate Partly<T>(a: seq<T>, was: seq<T>, i: nat, j: int, gt: (T, T) -> bool) {
    && -1 <= j < i < |was| == |a|
    && a[..j + 1] == was[..j + 1] && a[j + 2..] == was[j + 1..i] + was[i + 1..]
    && InsertLast(was[..i], was[i], gt) == InsertLast(was[..j + 1], was[i], gt) + was[j + 1..i]
  }

  lemma PartlyStart<T>(s: seq<T>, i: nat, gt: (T, T) -> bool)
    requires i < |s|
    ensures Partly(s, s, i, i - 1, gt)
  {
    hide InsertLast;
    assert s[i..i] == [] && s[i + 1..] == s[i..i] + s[i + 1..];
  }

  lemma PartlyNext<T>(a: seq<T>, was: seq<T>, i: nat, j: nat, gt: (T, T) -> bool)
    requires Partly(a, was, i, j, gt) && gt(a[j], was[i])
    ensures Partly(a[j + 1 := a[j]], was, i, j - 1, gt)
  {
    hide InsertLast;
    var b := a[j + 1 := a[j]];
    assert a[j] == a[..j + 1][j] == was[j];
    assert b[..j] == a[..j + 1][..j] && was[..j + 1][..j] == was[..j];
    assert b[j + 1..] == [was[j]] + a[j + 2..];
    assert was[j..i] == [was[j]] + was[j + 1..i];
    PassOne(was, i, j, was[i], gt);
  }

  /** Passing one larger element does not change where `x` ends up. */
  lemma PassOne<T>(s: seq<T>, i: nat, j: nat, x: T, gt: (T, T) -> bool)
    requires j < i <= |s| && gt(s[j], x)
    ensures InsertLast(s[..j + 1], x, gt) + s[j + 1..i] == InsertLast(s[..j], x, gt) + s[j..i]
  {
    assert s[..j + 1][..j] == s[..j];
    assert s[j..i] == [s[j]] + s[j + 1..i];
  }

  lemma PartlyDone<T>(a: seq<T>, was: seq<T>, i: nat, j: int, gt: (T, T) -> bool)
    requires Partly(a, was, i, j, gt) && (j >= 0 ==> !gt(a[j], was[i]))
    ensures a[j + 1 := was[i]] == Placed(was, i, gt)
  {
    var b := a[j + 1 := was[i]];
    assert j >= 0 ==> a[j] == a[..j + 1][j] && was[..j + 1][j] == was[j];
    assert InsertLast(was[..j + 1], was[i], gt) == was[..j + 1] + [was[i]];
    assert b == a[..j + 1] + [was[i]] + a[j + 2..];
  }

  // ---- what sorting means

  lemma {:induction false} InsertKeepsAll<T>(s: seq<T>, x: T, gt: (T, T) -> bool)
    ensures multiset(InsertLast(s, x, gt)) == multiset(s) + multiset{x}
  {
    if s != [] && gt(s[|s| - 1], x) {
      InsertKeepsAll(s[..|s| - 1], x, gt);
      assert s == s[..|s| - 1] + [s[|s| - 1]];
    }
  }

  /** Sorting permutes. */
  lemma {:induction false} SortedPermutes<T>(s: seq<T>, gt: (T, T) -> bool)
    ensures multiset(Sorted(s, gt)) == multiset(s)
  {
    if s != [] {
      SortedPermutes(s[..|s| - 1], gt);
      InsertKeepsAll(Sorted(s[..|s| - 1], gt), s[|s| - 1], gt);
      assert s == s[..|s| - 1] + [s[|s| - 1]];
    }
  }

  /** Of two different elements at most one exceeds the other, transitively so. */
  ghost predicate Ranks<T(!new)>(gt: (T, T) -> bool) {
    && (forall x, y :: gt(x, y) ==> !gt(y, x))
    && (forall x, y, z :: !gt(x, y) && !gt(y, z) ==> !gt(x, z))
  }

  ghost predicate InOrder<T>(s: seq<T>, gt: (T, T) -> bool) {
    forall i, j :: 0 <= i < j < |s| ==> !gt(s[i], s[j])
  }

  lemma {:induction false} InsertInOrder<T(!new)>(s: seq<T>, x: T, gt: (T, T) -> bool)
    requires Ranks(gt) && InOrder(s, gt)
    ensures InOrder(InsertLast(s, x, gt), gt)
    ensures forall y :: y in InsertLast(s, x, gt) <==> y in s || y == x
  {
    if s != [] {
      var last, front := s[|s| - 1], s[..|s| - 1];
      if gt(last, x) {
        InsertInOrder(front, x, gt);
        var r := InsertLast(front, x, gt);
        forall i | 0 <= i < |r| ensures !gt(r[i], last) {
          assert r[i] in front || r[i] == x;
        }
        assert s == front + [last];
      } else {
        forall i | 0 <= i < |s| ensures !gt(s[i], x) {
          assert i < |s| - 1 ==> !gt(s[i], last);
        }
      }
    }
  }

  /** Sorting orders. */
  lemma {:induction false} SortedInOrder<T(!new)>(s: seq<T>, gt: (T, T) -> bool)
    requires Ranks(gt)
    ensures InOrder(Sorted(s, gt), gt)
  {
    if s != [] {
      SortedInOrder(s[..|s| - 1], gt);
      InsertInOrder(Sorted(s[..|s| - 1], gt), s[|s| - 1], gt);
    }
  }

  // ---- permutations

  ghost predicate Distinct<T(!new)>(s: seq<T>) { forall i, j :: 0 <= i < j < |s| ==> s[i] != s[j] }

  lemma {:induction false} AtMostOnce<T(!new)>(s: seq<T>, x: T)
    requires Distinct(s)
    ensures multiset(s)[x] <= 1
  {
    if s != [] {
      AtMostOnce(s[1..], x);
      assert s == [s[0]] + s[1..];
      assert s[0] !in s[1..];
    }
  }

  lemma DistinctPermuted<T(!new)>(s: seq<T>, t: seq<T>)
    requires Distinct(s) && multiset(s) == multiset(t)
    ensures Distinct(t)
  {
    forall i, j | 0 <= i < j < |t| ensures t[i] != t[j] {
      AtMostOnce(s, t[i]);
      assert t == t[..j] + [t[j]] + t[j + 1..];
      assert t[i] in t[..j];
    }
  }

  lemma SameElements<T>(s: seq<T>, t: seq<T>, x: T)
    requires multiset(s) == multiset(t)
    ensures x in s <==> x in t
  {
    assert x in multiset(s) <==> x in multiset(t);
  }
}
