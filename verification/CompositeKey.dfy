/** Compound index keys of pkg/index/composite_key.go: their order and prefix matching. */
module CompositeKey {
  datatype Value =
    | Nil | Int(n: int) | Int64(n: int) | Int32(n: int) | Float64(r: real) | Text(bytes: seq<int>)
    | Bytes(bytes: seq<int>) | ObjectID(bytes: seq<int>) | Bool(b: bool) | Unsupported(tag: int)

  type Key = seq<Value>

  // ---- comparing

  function Sign(x: int, y: int): int { if x < y then -1 else if x > y then 1 else 0 }

  /** Element by element; of two sequences that agree the shorter comes first. */
  function Lex<T>(a: seq<T>, b: seq<T>, cmp: (T, T) -> int): int {
    if a == [] then if b == [] then 0 else -1
    else if b == [] then 1
    else if cmp(a[0], b[0]) != 0 then cmp(a[0], b[0])
    else Lex(a[1..], b[1..], cmp)
  }

  function CompareValues(a: Value, b: Value): int {
    if a.Nil? && b.Nil? then 0
    else if a.Nil? then -1
    else if b.Nil? then 1
    else match a
      case Int(x) => if b.Int? then Sign(x, b.n) else 0
      case Int64(x) => if b.Int64? || b.Int? then Sign(x, b.n) else 0
      case Int32(x) => if b.Int32? then Sign(x, b.n) else 0
      case Float64(x) => if b.Float64? then if x < b.r then -1 else if x > b.r then 1 else 0 else 0
      case Text(x) => if b.Text? then Lex(x, b.bytes, Sign) else 0
      case Bytes(x) => if b.Bytes? then Lex(x, b.bytes, Sign) else 0
      case ObjectID(x) => if b.ObjectID? then Lex(x, b.bytes, Sign) else 0
      case Bool(x) => if !b.Bool? || x == b.b then 0 else if !x then -1 else 1
      case Unsupported(_) => 0
  }

  /** The first different field decides, then the length. */
  method Compare(a: Key, b: Key) returns (r: int)
    ensures r == Lex(a, b, CompareValues)
  {
    var n := if |b| < |a| then |b| else |a|;
    assert a[0..] == a && b[0..] == b;
    for i := 0 to n
      invariant Lex(a, b, CompareValues) == Lex(a[i..], b[i..], CompareValues)
    {
      var cmp := CompareValues(a[i], b[i]);
      if cmp != 0 {
        return cmp;
      }
      assert a[i..][1..] == a[i + 1..] && b[i..][1..] == b[i + 1..];
    }
    return if |a| < |b| then -1 else if |a| > |b| then 1 else 0;
  }

  // ---- lexicographic orders

  /** `cmp` is a total order on the values `p` admits. */
  ghost predicate Orders<T(!new)>(cmp: (T, T) -> int, p: T -> bool) {
    && (forall x, y :: p(x) && p(y) ==> cmp(x, y) == -cmp(y, x) && (cmp(x, y) == 0 <==> x == y))
    && (forall x, y, z :: p(x) && p(y) && p(z) && cmp(x, y) <= 0 && cmp(y, z) <= 0 ==> cmp(x, z) <= 0)
  }

  /** Every field is one its column admits; the columns start at `from`. */
  ghost predicate Fits<T>(s: seq<T>, column: nat -> T -> bool, from: nat) {
    forall i :: 0 <= i < |s| ==> column(from + i)(s[i])
  }

  lemma FitsTail<T>(s: seq<T>, column: nat -> T -> bool, from: nat)
    requires Fits(s, column, from) && s != []
    ensures column(from)(s[0]) && Fits(s[1..], column, from + 1)
  {
    assert column(from + 0)(s[0]);
    forall i | 0 <= i < |s[1..]| ensures column(from + 1 + i)(s[1..][i]) {
      assert column(from + (i + 1))(s[i + 1]);
    }
  }

  lemma {:induction false} LexPair<T(!new)>(a: seq<T>, b: seq<T>, cmp: (T, T) -> int, column: nat -> T -> bool, from: nat)
    requires Fits(a, column, from) && Fits(b, column, from) && forall i :: Orders(cmp, column(i))
    ensures Lex(a, b, cmp) == -Lex(b, a, cmp)
    ensures Lex(a, b, cmp) == 0 <==> a == b
  {
    if a != [] && b != [] {
      FitsTail(a, column, from);
      FitsTail(b, column, from);
      assert Orders(cmp, column(from));
      LexPair(a[1..], b[1..], cmp, column, from + 1);
      assert a == [a[0]] + a[1..] && b == [b[0]] + b[1..];
    }
  }

  lemma {:induction false} LexTransitive<T(!new)>(a: seq<T>, b: seq<T>, c: seq<T>, cmp: (T, T) -> int, column: nat -> T -> bool, from: nat)
    requires Fits(a, column, from) && Fits(b, column, from) && Fits(c, column, from) && forall i :: Orders(cmp, column(i))
    requires Lex(a, b, cmp) <= 0 && Lex(b, c, cmp) <= 0
    ensures Lex(a, c, cmp) <= 0
  {
    if a != [] && b != [] && c != [] {
      FitsTail(a, column, from);
      FitsTail(b, column, from);
      FitsTail(c, column, from);
      assert Orders(cmp, column(from));
      if a[0] == b[0] == c[0] {
        LexTransitive(a[1..], b[1..], c[1..], cmp, column, from + 1);
      }
    }
  }

  // ---- values of one column

  predicate SameKind(a: Value, b: Value) {
    match a
    case Nil => b.Nil?
    case Int(_) => b.Int?
    case Int64(_) => b.Int64?
    case Int32(_) => b.Int32?
    case Float64(_) => b.Float64?
    case Text(_) => b.Text?
    case Bytes(_) => b.Bytes?
    case ObjectID(_) => b.ObjectID?
    case Bool(_) => b.Bool?
    case Unsupported(_) => false
  }

  /** A column holds values of one supported kind, or nil. */
  function Column(sample: Value): Value -> bool {
    (v: Value) => v.Nil? || SameKind(sample, v)
  }

  function AnyByte(i: nat): int -> bool { (v: int) => true }

  lemma BytesOrder(a: seq<int>, b: seq<int>, c: seq<int>)
    ensures Lex(a, b, Sign) == -Lex(b, a, Sign) && (Lex(a, b, Sign) == 0 <==> a == b)
    ensures Lex(a, b, Sign) <= 0 && Lex(b, c, Sign) <= 0 ==> Lex(a, c, Sign) <= 0
  {
    hide Lex;
    forall i ensures Orders(Sign, AnyByte(i)) {
    }
    LexPair(a, b, Sign, AnyByte, 0);
    if Lex(a, b, Sign) <= 0 && Lex(b, c, Sign) <= 0 {
      LexTransitive(a, b, c, Sign, AnyByte, 0);
    }
  }

  lemma ValueOrder(sample: Value, x: Value, y: Value, z: Value)
    requires Column(sample)(x) && Column(sample)(y) && Column(sample)(z)
    ensures CompareValues(x, y) == -CompareValues(y, x) && (CompareValues(x, y) == 0 <==> x == y)
    ensures CompareValues(x, y) <= 0 && CompareValues(y, z) <= 0 ==> CompareValues(x, z) <= 0
  {
    hide Lex;
    if (x.Text? || x.Bytes? || x.ObjectID?) && !y.Nil? {
      BytesOrder(x.bytes, y.bytes, if z.Nil? then [] else z.bytes);
    }
  }

  /** Comparing values is a total order on each column. */
  lemma ColumnOrder(sample: Value)
    ensures Orders(CompareValues, Column(sample))
  {
    hide CompareValues, Column;
    var p := Column(sample);
    forall x, y | p(x) && p(y) ensures CompareValues(x, y) == -CompareValues(y, x) && (CompareValues(x, y) == 0 <==> x == y) {
      ValueOrder(sample, x, y, y);
    }
    forall x, y, z | p(x) && p(y) && p(z) && CompareValues(x, y) <= 0 && CompareValues(y, z) <= 0 ensures CompareValues(x, z) <= 0 {
      ValueOrder(sample, x, y, z);
    }
  }

  // ---- keys of one index

  /** `schema` gives a sample value for every column. */
  ghost predicate Homogeneous(k: Key, schema: nat -> Value) {
    forall i :: 0 <= i < |k| ==> Column(schema(i))(k[i])
  }

  /** On homogeneous keys of any lengths the comparison is a total order. */
  lemma KeyOrder(a: Key, b: Key, c: Key, schema: nat -> Value)
    requires Homogeneous(a, schema) && Homogeneous(b, schema) && Homogeneous(c, schema)
    ensures Lex(a, b, CompareValues) == -Lex(b, a, CompareValues)
    ensures Lex(a, b, CompareValues) == 0 <==> a == b
    ensures Lex(a, b, CompareValues) <= 0 && Lex(b, c, CompareValues) <= 0 ==> Lex(a, c, CompareValues) <= 0
  {
    hide CompareValues, Column, Lex;
    var column := (i: nat) => Column(schema(i));
    forall i: nat ensures Orders(CompareValues, column(i)) {
      ColumnOrder(schema(i));
    }
    assert Fits(a, column, 0) && Fits(b, column, 0) && Fits(c, column, 0);
    LexPair(a, b, CompareValues, column, 0);
    if Lex(a, b, CompareValues) <= 0 && Lex(b, c, CompareValues) <= 0 {
      LexTransitive(a, b, c, CompareValues, column, 0);
    }
  }

  /** Two values compare the same from both sides exactly unless one is an int64 and the
      other an int with a different number: only the int64's side looks at the int. */
  lemma OppositeIff(a: Value, b: Value)
    ensures CompareValues(a, b) == -CompareValues(b, a) <==>
      !(((a.Int64? && b.Int?) || (a.Int? && b.Int64?)) && a.n != b.n)
  {
    hide Lex;
    if (a.Text? && b.Text?) || (a.Bytes? && b.Bytes?) || (a.ObjectID? && b.ObjectID?) {
      BytesOrder(a.bytes, b.bytes, []);
    }
  }

  /** For example an int64 is above a smaller int, which in turn counts as equal to it. */
  lemma MixedIntegersDisagree()
    ensures CompareValues(Int64(5), Int(3)) == 1 && CompareValues(Int(3), Int64(5)) == 0
  {
  }

  // ---- what comes first

  /** The fields of both sequences compare equal up to `i`. */
  ghost predicate AgreeUpTo<T>(a: seq<T>, b: seq<T>, cmp: (T, T) -> int, i: nat) {
    i <= |a| && i <= |b| && forall j :: 0 <= j < i ==> cmp(a[j], b[j]) == 0
  }

  /** The first fields that differ decide, exactly as they compare; if there are none, the length
      does, the shorter coming first. */
  lemma {:induction false} FirstDifference<T>(a: seq<T>, b: seq<T>, cmp: (T, T) -> int, i: nat)
    requires AgreeUpTo(a, b, cmp, i)
    ensures i < |a| && i < |b| && cmp(a[i], b[i]) != 0 ==> Lex(a, b, cmp) == cmp(a[i], b[i])
    ensures i == |a| || i == |b| ==> Lex(a, b, cmp) == if |a| < |b| then -1 else if |a| > |b| then 1 else 0
  {
    if i > 0 {
      assert forall j :: 0 <= j < i - 1 ==> a[1..][j] == a[j + 1] && b[1..][j] == b[j + 1];
      FirstDifference(a[1..], b[1..], cmp, i - 1);
    }
  }

  lemma {:induction false} Differs<T>(a: seq<T>, b: seq<T>, cmp: (T, T) -> int) returns (i: nat)
    ensures AgreeUpTo(a, b, cmp, i) && (i == |a| || i == |b| || cmp(a[i], b[i]) != 0)
  {
    i := 0;
    while i < |a| && i < |b| && cmp(a[i], b[i]) == 0
      invariant AgreeUpTo(a, b, cmp, i)
    {
      i := i + 1;
    }
  }

  /** `a` is a proper prefix of `b`, or below it at the first place where they differ. */
  ghost predicate SeqBelow<T>(a: seq<T>, b: seq<T>, below: (T, T) -> bool) {
    exists i :: BelowAt(a, b, below, i)
  }

  ghost predicate BelowAt<T>(a: seq<T>, b: seq<T>, below: (T, T) -> bool, i: nat) {
    i <= |a| && i < |b| && a[..i] == b[..i] && (i == |a| || below(a[i], b[i]))
  }

  /** On these two sequences the comparison of elements recognises equality and `below`. */
  ghost predicate Decides<T>(a: seq<T>, b: seq<T>, cmp: (T, T) -> int, below: (T, T) -> bool) {
    forall i :: 0 <= i < |a| && i < |b| ==> (cmp(a[i], b[i]) == 0 <==> a[i] == b[i]) && (cmp(a[i], b[i]) < 0 <==> below(a[i], b[i]))
  }

  lemma LexIsBelow<T>(a: seq<T>, b: seq<T>, cmp: (T, T) -> int, below: (T, T) -> bool)
    requires Decides(a, b, cmp, below)
    ensures Lex(a, b, cmp) < 0 <==> SeqBelow(a, b, below)
    ensures Lex(a, b, cmp) == 0 <==> a == b
  {
    hide Lex;
    var i := Differs(a, b, cmp);
    FirstDifference(a, b, cmp, i);
    assert a[..i] == b[..i];
    if Lex(a, b, cmp) < 0 {
      assert BelowAt(a, b, below, i);
    }
    if k: nat :| BelowAt(a, b, below, k) {
      assert forall j :: 0 <= j < k ==> a[..k][j] == b[..k][j] && a[j] == b[j];
      FirstDifference(a, b, cmp, k);
    }
  }

  predicate Less(x: int, y: int) { x < y }

  lemma BytesBelow(a: seq<int>, b: seq<int>)
    ensures -1 <= Lex(a, b, Sign) <= 1
    ensures Lex(a, b, Sign) < 0 <==> SeqBelow(a, b, Less)
    ensures Lex(a, b, Sign) > 0 <==> SeqBelow(b, a, Less)
  {
    hide Lex, SeqBelow;
    LexIsBelow(a, b, Sign, Less);
    LexIsBelow(b, a, Sign, Less);
    BytesOrder(a, b, []);
    var i := Differs(a, b, Sign);
    FirstDifference(a, b, Sign, i);
  }

  /** The order each kind of value has of its own: nil below everything, numbers by size, false
      below true, byte strings by their first different byte, then by length. */
  ghost predicate ValueBelow(a: Value, b: Value) {
    match a
    case Nil => !b.Nil?
    case Int(x) => b.Int? && x < b.n
    case Int64(x) => b.Int64? && x < b.n
    case Int32(x) => b.Int32? && x < b.n
    case Float64(x) => b.Float64? && x < b.r
    case Text(x) => b.Text? && SeqBelow(x, b.bytes, Less)
    case Bytes(x) => b.Bytes? && SeqBelow(x, b.bytes, Less)
    case ObjectID(x) => b.ObjectID? && SeqBelow(x, b.bytes, Less)
    case Bool(x) => b.Bool? && !x && b.b
    case Unsupported(_) => false
  }

  /** Comparing any two values tells which one is below in that order; an int64 on the left is
      also compared with an int. */
  lemma ValueDirection(a: Value, b: Value)
    ensures -1 <= CompareValues(a, b) <= 1
    ensures CompareValues(a, b) < 0 <==> ValueBelow(a, b) || (a.Int64? && b.Int? && a.n < b.n)
    ensures CompareValues(a, b) > 0 <==> ValueBelow(b, a) || (a.Int64? && b.Int? && a.n > b.n)
  {
    hide Lex, SeqBelow;
    if (a.Text? && b.Text?) || (a.Bytes? && b.Bytes?) || (a.ObjectID? && b.ObjectID?) {
      BytesBelow(a.bytes, b.bytes);
    }
  }

  ghost function BelowValue(): (Value, Value) -> bool { (a, b) => ValueBelow(a, b) }

  lemma KeysDecided(a: Key, b: Key, schema: nat -> Value)
    requires Homogeneous(a, schema) && Homogeneous(b, schema)
    ensures Decides(a, b, CompareValues, BelowValue())
  {
    hide CompareValues, Column, ValueBelow;
    forall i | 0 <= i < |a| && i < |b|
      ensures (CompareValues(a[i], b[i]) == 0 <==> a[i] == b[i]) && (CompareValues(a[i], b[i]) < 0 <==> ValueBelow(a[i], b[i]))
    {
      ValueOrder(schema(i), a[i], b[i], b[i]);
      ValueDirection(a[i], b[i]);
      OneKind(schema(i), a[i], b[i]);
    }
  }

  lemma OneKind(sample: Value, x: Value, y: Value)
    requires Column(sample)(x) && Column(sample)(y)
    ensures !(x.Int64? && y.Int?)
  {
  }

  /** Keys of one index compare as their fields do at the first difference, each in its own
      order, a key that another one continues coming before it. */
  lemma KeyDirection(a: Key, b: Key, schema: nat -> Value)
    requires Homogeneous(a, schema) && Homogeneous(b, schema)
    ensures Lex(a, b, CompareValues) ==
      if SeqBelow(a, b, BelowValue()) then -1 else if SeqBelow(b, a, BelowValue()) then 1 else 0
    ensures !(SeqBelow(a, b, BelowValue()) && SeqBelow(b, a, BelowValue()))
  {
    hide CompareValues, Column, ValueBelow, Lex, SeqBelow, Homogeneous;
    KeysDecided(a, b, schema);
    KeysDecided(b, a, schema);
    LexIsBelow(a, b, CompareValues, BelowValue());
    LexIsBelow(b, a, CompareValues, BelowValue());
    KeyOrder(a, b, b, schema);
    var i := Differs(a, b, CompareValues);
    FirstDifference(a, b, CompareValues, i);
    if i < |a| && i < |b| {
      ValueDirection(a[i], b[i]);
    }
  }

  // ---- prefixes

  predicate Matches(k: Key, prefix: Key) {
    |prefix| <= |k| && forall i :: 0 <= i < |prefix| ==> CompareValues(k[i], prefix[i]) == 0
  }

  method MatchesPrefix(k: Key, prefix: Key) returns (r: bool)
    ensures r == Matches(k, prefix)
  {
    if |prefix| > |k| {
      return false;
    }
    for i := 0 to |prefix|
      invariant forall j :: 0 <= j < i ==> CompareValues(k[j], prefix[j]) == 0
    {
      if CompareValues(k[i], prefix[i]) != 0 {
        return false;
      }
    }
    return true;
  }

  /** Matching a prefix means starting with it. */
  lemma MatchesIsPrefix(k: Key, prefix: Key, schema: nat -> Value)
    requires Homogeneous(k, schema) && Homogeneous(prefix, schema)
    ensures Matches(k, prefix) <==> prefix <= k
  {
    hide CompareValues, Column;
    if |prefix| <= |k| {
      forall i | 0 <= i < |prefix| ensures CompareValues(k[i], prefix[i]) == 0 <==> k[i] == prefix[i] {
        ColumnOrder(schema(i));
      }
    }
  }

  lemma {:induction false} Squeezed(a: Key, b: Key, c: Key, prefix: Key, column: nat -> Value -> bool, from: nat)
    requires Fits(a, column, from) && Fits(b, column, from) && Fits(c, column, from) && forall i :: Orders(CompareValues, column(i))
    requires prefix <= a && prefix <= c && Lex(a, b, CompareValues) <= 0 && Lex(b, c, CompareValues) <= 0
    ensures prefix <= b
    decreases |prefix|
  {
    hide CompareValues;
    if prefix != [] {
      FitsTail(a, column, from);
      FitsTail(c, column, from);
      if b != [] {
        FitsTail(b, column, from);
      }
      assert Orders(CompareValues, column(from));
      assert b != [] && b[0] == a[0] == c[0];
      Squeezed(a[1..], b[1..], c[1..], prefix[1..], column, from + 1);
    }
  }

  /** The keys that match a prefix form one contiguous interval of the order, which starts at
      the prefix itself. */
  lemma PrefixInterval(a: Key, b: Key, c: Key, prefix: Key, schema: nat -> Value)
    requires Homogeneous(a, schema) && Homogeneous(b, schema) && Homogeneous(c, schema) && Homogeneous(prefix, schema)
    requires Matches(a, prefix) && Matches(c, prefix)
    requires Lex(a, b, CompareValues) <= 0 && Lex(b, c, CompareValues) <= 0
    ensures Matches(b, prefix) && Lex(prefix, b, CompareValues) <= 0
  {
    hide CompareValues, Column, Lex, Matches;
    var column := (i: nat) => Column(schema(i));
    forall i: nat ensures Orders(CompareValues, column(i)) {
      ColumnOrder(schema(i));
    }
    assert Fits(a, column, 0) && Fits(b, column, 0) && Fits(c, column, 0);
    MatchesIsPrefix(a, prefix, schema);
    MatchesIsPrefix(b, prefix, schema);
    MatchesIsPrefix(c, prefix, schema);
    Squeezed(a, b, c, prefix, column, 0);
    PrefixLeast(b, prefix, column, 0);
  }

  lemma {:induction false} PrefixLeast(k: Key, prefix: Key, column: nat -> Value -> bool, from: nat)
    requires prefix <= k && Fits(k, column, from) && forall i :: Orders(CompareValues, column(i))
    ensures Lex(prefix, k, CompareValues) <= 0
    decreases |prefix|
  {
    hide CompareValues;
    if prefix != [] {
      FitsTail(k, column, from);
      assert Orders(CompareValues, column(from));
      PrefixLeast(k[1..], prefix[1..], column, from + 1);
    }
  }

  // ---- a prefix query on an ordered list

  ghost predicate Ordered(keys: seq<Key>) {
    forall i, j :: 0 <= i < j < |keys| ==> Lex(keys[i], keys[j], CompareValues) <= 0
  }

  ghost predicate AllHomogeneous(keys: seq<Key>, schema: nat -> Value) {
    forall i :: 0 <= i < |keys| ==> Homogeneous(keys[i], schema)
  }

  /** Where the keys that are not below `prefix` begin. */
  function FirstNotBelow(keys: seq<Key>, prefix: Key): (n: nat)
    ensures n <= |keys|
    ensures forall i :: 0 <= i < n ==> Lex(keys[i], prefix, CompareValues) < 0
    ensures n < |keys| ==> Lex(keys[n], prefix, CompareValues) >= 0
  {
    if keys == [] || Lex(keys[0], prefix, CompareValues) >= 0 then 0 else 1 + FirstNotBelow(keys[1..], prefix)
  }

  /** How many keys at the front match. */
  function MatchesInFront(keys: seq<Key>, prefix: Key): (n: nat)
    ensures n <= |keys|
    ensures forall i :: 0 <= i < n ==> Matches(keys[i], prefix)
    ensures n < |keys| ==> !Matches(keys[n], prefix)
  {
    if keys == [] || !Matches(keys[0], prefix) then 0 else 1 + MatchesInFront(keys[1..], prefix)
  }

  /** In an ordered list of homogeneous keys the matches of a prefix are exactly one slice, from
      the first key not below the prefix up to the first after it that does not match: what one
      range of the index returns. */
  lemma PrefixSlice(keys: seq<Key>, prefix: Key, schema: nat -> Value)
    requires Ordered(keys) && AllHomogeneous(keys, schema) && Homogeneous(prefix, schema)
    ensures var lo := FirstNotBelow(keys, prefix);
      var hi := lo + MatchesInFront(keys[lo..], prefix);
      forall i :: 0 <= i < |keys| ==> (Matches(keys[i], prefix) <==> lo <= i < hi)
  {
    hide CompareValues, Column, Lex, Matches, Homogeneous;
    var lo := FirstNotBelow(keys, prefix);
    var n := MatchesInFront(keys[lo..], prefix);
    var hi := lo + n;
    forall i | 0 <= i < |keys| ensures Matches(keys[i], prefix) <==> lo <= i < hi {
      if i < lo {
        BelowDoesNotMatch(keys[i], prefix, schema);
      } else if i < hi {
        assert keys[lo..][i - lo] == keys[i];
      } else if Matches(keys[i], prefix) {
        assert keys[lo..][n] == keys[hi];
        Between(keys, prefix, schema, lo, hi, i);
      }
    }
  }

  lemma BelowDoesNotMatch(k: Key, prefix: Key, schema: nat -> Value)
    requires Homogeneous(k, schema) && Homogeneous(prefix, schema) && Lex(k, prefix, CompareValues) < 0
    ensures !Matches(k, prefix)
  {
    hide CompareValues, Column, Lex, Matches, Homogeneous;
    if Matches(k, prefix) {
      KeyOrder(k, k, k, schema);
      KeyOrder(prefix, k, k, schema);
      PrefixInterval(k, k, k, prefix, schema);
    }
  }

  /** A key between the prefix and a match matches. */
  lemma Between(keys: seq<Key>, prefix: Key, schema: nat -> Value, lo: nat, j: nat, i: nat)
    requires Ordered(keys) && AllHomogeneous(keys, schema) && Homogeneous(prefix, schema)
    requires lo <= j <= i < |keys| && Lex(keys[lo], prefix, CompareValues) >= 0 && Matches(keys[i], prefix)
    ensures Matches(keys[j], prefix)
  {
    hide CompareValues, Column, Lex, Matches, Homogeneous;
    KeyOrder(prefix, keys[lo], keys[j], schema);
    KeyOrder(keys[j], keys[j], keys[j], schema);
    KeyOrder(prefix, keys[j], keys[i], schema);
    PrefixMatchesItself(prefix, schema);
    PrefixInterval(prefix, keys[j], keys[i], prefix, schema);
  }

  lemma PrefixMatchesItself(prefix: Key, schema: nat -> Value)
    requires Homogeneous(prefix, schema)
    ensures Matches(prefix, prefix)
  {
    MatchesIsPrefix(prefix, prefix, schema);
  }
}
