/** Decoding undoes encoding, at every nesting level and with any bytes after it. */
module BsonRoundTrip {
  import opened Options
  import opened Document
  import opened BsonFormat

  const LIMIT: nat := 0x8000_0000

  /** Every document inside has distinct keys, as DocumentObject guarantees. */
  ghost predicate WellKeyed(v: Value) {
    match v
    case Array(items) => forall i :: 0 <= i < |items| ==> WellKeyed(items[i])
    case Doc(fields) => DistinctKeys(fields) && forall i :: 0 <= i < |fields| ==> WellKeyed(fields[i].val)
    case _ => true
  }

  /** No key inside contains a zero byte. */
  ghost predicate NulFree(v: Value) {
    match v
    case Array(items) => forall i :: 0 <= i < |items| ==> NulFree(items[i])
    case Doc(fields) => forall i :: 0 <= i < |fields| ==> 0 !in fields[i].key && NulFree(fields[i].val)
    case _ => true
  }

  // ---- reading what stands at a position

  ghost predicate At(data: Bytes, pos: nat, s: Bytes) {
    pos + |s| <= |data| && data[pos..pos + |s|] == s
  }

  lemma AtSplit(data: Bytes, pos: nat, a: Bytes, b: Bytes)
    requires At(data, pos, a + b)
    ensures At(data, pos, a) && At(data, pos + |a|, b)
  {
    assert data[pos..pos + |a|] == data[pos..pos + |a + b|][..|a|];
    assert data[pos + |a|..pos + |a| + |b|] == data[pos..pos + |a + b|][|a|..];
  }

  lemma Regroup(a: Bytes, b: Bytes, c: Bytes)
    ensures a + b + c == a + (b + c)
  {
  }

  lemma AtHead(data: Bytes, pos: nat, b: byte, rest: Bytes)
    requires At(data, pos, [b] + rest)
    ensures pos < |data| && data[pos] == b && At(data, pos + 1, rest)
  {
    AtSplit(data, pos, [b], rest);
    assert data[pos..pos + 1][0] == b;
  }

  lemma Int32At(data: Bytes, pos: nat, i: Int32)
    requires At(data, pos, LE(ToWord(i, 0x1_0000_0000), 4))
    ensures ReadInt32(data, pos) == Ok(i, pos + 4)
  {
    Bounds();
    LERoundTrip(ToWord(i, 0x1_0000_0000), 4);
  }

  lemma LengthAt(data: Bytes, pos: nat, n: nat)
    requires n < LIMIT && At(data, pos, LE(n, 4))
    ensures ReadInt32(data, pos) == Ok(n, pos + 4)
  {
    Int32At(data, pos, n);
  }

  lemma Int64At(data: Bytes, pos: nat, l: Int64)
    requires At(data, pos, LE(ToWord(l, 0x1_0000_0000_0000_0000), 8))
    ensures ReadInt64(data, pos) == Ok(l, pos + 8)
  {
    Bounds();
    LERoundTrip(ToWord(l, 0x1_0000_0000_0000_0000), 8);
  }

  lemma Word64At(data: Bytes, pos: nat, w: Word64)
    requires At(data, pos, LE(w, 8))
    ensures ReadWord64(data, pos) == Ok(w, pos + 8)
  {
    Bounds();
    LERoundTrip(w, 8);
  }

  lemma {:induction false} CStringAt(data: Bytes, pos: nat, key: Bytes)
    requires 0 !in key && At(data, pos, key + [0])
    ensures ReadCString(data, pos) == Ok(key, pos + |key| + 1)
    decreases key
  {
    if key == [] {
      AtHead(data, pos, 0, []);
    } else {
      assert key + [0] == [key[0]] + (key[1..] + [0]);
      AtHead(data, pos, key[0], key[1..] + [0]);
      CStringAt(data, pos + 1, key[1..]);
      assert key[0] in key && key == [key[0]] + key[1..];
    }
  }

  // ---- values without nested documents

  ghost predicate Flat(v: Value) { !v.Array? && !v.Doc? }

  lemma StringRead(data: Bytes, pos: nat, s: Bytes)
    requires ReadInt32(data, pos) == Ok(|s| + 1, pos + 4) && At(data, pos + 4, s) && At(data, pos + 4 + |s|, [0])
    ensures ReadString(data, pos) == Ok(Str(s), pos + |s| + 5)
  {
    hide ReadInt32;
  }

  lemma StringAt(data: Bytes, pos: nat, s: Bytes)
    requires |s| + 1 < LIMIT && At(data, pos, LE(|s| + 1, 4) + s + [0])
    ensures ReadString(data, pos) == Ok(Str(s), pos + |s| + 5)
  {
    hide LE, ReadInt32, At, ReadString;
    AtSplit(data, pos, LE(|s| + 1, 4) + s, [0]);
    AtSplit(data, pos, LE(|s| + 1, 4), s);
    LengthAt(data, pos, |s| + 1);
    StringRead(data, pos, s);
  }

  lemma BinaryRead(data: Bytes, pos: nat, b: Bytes)
    requires ReadInt32(data, pos) == Ok(|b|, pos + 4) && At(data, pos + 5, b)
    ensures ReadBinary(data, pos) == Ok(Binary(b), pos + |b| + 5)
  {
    hide ReadInt32;
  }

  lemma BinaryAt(data: Bytes, pos: nat, b: Bytes)
    requires |b| < LIMIT && At(data, pos, LE(|b|, 4) + [0] + b)
    ensures ReadBinary(data, pos) == Ok(Binary(b), pos + |b| + 5)
  {
    hide LE, ReadInt32, At, ReadBinary;
    AtSplit(data, pos, LE(|b|, 4) + [0], b);
    AtSplit(data, pos, LE(|b|, 4), [0]);
    LengthAt(data, pos, |b|);
    BinaryRead(data, pos, b);
  }

  lemma FlatRoundTrip(v: Value, data: Bytes, pos: nat)
    requires Flat(v) && 0 < pos && At(data, pos, EncodeValue(v)) && |EncodeValue(v)| < LIMIT
    ensures DecodeValue(Tag(v), data, pos) == Ok(v, pos + |EncodeValue(v)|)
  {
    match v
    case Null =>
    case Bool(b) => AtHead(data, pos, if b then 1 else 0, []);
    case I32(i) => Int32At(data, pos, i);
    case I64(l) => Int64At(data, pos, l);
    case Float(bits) => Word64At(data, pos, bits);
    case Str(s) => StringAt(data, pos, s);
    case Binary(b) => BinaryAt(data, pos, b);
    case ObjectId(_) =>
  }

  /** A size header equal to the full length makes the decoder cut out exactly the document. */
  lemma EmbeddedAt(data: Bytes, pos: nat, elements: Bytes)
    requires At(data, pos, Sized(elements)) && |Sized(elements)| < LIMIT
    ensures Embedded(data, pos) == Ok(Sized(elements), pos + |Sized(elements)|)
  {
    assert Sized(elements) == LE(|elements| + 5, 4) + (elements + [0]);
    AtSplit(data, pos, LE(|elements| + 5, 4), elements + [0]);
    LengthAt(data, pos, |elements| + 5);
  }

  // ---- array indices

  ghost function Undecimal(s: Bytes): int {
    if s == [] then 0 else 10 * Undecimal(s[..|s| - 1]) + (s[|s| - 1] as int - 48)
  }

  /** Index keys spell different indices differently and contain no zero byte. */
  lemma {:induction false} DecimalReads(n: nat)
    ensures Undecimal(Decimal(n)) == n && 0 !in Decimal(n)
  {
    if n < 10 {
      assert Decimal(n)[..0] == [];
      assert Undecimal(Decimal(n)[..0]) == 0;
    } else {
      DecimalReads(n / 10);
      assert Decimal(n)[..|Decimal(n)| - 1] == Decimal(n / 10);
    }
  }

  /** The fields an array is encoded as, from index `from` on. */
  ghost function ItemFields(items: seq<Value>, from: nat): seq<Field> {
    if items == [] then [] else [Field(Decimal(from), items[0])] + ItemFields(items[1..], from + 1)
  }

  lemma {:induction false} ItemFieldsAt(items: seq<Value>, from: nat)
    ensures |ItemFields(items, from)| == |items|
    ensures forall i :: 0 <= i < |items| ==> ItemFields(items, from)[i] == Field(Decimal(from + i), items[i])
  {
    if items != [] {
      ItemFieldsAt(items[1..], from + 1);
      forall i | 0 <= i < |items| ensures ItemFields(items, from)[i] == Field(Decimal(from + i), items[i]) {
        if i > 0 {
          assert ItemFields(items, from)[i] == ItemFields(items[1..], from + 1)[i - 1];
        }
      }
    }
  }

  lemma {:induction false} GetItem(items: seq<Value>, from: nat, i: nat)
    requires i < |items|
    ensures GetField(ItemFields(items, from), Decimal(from + i)) == Some(items[i])
  {
    DecimalReads(from);
    DecimalReads(from + i);
    if i > 0 {
      GetItem(items[1..], from + 1, i - 1);
    }
  }

  lemma {:induction false} ItemsBack(items: seq<Value>, n: nat)
    requires n <= |items|
    ensures ToItems(ItemFields(items, 0), n) == items[..n]
  {
    if n > 0 {
      ItemsBack(items, n - 1);
      GetItem(items, 0, n - 1);
    }
  }

  // ---- documents and arrays

  /** Keys of `fields` are distinct and new to `acc`. */
  ghost predicate Addable(acc: seq<Field>, fields: seq<Field>) {
    DistinctKeys(fields) && forall i :: 0 <= i < |fields| ==> !HasKey(acc, fields[i].key)
  }

  lemma AddableNext(acc: seq<Field>, fields: seq<Field>)
    requires fields != [] && Addable(acc, fields)
    ensures SetField(acc, fields[0].key, fields[0].val) == acc + [fields[0]]
    ensures Addable(acc + [fields[0]], fields[1..])
    ensures acc + [fields[0]] + fields[1..] == acc + fields
  {
    SetNewKey(acc, fields[0].key, fields[0].val);
  }

  /** One element: the decoder reads its tag, key and value and goes on behind it. */
  lemma ElementAt(key: Bytes, v: Value, rest: Bytes, data: Bytes, pos: nat)
    requires 0 < pos && 0 !in key && At(data, pos, EncodeElement(key, v) + rest)
    ensures var p := pos + |key| + 2;
      && pos < |data| && data[pos] == Tag(v) && ReadCString(data, pos + 1) == Ok(key, p)
      && At(data, p, EncodeValue(v)) && At(data, pos + |EncodeElement(key, v)|, rest)
      && |EncodeElement(key, v)| == |key| + 2 + |EncodeValue(v)|
  {
    hide EncodeValue, ReadCString, Tag, At;
    AtSplit(data, pos, EncodeElement(key, v), rest);
    AtHead(data, pos, Tag(v), (key + [0]) + EncodeValue(v));
    AtSplit(data, pos + 1, key + [0], EncodeValue(v));
    CStringAt(data, pos + 1, key);
  }

  lemma {:induction false} ValueRoundTrip(v: Value, data: Bytes, pos: nat)
    requires WellKeyed(v) && NulFree(v) && 0 < pos && At(data, pos, EncodeValue(v)) && |EncodeValue(v)| < LIMIT
    ensures DecodeValue(Tag(v), data, pos) == Ok(v, pos + |EncodeValue(v)|)
    decreases v
  {
    hide At, Sized, DecodeDocument, Embedded;
    match v
    case Doc(fields) =>
      EmbeddedAt(data, pos, EncodeFields(fields));
      DocumentRoundTrip(fields, []);
      assert EncodeDocument(fields) + [] == Sized(EncodeFields(fields));
    case Array(items) =>
      EmbeddedAt(data, pos, EncodeItems(items, 0));
      ArrayRoundTrip(items);
    case _ => FlatRoundTrip(v, data, pos);
  }

  lemma {:induction false} FieldsRoundTrip(fields: seq<Field>, acc: seq<Field>, data: Bytes, pos: nat)
    requires forall i :: 0 <= i < |fields| ==> WellKeyed(fields[i].val) && NulFree(fields[i].val) && 0 !in fields[i].key
    requires Addable(acc, fields) && 0 < pos && At(data, pos, EncodeFields(fields) + [0]) && |EncodeFields(fields)| < LIMIT
    ensures DecodeElements(data, pos, acc) == Ok(acc + fields, pos + |EncodeFields(fields)| + 1)
    decreases fields, 0
  {
    hide At, DecodeValue, EncodeElement, EncodeValue, ReadCString, Addable;
    if fields == [] {
      assert EncodeFields(fields) + [0] == [0] + [];
      AtHead(data, pos, 0, []);
      assert acc + fields == acc;
    } else {
      var key, v := fields[0].key, fields[0].val;
      Regroup(EncodeElement(key, v), EncodeFields(fields[1..]), [0]);
      ElementAt(key, v, EncodeFields(fields[1..]) + [0], data, pos);
      ValueRoundTrip(v, data, pos + |key| + 2);
      AddableNext(acc, fields);
      FieldsRoundTrip(fields[1..], acc + [fields[0]], data, pos + |EncodeElement(key, v)|);
    }
  }

  /** Decoding the encoding of a document, whatever follows it, gives back the document with
      the same key order and consumes exactly its bytes. */
  lemma {:induction false} DocumentRoundTrip(fields: seq<Field>, tail: Bytes)
    requires WellKeyed(Doc(fields)) && NulFree(Doc(fields)) && |EncodeDocument(fields)| < LIMIT
    ensures DecodeDocument(EncodeDocument(fields) + tail) == Ok(fields, |EncodeDocument(fields)|)
    decreases fields, 1
  {
    var data, elements := EncodeDocument(fields) + tail, EncodeFields(fields);
    HeaderAt(data, elements, tail);
    FieldsRoundTrip(fields, [], data, 4);
    assert [] + fields == fields;
  }

  lemma HeaderAt(data: Bytes, elements: Bytes, tail: Bytes)
    requires data == Sized(elements) + tail && |Sized(elements)| < LIMIT
    ensures ReadInt32(data, 0) == Ok(|elements| + 5, 4) && At(data, 4, elements + [0])
  {
    hide LE;
    assert data[0..4] == LE(|elements| + 5, 4);
    LengthAt(data, 0, |elements| + 5);
    assert data[4..4 + |elements| + 1] == elements + [0];
  }

  lemma {:induction false} ItemsRoundTrip(items: seq<Value>, from: nat, acc: seq<Field>, data: Bytes, pos: nat)
    requires forall i :: 0 <= i < |items| ==> WellKeyed(items[i]) && NulFree(items[i])
    requires Addable(acc, ItemFields(items, from)) && 0 < pos && At(data, pos, EncodeItems(items, from) + [0]) && |EncodeItems(items, from)| < LIMIT
    ensures DecodeElements(data, pos, acc) == Ok(acc + ItemFields(items, from), pos + |EncodeItems(items, from)| + 1)
    decreases items, 0
  {
    hide At, DecodeValue, EncodeElement, EncodeValue, ReadCString, Addable, Decimal, WellKeyed, NulFree;
    var fields := ItemFields(items, from);
    if items == [] {
      assert EncodeItems(items, from) + [0] == [0] + [];
      AtHead(data, pos, 0, []);
      assert acc + fields == acc;
    } else {
      var key, v := Decimal(from), items[0];
      DecimalReads(from);
      Regroup(EncodeElement(key, v), EncodeItems(items[1..], from + 1), [0]);
      ElementAt(key, v, EncodeItems(items[1..], from + 1) + [0], data, pos);
      ValueRoundTrip(v, data, pos + |key| + 2);
      AddableNext(acc, fields);
      assert fields[1..] == ItemFields(items[1..], from + 1);
      ItemsRoundTrip(items[1..], from + 1, acc + [fields[0]], data, pos + |EncodeElement(key, v)|);
    }
  }

  lemma {:induction false} ArrayRoundTrip(items: seq<Value>)
    requires WellKeyed(Array(items)) && NulFree(Array(items)) && |Sized(EncodeItems(items, 0))| < LIMIT
    ensures DecodeDocument(Sized(EncodeItems(items, 0))).Ok?
    ensures var fields := DecodeDocument(Sized(EncodeItems(items, 0))).value; ToItems(fields, |fields|) == items
    decreases items, 1
  {
    var elements, fields := EncodeItems(items, 0), ItemFields(items, 0);
    var data := Sized(elements);
    assert data == data + [];
    HeaderAt(data, elements, []);
    ItemFieldsAt(items, 0);
    assert Addable([], fields) by {
      forall i, j | 0 <= i < j < |fields| ensures fields[i].key != fields[j].key {
        DecimalReads(i);
        DecimalReads(j);
      }
    }
    ItemsRoundTrip(items, 0, [], data, 4);
    assert [] + fields == fields;
    ItemsBack(items, |items|);
  }
}
