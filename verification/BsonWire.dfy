/** The bytes on the wire: what the encoder writes for each kind of value, byte by byte, with the
    tags and widths of the BSON specification 1.1. */
module BsonWire {
  import opened Options
  import opened Document
  import opened BsonFormat
  import opened BsonRoundTrip

  /** Byte `i` of a little-endian integer has weight 256 to the `i`. */
  lemma {:induction false} LittleEndian(n: nat, width: nat, i: nat)
    requires i < width
    ensures LE(n, width)[i] == (n / Bound(i)) % 256
  {
    if i == 0 {
      assert Bound(0) == 1;
    } else {
      LittleEndian(n / 256, width - 1, i - 1);
      assert Bound(i) == 256 * Bound(i - 1);
      DivTwice(n, Bound(i - 1));
    }
  }

  lemma DivTwice(n: nat, b: nat)
    requires b > 0
    ensures n / 256 / b == n / (256 * b)
  {
    var q := n / 256 / b;
    var r := n / 256 - q * b;
    assert n / 256 == q * b + r && 0 <= r < b;
    var rest := n - 256 * (q * b);
    assert 0 <= rest < 256 * b;
    assert n == q * (256 * b) + rest;
    DivUnique(n, 256 * b, q, rest);
  }

  lemma DivUnique(n: nat, d: nat, q: nat, r: nat)
    requires d > 0 && r < d && n == q * d + r
    ensures n / d == q
  {
    var p := n / d;
    assert n == p * d + n % d;
    if p < q {
      assert (q - p) * d == q * d - p * d;
      Times(q - p, d);
    } else if p > q {
      assert (p - q) * d == p * d - q * d;
      Times(p - q, d);
    }
  }

  lemma Times(k: nat, d: nat)
    requires k >= 1
    ensures k * d >= d
  {
  }

  /** The four bytes of a word below 2^32, spelled out. */
  function Word4(n: nat): Bytes
    requires n < 0x1_0000_0000
  {
    [n % 256, n / 256 % 256, n / 0x1_0000 % 256, n / 0x100_0000]
  }

  lemma FourBytes(n: nat)
    requires n < 0x1_0000_0000
    ensures LE(n, 4) == Word4(n)
  {
    assert Bound(0) == 1 && Bound(1) == 256 && Bound(2) == 0x1_0000 && Bound(3) == 0x100_0000;
    LittleEndian(n, 4, 0);
    LittleEndian(n, 4, 1);
    LittleEndian(n, 4, 2);
    LittleEndian(n, 4, 3);
  }

  /** A negative number is written as its complement to 2^32 or 2^64. */
  lemma Integers(i: Int32, l: Int64)
    ensures EncodeValue(I32(i)) == Word4(if i >= 0 then i else 0x1_0000_0000 + i)
    ensures |EncodeValue(I64(l))| == 8
    ensures forall k :: 0 <= k < 8 ==>
      EncodeValue(I64(l))[k] == (if l >= 0 then l else 0x1_0000_0000_0000_0000 + l) / Bound(k) % 256
  {
    FourBytes(if i >= 0 then i else 0x1_0000_0000 + i);
    forall k | 0 <= k < 8
      ensures EncodeValue(I64(l))[k] == (if l >= 0 then l else 0x1_0000_0000_0000_0000 + l) / Bound(k) % 256
    {
      LittleEndian(if l >= 0 then l else 0x1_0000_0000_0000_0000 + l, 8, k);
    }
  }

  /** The element of a field: tag, key, zero byte, then the value. */
  lemma Elements(key: Bytes, b: bool, i: Int32, l: Int64, w: Word64, s: Bytes, id: Oid)
    ensures EncodeElement(key, Null) == [0x0A] + key + [0]
    ensures EncodeElement(key, Bool(b)) == [0x08] + key + [0, if b then 1 else 0]
    ensures EncodeElement(key, I32(i)) == [0x10] + key + [0] + EncodeValue(I32(i))
    ensures EncodeElement(key, I64(l)) == [0x12] + key + [0] + EncodeValue(I64(l))
    ensures EncodeElement(key, Float(w)) == [0x01] + key + [0] + LE(w, 8)
    ensures EncodeElement(key, ObjectId(id)) == [0x07] + key + [0] + id
    ensures |s| < LIMIT - 1 ==> EncodeElement(key, Str(s)) == [0x02] + key + [0] + Word4(|s| + 1) + s + [0]
    ensures |s| < LIMIT ==> EncodeElement(key, Binary(s)) == [0x05] + key + [0] + Word4(|s|) + [0] + s
  {
    hide LE, EncodeElement;
    Regrouped(key, Null);
    Regrouped(key, Bool(b));
    Regrouped(key, I32(i));
    Regrouped(key, I64(l));
    Regrouped(key, Float(w));
    Regrouped(key, ObjectId(id));
    NoValue([0x0A] + key + [0]);
    OneByte([0x08] + key, if b then 1 else 0);
    SizedElements(key, s);
  }

  lemma Regrouped(key: Bytes, v: Value)
    ensures EncodeElement(key, v) == [Tag(v)] + key + [0] + EncodeValue(v)
  {
    hide EncodeValue, Tag;
  }

  lemma NoValue(s: Bytes)
    ensures s + [] == s
  {
  }

  lemma OneByte(s: Bytes, b: byte)
    ensures s + [0] + [b] == s + [0, b]
  {
  }

  lemma SizedElements(key: Bytes, s: Bytes)
    ensures |s| < LIMIT - 1 ==> EncodeElement(key, Str(s)) == [0x02] + key + [0] + Word4(|s| + 1) + s + [0]
    ensures |s| < LIMIT ==> EncodeElement(key, Binary(s)) == [0x05] + key + [0] + Word4(|s|) + [0] + s
  {
    hide LE, EncodeElement, Word4;
    Regrouped(key, Str(s));
    Regrouped(key, Binary(s));
    if |s| < LIMIT - 1 {
      FourBytes(|s| + 1);
      Inline([0x02] + key + [0], Word4(|s| + 1), s, [0]);
    }
    if |s| < LIMIT {
      FourBytes(|s|);
      Inline([0x05] + key + [0], Word4(|s|), [0], s);
    }
  }

  lemma Inline(a: Bytes, b: Bytes, c: Bytes, d: Bytes)
    ensures a + (b + c + d) == a + b + c + d
  {
  }

  /** A document of one field is framed by its own length and a zero byte; nested documents and
      arrays are framed the same way behind their tags, arrays as documents with the decimal
      indices as keys. */
  lemma Framing(key: Bytes, v: Value, fields: seq<Field>, items: seq<Value>)
    requires |EncodeDocument([Field(key, v)])| < LIMIT
    ensures var d := EncodeDocument([Field(key, v)]); d == Word4(|d|) + EncodeElement(key, v) + [0]
    ensures EncodeElement(key, Doc(fields)) == [0x03] + key + [0] + EncodeDocument(fields)
    ensures EncodeElement(key, Array(items)) == [0x04] + key + [0] + EncodeDocument(ItemFields(items, 0))
  {
    hide LE, EncodeElement;
    var one := [Field(key, v)];
    assert one[1..] == [];
    assert EncodeFields(one) == EncodeElement(key, v) + EncodeFields([]);
    assert EncodeFields(one) == EncodeElement(key, v);
    FourBytes(|EncodeDocument(one)|);
    Nested(key, fields, items);
  }

  // ---- reading bytes of any origin

  /** The size a document declares for itself is read and not looked at. */
  lemma HeaderIgnored(a: Bytes, b: Bytes, rest: Bytes)
    requires |a| == |b| == 4
    ensures DecodeDocument(a + rest) == DecodeDocument(b + rest)
  {
    hide DecodeElements;
    SameBehind(a + rest, b + rest, 4, []);
  }

  /** From a position on only the bytes from there matter. */
  lemma {:induction false} SameBehind(x: Bytes, y: Bytes, pos: nat, acc: seq<Field>)
    requires 0 < pos <= |x| == |y| && x[pos..] == y[pos..]
    ensures DecodeElements(x, pos, acc) == DecodeElements(y, pos, acc)
    decreases |x| - pos
  {
    hide DecodeValue, ReadCString;
    if pos < |x| {
      assert x[pos] == x[pos..][0] && y[pos] == y[pos..][0];
      SameText(x, y, pos + 1);
      var key := ReadCString(x, pos + 1);
      if x[pos] != 0 && key.Ok? {
        SameTail(x, y, pos, key.pos);
        SameValue(x[pos], x, y, key.pos);
        var v := DecodeValue(x[pos], x, key.pos);
        if v.Ok? {
          SameTail(x, y, pos, v.pos);
          SameBehind(x, y, v.pos, SetField(acc, key.value, v.value));
        }
      }
    }
  }

  lemma SameTail(x: Bytes, y: Bytes, a: nat, b: nat)
    requires a <= b <= |x| == |y| && x[a..] == y[a..]
    ensures x[b..] == y[b..]
  {
    assert x[b..] == x[a..][b - a..] && y[b..] == y[a..][b - a..];
  }

  lemma SamePart(x: Bytes, y: Bytes, a: nat, b: nat, c: nat)
    requires a <= b <= c <= |x| == |y| && x[a..] == y[a..]
    ensures x[b..c] == y[b..c]
  {
    forall i | b <= i < c ensures x[i] == y[i] {
      assert x[i] == x[a..][i - a] && y[i] == y[a..][i - a];
    }
  }

  lemma {:induction false} SameText(x: Bytes, y: Bytes, pos: nat)
    requires |x| == |y| && (pos <= |x| ==> x[pos..] == y[pos..])
    ensures ReadCString(x, pos) == ReadCString(y, pos)
    decreases |x| - pos
  {
    if pos < |x| {
      assert x[pos] == x[pos..][0] && y[pos] == y[pos..][0];
      SameTail(x, y, pos, pos + 1);
      SameText(x, y, pos + 1);
    }
  }

  lemma SameWords(x: Bytes, y: Bytes, pos: nat)
    requires pos <= |x| == |y| && x[pos..] == y[pos..]
    ensures ReadInt32(x, pos) == ReadInt32(y, pos) && ReadInt64(x, pos) == ReadInt64(y, pos) && ReadWord64(x, pos) == ReadWord64(y, pos)
  {
    if pos + 4 <= |x| {
      SamePart(x, y, pos, pos, pos + 4);
    }
    if pos + 8 <= |x| {
      SamePart(x, y, pos, pos, pos + 8);
    }
  }

  lemma SameValue(tag: byte, x: Bytes, y: Bytes, pos: nat)
    requires 0 < pos <= |x| == |y| && x[pos..] == y[pos..]
    ensures DecodeValue(tag, x, pos) == DecodeValue(tag, y, pos)
  {
    hide ReadInt32, ReadInt64, ReadWord64, DecodeEmbedded, ReadString, ReadBinary;
    SameWords(x, y, pos);
    SameSized(x, y, pos);
    if pos < |x| {
      assert x[pos] == x[pos..][0] && y[pos] == y[pos..][0];
    }
    if pos + 12 <= |x| {
      SamePart(x, y, pos, pos, pos + 12);
    }
  }

  lemma SameSized(x: Bytes, y: Bytes, pos: nat)
    requires 0 < pos <= |x| == |y| && x[pos..] == y[pos..]
    ensures ReadString(x, pos) == ReadString(y, pos) && ReadBinary(x, pos) == ReadBinary(y, pos)
    ensures forall isArray :: DecodeEmbedded(x, pos, isArray) == DecodeEmbedded(y, pos, isArray)
  {
    hide ReadString, ReadBinary, Embedded, DecodeDocument;
    SameString(x, y, pos);
    SameBinary(x, y, pos);
    SameEmbedded(x, y, pos);
  }

  lemma SameString(x: Bytes, y: Bytes, pos: nat)
    requires pos <= |x| == |y| && x[pos..] == y[pos..]
    ensures ReadString(x, pos) == ReadString(y, pos)
  {
    hide ReadInt32;
    SameWords(x, y, pos);
    Behind4(x, pos);
    var size := ReadInt32(x, pos);
    if size.Ok? {
      var n := Shortened(size.value);
      if n >= 0 && pos + 4 + n <= |x| {
        SamePart(x, y, pos, pos + 4, pos + 4 + n);
      }
    }
  }

  lemma SameBinary(x: Bytes, y: Bytes, pos: nat)
    requires pos <= |x| == |y| && x[pos..] == y[pos..]
    ensures ReadBinary(x, pos) == ReadBinary(y, pos)
  {
    hide ReadInt32;
    SameWords(x, y, pos);
    Behind4(x, pos);
    var size := ReadInt32(x, pos);
    if size.Ok? {
      var q := Min(pos + 5, |x|);
      if size.value >= 0 && q + size.value <= |x| {
        SamePart(x, y, pos, q, q + size.value);
      }
    }
  }

  lemma Behind4(x: Bytes, pos: nat)
    ensures ReadInt32(x, pos).Ok? ==> ReadInt32(x, pos).pos == pos + 4 <= |x|
  {
  }

  lemma SameEmbedded(x: Bytes, y: Bytes, pos: nat)
    requires pos <= |x| == |y| && x[pos..] == y[pos..]
    ensures Embedded(x, pos) == Embedded(y, pos)
  {
    hide ReadInt32;
    SameWords(x, y, pos);
    var size := match ReadInt32(x, pos) case Ok(n, _) => n case _ => 0;
    if 0 <= size && pos + size <= |x| {
      SamePart(x, y, pos, pos, pos + size);
    }
  }

  /** The number that `width` little-endian bytes stand for. */
  ghost function Weight(s: Bytes, n: nat): nat
    requires n <= |s|
  {
    if n == 0 then 0 else Weight(s, n - 1) + s[n - 1] * Bound(n - 1)
  }

  lemma {:induction false} FromLEIsWeight(s: Bytes)
    ensures FromLE(s) == Weight(s, |s|)
  {
    if s != [] {
      FromLEIsWeight(s[1..]);
      WeightShift(s, |s|);
      assert s[1..][..|s| - 1] == s[1..];
    }
  }

  lemma {:induction false} WeightShift(s: Bytes, n: nat)
    requires 0 < n <= |s|
    ensures Weight(s, n) == s[0] + 256 * Weight(s[1..], n - 1)
  {
    if n > 1 {
      WeightShift(s, n - 1);
      assert s[1..][n - 2] == s[n - 1];
      Move(s[n - 1], Bound(n - 2));
    } else {
      assert Weight(s, 0) == 0 && Weight(s[1..], 0) == 0 && Bound(0) == 1;
    }
  }

  lemma Move(d: nat, b: nat)
    ensures d * (256 * b) == 256 * (d * b)
  {
  }

  /** Two's complement at half of `bound`. */
  ghost function Complement(n: nat, bound: nat): int { if 2 * n < bound then n else n - bound }

  /** How bytes that need not come from the encoder are read as a value of fixed size: any byte but
      zero is true, eight bytes of tag 0x11 are an int64 too, and what is not a tag of the format
      is an error. */
  lemma ReadsAnyBytes(tag: byte, data: Bytes, pos: nat)
    requires 0 < pos <= |data|
    ensures tag == 0x08 ==> DecodeValue(tag, data, pos) == if pos < |data| then Ok(Bool(data[pos] > 0), pos + 1) else Err
    ensures tag == 0x10 ==>
      DecodeValue(tag, data, pos) == if pos + 4 <= |data| then Ok(I32(Word32(data, pos)), pos + 4) else Err
    ensures tag == 0x11 || tag == 0x12 ==>
      DecodeValue(tag, data, pos) == if pos + 8 <= |data| then Ok(I64(LongWord(data, pos)), pos + 8) else Err
    ensures tag !in {0x01, 0x02, 0x03, 0x04, 0x05, 0x07, 0x08, 0x0A, 0x10, 0x11, 0x12} ==> DecodeValue(tag, data, pos) == Err
  {
    hide FromLE;
    if pos + 4 <= |data| {
      FromLEIsWeight(data[pos..pos + 4]);
    }
    if pos + 8 <= |data| {
      FromLEIsWeight(data[pos..pos + 8]);
    }
  }

  ghost function Word32(data: Bytes, pos: nat): Int32
    requires pos + 4 <= |data|
  {
    var s := data[pos..pos + 4];
    FromLEIsWeight(s);
    FromLEBound(s);
    Bounds();
    Complement(Weight(s, 4), 0x1_0000_0000)
  }

  ghost function LongWord(data: Bytes, pos: nat): Int64
    requires pos + 8 <= |data|
  {
    var s := data[pos..pos + 8];
    FromLEIsWeight(s);
    FromLEBound(s);
    Bounds();
    Complement(Weight(s, 8), 0x1_0000_0000_0000_0000)
  }

  lemma Nested(key: Bytes, fields: seq<Field>, items: seq<Value>)
    ensures EncodeElement(key, Doc(fields)) == [0x03] + key + [0] + EncodeDocument(fields)
    ensures EncodeElement(key, Array(items)) == [0x04] + key + [0] + EncodeDocument(ItemFields(items, 0))
  {
    hide LE;
    ItemsAreFields(items, 0);
  }

  lemma {:induction false} ItemsAreFields(items: seq<Value>, from: nat)
    ensures EncodeItems(items, from) == EncodeFields(ItemFields(items, from))
  {
    hide EncodeElement;
    if items != [] {
      ItemsAreFields(items[1..], from + 1);
      assert ItemFields(items, from)[1..] == ItemFields(items[1..], from + 1);
    }
  }
}
