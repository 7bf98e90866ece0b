/** The byte format of pkg/document/bson.go, which follows the productions `document`,
    `e_list`, `element`, `cstring`, `string` and `binary` of the BSON specification 1.1. */
module BsonFormat {
  import opened Options
  import opened Document

  // ---- little-endian integers

  function LE(n: nat, width: nat): (r: Bytes)
    ensures |r| == width
  {
    if width == 0 then [] else [n % 256] + LE(n / 256, width - 1)
  }

  function FromLE(s: Bytes): nat {
    if s == [] then 0 else s[0] + 256 * FromLE(s[1..])
  }

  function Bound(width: nat): (b: nat)
    ensures b > 0
  {
    if width == 0 then 1 else 256 * Bound(width - 1)
  }

  lemma {:induction false} LERoundTrip(n: nat, width: nat)
    requires n < Bound(width)
    ensures FromLE(LE(n, width)) == n
  {
    if width > 0 {
      LERoundTrip(n / 256, width - 1);
    }
  }

  lemma Bounds()
    ensures Bound(4) == 0x1_0000_0000 && Bound(8) == 0x1_0000_0000_0000_0000
  {
    assert Bound(3) == 0x100_0000 && Bound(4) == 256 * Bound(3);
    assert Bound(5) == 256 * Bound(4) && Bound(6) == 256 * Bound(5) && Bound(7) == 256 * Bound(6);
  }

  lemma {:induction false} FromLEBound(s: Bytes)
    ensures FromLE(s) < Bound(|s|)
  {
    if s != [] {
      FromLEBound(s[1..]);
    }
  }

  /** Two's complement. */
  function ToWord(i: int, bound: int): nat
    requires -bound <= i < bound
  {
    if i < 0 then i + bound else i
  }

  function Signed32(n: nat): Int32
    requires n < 0x1_0000_0000
  {
    if n < 0x8000_0000 then n else n - 0x1_0000_0000
  }

  function Signed64(n: nat): Int64
    requires n < 0x1_0000_0000_0000_0000
  {
    if n < 0x8000_0000_0000_0000 then n else n - 0x1_0000_0000_0000_0000
  }

  // ---- encoding

  function Tag(v: Value): byte {
    match v
    case Float(_) => 0x01
    case Str(_) => 0x02
    case Doc(_) => 0x03
    case Array(_) => 0x04
    case Binary(_) => 0x05
    case ObjectId(_) => 0x07
    case Bool(_) => 0x08
    case Null => 0x0A
    case I32(_) => 0x10
    case I64(_) => 0x12
  }

  /** The decimal digits an array index is spelled with. */
  function Decimal(n: nat): Bytes {
    if n < 10 then [48 + n] else Decimal(n / 10) + [48 + n % 10]
  }

  function EncodeValue(v: Value): Bytes
    decreases v, 0
  {
    match v
    case Null => []
    case Bool(b) => [if b then 1 else 0]
    case I32(i) => LE(ToWord(i, 0x1_0000_0000), 4)
    case I64(l) => LE(ToWord(l, 0x1_0000_0000_0000_0000), 8)
    case Float(bits) => LE(bits, 8)
    case Str(s) => LE(|s| + 1, 4) + s + [0]
    case Binary(data) => LE(|data|, 4) + [0] + data
    case ObjectId(id) => id
    case Array(items) => Sized(EncodeItems(items, 0))
    case Doc(fields) => Sized(EncodeFields(fields))
  }

  function EncodeElement(key: Bytes, v: Value): Bytes
    decreases v, 1
  {
    [Tag(v)] + (key + [0] + EncodeValue(v))
  }

  function EncodeFields(fields: seq<Field>): Bytes {
    if fields == [] then [] else EncodeElement(fields[0].key, fields[0].val) + EncodeFields(fields[1..])
  }

  /** An array is a document whose keys are the decimal indices. */
  function EncodeItems(items: seq<Value>, from: nat): Bytes {
    if items == [] then [] else EncodeElement(Decimal(from), items[0]) + EncodeItems(items[1..], from + 1)
  }

  /** Element bytes between their size header, which counts itself, and the terminator. */
  function Sized(elements: Bytes): Bytes {
    LE(|elements| + 5, 4) + elements + [0]
  }

  function EncodeDocument(fields: seq<Field>): Bytes {
    Sized(EncodeFields(fields))
  }

  // ---- decoding

  /** A panic is Go's reaction to a negative slice length. */
  datatype Parsed<T> = Ok(value: T, pos: nat) | Err | Panic

  function ReadWord(data: Bytes, pos: nat, width: nat): Parsed<nat> {
    if pos + width <= |data| then Ok(FromLE(data[pos..pos + width]), pos + width) else Err
  }

  function ReadInt32(data: Bytes, pos: nat): Parsed<Int32> {
    match ReadWord(data, pos, 4)
    case Ok(n, p) => FromLEBound(data[pos..pos + 4]); Bounds(); Ok(Signed32(n), p)
    case _ => Err
  }

  function ReadInt64(data: Bytes, pos: nat): Parsed<Int64> {
    match ReadWord(data, pos, 8)
    case Ok(n, p) => FromLEBound(data[pos..pos + 8]); Bounds(); Ok(Signed64(n), p)
    case _ => Err
  }

  function ReadWord64(data: Bytes, pos: nat): Parsed<Word64> {
    match ReadWord(data, pos, 8)
    case Ok(n, p) => FromLEBound(data[pos..pos + 8]); Bounds(); Ok(n, p)
    case _ => Err
  }

  function ReadCString(data: Bytes, pos: nat): (r: Parsed<Bytes>)
    ensures r.Ok? ==> pos < r.pos <= |data| && 0 !in r.value
    decreases |data| - pos
  {
    if pos >= |data| then Err
    else if data[pos] == 0 then Ok([], pos + 1)
    else match ReadCString(data, pos + 1)
      case Ok(s, p) => Ok([data[pos]] + s, p)
      case _ => Err
  }

  function Min(a: nat, b: nat): nat { if a < b then a else b }

  /** The length of a string without its terminator, in 32-bit arithmetic. */
  function Shortened(length: Int32): Int32 {
    if length == -0x8000_0000 then 0x7FFF_FFFF else length - 1
  }

  /** A length-prefixed string; a missing terminator goes unnoticed. */
  function ReadString(data: Bytes, pos: nat): (r: Parsed<Value>)
    ensures r.Ok? ==> pos <= r.pos <= |data|
  {
    match ReadInt32(data, pos)
    case Ok(length, p) =>
      var n := Shortened(length);
      if n < 0 then Panic
      else if p + n > |data| then Err
      else Ok(Str(data[p..p + n]), Min(p + n + 1, |data|))
    case _ => Err
  }

  /** Length, subtype and data; a missing subtype goes unnoticed. */
  function ReadBinary(data: Bytes, pos: nat): (r: Parsed<Value>)
    ensures r.Ok? ==> pos <= r.pos <= |data|
  {
    match ReadInt32(data, pos)
    case Ok(length, p) =>
      var q := Min(p + 1, |data|);
      if length < 0 then Panic
      else if q + length > |data| then Err
      else Ok(Binary(data[q..q + length]), q + length)
    case _ => Err
  }

  /** The bytes of an embedded document: as many as its header says; a header that cannot
      be read counts as zero. */
  function Embedded(data: Bytes, pos: nat): (r: Parsed<Bytes>)
    ensures r.Ok? ==> pos <= r.pos <= |data| && |r.value| == r.pos - pos
  {
    var size: int := match ReadInt32(data, pos) case Ok(n, _) => n case _ => 0;
    if size < 0 then Panic
    else if pos + size > |data| then Err
    else Ok(data[pos..pos + size], pos + size)
  }

  function FieldAt(fields: seq<Field>, i: nat): Value {
    match GetField(fields, Decimal(i)) case Some(v) => v case None => Null
  }

  function ToItems(fields: seq<Field>, n: nat): seq<Value> {
    if n == 0 then [] else ToItems(fields, n - 1) + [FieldAt(fields, n - 1)]
  }

  function DecodeDocument(data: Bytes): (r: Parsed<seq<Field>>)
    ensures r.Ok? ==> r.pos <= |data|
    decreases |data|, |data| + 1, 0
  {
    match ReadInt32(data, 0)
    case Ok(_, p) => DecodeElements(data, p, [])
    case _ => Err
  }

  function DecodeElements(data: Bytes, pos: nat, fields: seq<Field>): (r: Parsed<seq<Field>>)
    requires 0 < pos <= |data|
    ensures r.Ok? ==> pos < r.pos <= |data|
    decreases |data|, |data| - pos, 2
  {
    if pos == |data| then Err
    else if data[pos] == 0 then Ok(fields, pos + 1)
    else match ReadCString(data, pos + 1)
      case Ok(key, p) =>
        (match DecodeValue(data[pos], data, p)
         case Ok(v, q) => DecodeElements(data, q, SetField(fields, key, v))
         case Err => Err
         case Panic => Panic)
      case _ => Err
  }

  function DecodeValue(tag: byte, data: Bytes, pos: nat): (r: Parsed<Value>)
    requires 0 < pos <= |data|
    ensures r.Ok? ==> pos <= r.pos <= |data|
    decreases |data|, |data| - pos, 1
  {
    match tag
    case 0x0A => Ok(Null, pos)
    case 0x08 => if pos < |data| then Ok(Bool(data[pos] != 0), pos + 1) else Err
    case 0x10 => (match ReadInt32(data, pos) case Ok(i, p) => Ok(I32(i), p) case _ => Err)
    case 0x12 => (match ReadInt64(data, pos) case Ok(l, p) => Ok(I64(l), p) case _ => Err)
    case 0x11 => (match ReadInt64(data, pos) case Ok(l, p) => Ok(I64(l), p) case _ => Err)
    case 0x01 => (match ReadWord64(data, pos) case Ok(w, p) => Ok(Float(w), p) case _ => Err)
    case 0x02 => ReadString(data, pos)
    case 0x05 => ReadBinary(data, pos)
    case 0x07 => if pos + 12 <= |data| then Ok(ObjectId(data[pos..pos + 12]), pos + 12) else Err
    case 0x03 => DecodeEmbedded(data, pos, false)
    case 0x04 => DecodeEmbedded(data, pos, true)
    case _ => Err
  }

  function DecodeEmbedded(data: Bytes, pos: nat, isArray: bool): (r: Parsed<Value>)
    requires 0 < pos <= |data|
    ensures r.Ok? ==> pos <= r.pos <= |data|
    decreases |data|, |data| - pos, 0
  {
    match Embedded(data, pos)
    case Ok(bytes, p) =>
      (match DecodeDocument(bytes)
       case Ok(fields, _) => Ok(if isArray then Array(ToItems(fields, |fields|)) else Doc(fields), p)
       case Err => Err
       case Panic => Panic)
    case Err => Err
    case Panic => Panic
  }
}
