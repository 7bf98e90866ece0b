/** The encoder and decoder objects of pkg/document/bson.go: a growing buffer whose size
    header is patched at the end, and a reader that advances through its bytes. */
module BsonCodec {
  import opened Options
  import opened Document
  import F = BsonFormat
  import WordBits

  class Encoder {
    var buf: Bytes

    constructor ()
      ensures buf == []
    {
      buf := [];
    }

    /** Overwrites the four reserved bytes, and no others: they then read as the final length,
        which for a length beyond 32 bits is what is left of it. */
    method PatchSize(sizePos: nat)
      requires sizePos + 4 <= |buf|
      modifies this
      ensures |buf| == |old(buf)| && buf[..sizePos] == old(buf)[..sizePos] && buf[sizePos + 4..] == old(buf)[sizePos + 4..]
      ensures F.FromLE(buf[sizePos..sizePos + 4]) == |buf| % 0x1_0000_0000
      ensures |buf| < 0x8000_0000 ==> F.ReadInt32(buf, sizePos) == F.Ok(|buf|, sizePos + 4)
    {
      ghost var n := |buf|;
      buf := buf[..sizePos] + F.LE(|buf|, 4) + buf[sizePos + 4..];
      assert buf[sizePos..sizePos + 4] == F.LE(n, 4);
      FromLEOfLE(n, 4);
      F.Bounds();
    }

    method Encode(doc: seq<Field>) returns (data: Bytes)
      modifies this
      ensures data == buf == F.EncodeDocument(doc)
      decreases doc, 1
    {
      buf := [];
      var sizePos := |buf|;
      buf := buf + [0, 0, 0, 0];
      for i := 0 to |doc|
        invariant buf + F.EncodeFields(doc[i..]) == [0, 0, 0, 0] + F.EncodeFields(doc)
      {
        ghost var before, rest := buf, F.EncodeFields(doc[i + 1..]);
        assert doc[i..][1..] == doc[i + 1..];
        EncodeElement(doc[i].key, doc[i].val);
        Assoc(before, F.EncodeElement(doc[i].key, doc[i].val), rest);
      }
      assert buf == [0, 0, 0, 0] + F.EncodeFields(doc);
      buf := buf + [0];
      ghost var before := buf;
      PatchSize(sizePos);
      PatchedIs(before, buf);
      data := buf;
    }

    method EncodeItems(items: seq<Value>) returns (data: Bytes)
      modifies this
      ensures data == buf == F.Sized(F.EncodeItems(items, 0))
      decreases items, 1
    {
      buf := [];
      var sizePos := |buf|;
      buf := buf + [0, 0, 0, 0];
      for i := 0 to |items|
        invariant buf + F.EncodeItems(items[i..], i) == [0, 0, 0, 0] + F.EncodeItems(items, 0)
      {
        ghost var before, rest := buf, F.EncodeItems(items[i + 1..], i + 1);
        assert items[i..][1..] == items[i + 1..];
        EncodeElement(F.Decimal(i), items[i]);
        Assoc(before, F.EncodeElement(F.Decimal(i), items[i]), rest);
      }
      assert buf == [0, 0, 0, 0] + F.EncodeItems(items, 0);
      buf := buf + [0];
      ghost var before := buf;
      PatchSize(sizePos);
      PatchedIs(before, buf);
      data := buf;
    }

    method EncodeElement(key: Bytes, value: Value)
      modifies this
      ensures buf == old(buf) + F.EncodeElement(key, value)
      decreases value, 1
    {
      buf := buf + [F.Tag(value)];
      buf := buf + key;
      buf := buf + [0];
      ghost var head := buf;
      WriteValue(value);
      assert head == old(buf) + ([F.Tag(value)] + (key + [0]));
    }

    method WriteValue(value: Value)
      modifies this
      ensures buf == old(buf) + F.EncodeValue(value)
      decreases value, 0
    {
      match value
      case Null =>
      case Bool(b) => buf := buf + [if b then 1 else 0];
      case I32(i) => buf := buf + F.LE(F.ToWord(i, 0x1_0000_0000), 4);
      case I64(l) => buf := buf + F.LE(F.ToWord(l, 0x1_0000_0000_0000_0000), 8);
      case Float(bits) => buf := buf + F.LE(bits, 8);
      case Str(s) =>
        buf := buf + F.LE(|s| + 1, 4);
        buf := buf + s;
        buf := buf + [0];
      case Binary(data) =>
        buf := buf + F.LE(|data|, 4);
        buf := buf + [0];
        buf := buf + data;
      case ObjectId(id) => buf := buf + id;
      case Array(items) =>
        var sub := new Encoder();
        var data := sub.EncodeItems(items);
        buf := buf + data;
      case Doc(fields) =>
        var sub := new Encoder();
        var data := sub.Encode(fields);
        buf := buf + data;
    }
  }

  lemma ModStep(n: nat, m: nat)
    requires m > 0
    ensures n % (256 * m) == n % 256 + 256 * (n / 256 % m)
  {
    var q, r := n / 256 / m, n / 256 % m;
    assert n == 256 * (q * m + r) + n % 256;
    assert n == q * (256 * m) + (256 * r + n % 256) by {
      assert 256 * (q * m) == q * (256 * m);
    }
    WordBits.ModUnique(n, 256 * m, q, 256 * r + n % 256);
  }

  /** Four bytes hold a length up to multiples of 2^32. */
  lemma {:induction false} FromLEOfLE(n: nat, width: nat)
    ensures F.Bound(width) > 0 && F.FromLE(F.LE(n, width)) == n % F.Bound(width)
  {
    if width > 0 {
      FromLEOfLE(n / 256, width - 1);
      ModStep(n, F.Bound(width - 1));
    }
  }

  /** Bytes of one length with the same reading are the same. */
  lemma {:induction false} SameReading(s: Bytes, t: Bytes)
    requires |s| == |t| && F.FromLE(s) == F.FromLE(t)
    ensures s == t
  {
    if s != [] {
      assert F.FromLE(s) % 256 == s[0] && F.FromLE(t) % 256 == t[0];
      SameReading(s[1..], t[1..]);
      assert s == [s[0]] + s[1..] && t == [t[0]] + t[1..];
    }
  }

  /** A patched buffer is the sized form of what stood behind its header. */
  lemma PatchedIs(before: Bytes, after: Bytes)
    requires 4 <= |before| == |after| && before[4..] == after[4..] && F.FromLE(after[0..4]) == |after| % 0x1_0000_0000
    ensures after == F.LE(|before|, 4) + before[4..]
  {
    FromLEOfLE(|after|, 4);
    F.Bounds();
    SameReading(after[0..4], F.LE(|after|, 4));
    assert after == after[0..4] + after[4..];
  }

  lemma Assoc(a: Bytes, b: Bytes, c: Bytes)
    ensures a + b + c == a + (b + c)
  {
  }

  class Decoder {
    const data: Bytes
    var pos: nat

    constructor (data: Bytes)
      ensures this.data == data && pos == 0
    {
      this.data, pos := data, 0;
    }

    method ReadByte() returns (r: Option<byte>)
      requires pos <= |data|
      modifies this
      ensures if old(pos) < |data| then r == Some(data[old(pos)]) && pos == old(pos) + 1 else r == None && pos == old(pos)
    {
      if pos == |data| {
        return None;
      }
      r, pos := Some(data[pos]), pos + 1;
    }

    method ReadCString() returns (r: Option<Bytes>)
      requires pos <= |data|
      modifies this
      ensures pos <= |data|
      ensures match F.ReadCString(data, old(pos))
        case Ok(s, p) => r == Some(s) && pos == p
        case _ => r == None
    {
      var s: Bytes := [];
      ghost var start := pos;
      assert F.ReadCString(data, start) == Prepend([], F.ReadCString(data, start)) by {
        PrependNone(F.ReadCString(data, start));
      }
      while true
        invariant start <= pos <= |data|
        invariant F.ReadCString(data, start) == Prepend(s, F.ReadCString(data, pos))
        decreases |data| - pos
      {
        var b := ReadByte();
        if b.None? {
          return None;
        }
        if b.value == 0 {
          assert s + [] == s;
          return Some(s);
        }
        PrependMore(s, b.value, F.ReadCString(data, pos));
        s := s + [b.value];
      }
    }

    /** Fills a buffer of `n` bytes or fails; a failed read leaves nothing to read. */
    method ReadFull(n: nat) returns (r: Option<Bytes>)
      requires pos <= |data|
      modifies this
      ensures if old(pos) + n <= |data| then r == Some(data[old(pos)..old(pos) + n]) && pos == old(pos) + n
              else r == None && pos == |data|
    {
      if pos + n > |data| {
        pos := |data|;
        return None;
      }
      r, pos := Some(data[pos..pos + n]), pos + n;
    }

    method ReadInt32() returns (r: Option<Int32>)
      requires pos <= |data|
      modifies this
      ensures pos <= |data|
      ensures match F.ReadInt32(data, old(pos)) case Ok(i, p) => r == Some(i) && pos == p case _ => r == None
    {
      var bytes := ReadFull(4);
      if bytes.None? {
        return None;
      }
      F.FromLEBound(bytes.value);
      F.Bounds();
      return Some(F.Signed32(F.FromLE(bytes.value)));
    }

    method ReadWord64() returns (r: Option<Word64>)
      requires pos <= |data|
      modifies this
      ensures pos <= |data|
      ensures match F.ReadWord64(data, old(pos)) case Ok(w, p) => r == Some(w) && pos == p case _ => r == None
    {
      var bytes := ReadFull(8);
      if bytes.None? {
        return None;
      }
      F.FromLEBound(bytes.value);
      F.Bounds();
      return Some(F.FromLE(bytes.value));
    }

    method ReadString() returns (r: F.Parsed<Value>)
      requires pos <= |data|
      modifies this
      ensures r == F.ReadString(data, old(pos)) && pos <= |data| && (r.Ok? ==> pos == r.pos)
    {
      var length := ReadInt32();
      if length.None? {
        return F.Err;
      }
      var n := F.Shortened(length.value);
      if n < 0 {
        return F.Panic;
      }
      var bytes := ReadFull(n);
      if bytes.None? {
        return F.Err;
      }
      var terminator := ReadByte();
      return F.Ok(Str(bytes.value), pos);
    }

    method ReadBinary() returns (r: F.Parsed<Value>)
      requires pos <= |data|
      modifies this
      ensures r == F.ReadBinary(data, old(pos)) && pos <= |data| && (r.Ok? ==> pos == r.pos)
    {
      var length := ReadInt32();
      if length.None? {
        return F.Err;
      }
      var subtype := ReadByte();
      if length.value < 0 {
        return F.Panic;
      }
      var bytes := ReadFull(length.value);
      if bytes.None? {
        return F.Err;
      }
      return F.Ok(Binary(bytes.value), pos);
    }

    method Decode() returns (r: F.Parsed<seq<Field>>)
      requires pos == 0
      modifies this
      ensures r == F.DecodeDocument(data)
      ensures r.Ok? ==> pos == r.pos
      decreases |data|, |data| + 1, 0
    {
      var doc := new DocumentObject();
      var size := ReadInt32();
      if size.None? {
        return F.Err;
      }
      while true
        invariant doc.Valid() && fresh(doc) && 0 < pos <= |data|
        invariant F.DecodeDocument(data) == F.DecodeElements(data, pos, doc.View())
        decreases |data| - pos
      {
        ghost var here, fields := pos, doc.View();
        var typeByte := ReadByte();
        if typeByte.None? {
          return F.Err;
        }
        if typeByte.value == 0 {
          break;
        }
        var key := ReadCString();
        if key.None? {
          return F.Err;
        }
        var value := DecodeValue(typeByte.value);
        if !value.Ok? {
          return if value.Err? then F.Err else F.Panic;
        }
        doc.Set(key.value, value.value);
      }
      var fields := doc.Fields();
      return F.Ok(fields, pos);
    }

    method DecodeValue(tag: byte) returns (r: F.Parsed<Value>)
      requires 0 < pos <= |data|
      modifies this
      ensures r == F.DecodeValue(tag, data, old(pos)) && pos <= |data| && (r.Ok? ==> pos == r.pos)
      decreases |data|, |data| - pos, 1
    {
      if tag == 0x03 || tag == 0x04 {
        r := DecodeEmbedded(tag == 0x04);
      } else if tag == 0x02 {
        r := ReadString();
      } else if tag == 0x05 {
        r := ReadBinary();
      } else {
        r := DecodeFixed(tag);
      }
    }

    /** The types of fixed width; a timestamp becomes a plain 64-bit integer. */
    method DecodeFixed(tag: byte) returns (r: F.Parsed<Value>)
      requires 0 < pos <= |data| && tag !in [0x02, 0x03, 0x04, 0x05]
      modifies this
      ensures r == F.DecodeValue(tag, data, old(pos)) && pos <= |data| && (r.Ok? ==> pos == r.pos)
    {
      match tag
      case 0x0A => return F.Ok(Null, pos);
      case 0x08 =>
        var b := ReadByte();
        return if b.None? then F.Err else F.Ok(Bool(b.value != 0), pos);
      case 0x10 =>
        var i := ReadInt32();
        return if i.None? then F.Err else F.Ok(I32(i.value), pos);
      case 0x01 =>
        var w := ReadWord64();
        return if w.None? then F.Err else F.Ok(Float(w.value), pos);
      case 0x07 =>
        var id := ReadFull(12);
        return if id.None? then F.Err else F.Ok(ObjectId(id.value), pos);
      case _ =>
        if tag != 0x12 && tag != 0x11 {
          return F.Err;
        }
        var w := ReadWord64();
        return if w.None? then F.Err else F.Ok(I64(F.Signed64(w.value)), pos);
    }

    /** Cuts out the embedded document its header announces and decodes it on its own. */
    method DecodeEmbedded(isArray: bool) returns (r: F.Parsed<Value>)
      requires 0 < pos <= |data|
      modifies this
      ensures r == F.DecodeEmbedded(data, old(pos), isArray) && pos <= |data| && (r.Ok? ==> pos == r.pos)
      decreases |data|, |data| - pos, 0
    {
      var currentPos := pos;
      var header := ReadInt32();
      pos := currentPos;
      var size: int := if header.None? then 0 else header.value;
      if size < 0 {
        return F.Panic;
      }
      var bytes := ReadFull(size);
      if bytes.None? {
        return F.Err;
      }
      var sub := new Decoder(bytes.value);
      var inner := sub.Decode();
      if !inner.Ok? {
        return if inner.Err? then F.Err else F.Panic;
      }
      var v := if isArray then Array(F.ToItems(inner.value, |inner.value|)) else Doc(inner.value);
      return F.Ok(v, pos);
    }
  }

  ghost function Prepend(s: Bytes, r: F.Parsed<Bytes>): F.Parsed<Bytes> {
    if r.Ok? then F.Ok(s + r.value, r.pos) else r
  }

  lemma PrependNone(r: F.Parsed<Bytes>)
    ensures Prepend([], r) == r
  {
    if r.Ok? {
      assert [] + r.value == r.value;
    }
  }

  lemma PrependMore(s: Bytes, b: byte, r: F.Parsed<Bytes>)
    ensures r.Ok? ==> s + ([b] + r.value) == (s + [b]) + r.value
  {
  }
}
