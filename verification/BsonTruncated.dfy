/** Input cut short: no proper beginning of an encoded document decodes, although the decoder
    overlooks a missing string terminator or subtype and an unreadable nested header. */
module BsonTruncated {
  import opened Options
  import opened Document
  import opened BsonFormat
  import opened BsonRoundTrip

  /** What stands at a position is cut off by the end of the input after `n` bytes. */
  ghost predicate CutAt(data: Bytes, pos: nat, s: Bytes, n: nat) {
    At(data, pos, s) && pos <= n < pos + |s|
  }

  lemma WithinCut(data: Bytes, pos: nat, s: Bytes, n: nat)
    requires At(data, pos, s) && pos + |s| <= n <= |data|
    ensures At(data[..n], pos, s)
  {
  }

  lemma {:induction false} KeyCut(data: Bytes, pos: nat, key: Bytes, n: nat)
    requires 0 !in key && CutAt(data, pos, key + [0], n)
    ensures ReadCString(data[..n], pos) == Err
    decreases key
  {
    if pos < n {
      assert key != [];
      assert key + [0] == [key[0]] + (key[1..] + [0]);
      AtHead(data, pos, key[0], key[1..] + [0]);
      assert key[0] in key;
      KeyCut(data, pos + 1, key[1..], n);
    }
  }

  /** The header of a cut value, if it is still there, tells its full length. */
  lemma HeaderCut(data: Bytes, pos: nat, length: nat, rest: Bytes, n: nat)
    requires length < LIMIT && CutAt(data, pos, LE(length, 4) + rest, n)
    ensures ReadInt32(data[..n], pos) == if pos + 4 <= n then Ok(length, pos + 4) else Err
  {
    hide LE;
    AtSplit(data, pos, LE(length, 4), rest);
    if pos + 4 <= n {
      WithinCut(data, pos, LE(length, 4), n);
      LengthAt(data[..n], pos, length);
    }
  }

  lemma StringCut(data: Bytes, pos: nat, s: Bytes, n: nat)
    requires |s| + 1 < LIMIT && CutAt(data, pos, LE(|s| + 1, 4) + (s + [0]), n)
    ensures var r := ReadString(data[..n], pos); r == Err || (r.Ok? && r.pos == n)
  {
    hide LE, At;
    HeaderCut(data, pos, |s| + 1, s + [0], n);
    CutBounds(data, pos, LE(|s| + 1, 4) + (s + [0]), n);
  }

  lemma BinaryCut(data: Bytes, pos: nat, b: Bytes, n: nat)
    requires |b| < LIMIT && CutAt(data, pos, LE(|b|, 4) + ([0] + b), n)
    ensures var r := ReadBinary(data[..n], pos); r == Err || (r.Ok? && r.pos == n)
  {
    hide LE, At;
    HeaderCut(data, pos, |b|, [0] + b, n);
    CutBounds(data, pos, LE(|b|, 4) + ([0] + b), n);
  }

  lemma CutBounds(data: Bytes, pos: nat, s: Bytes, n: nat)
    requires CutAt(data, pos, s, n)
    ensures pos <= n < pos + |s| <= |data| && |data[..n]| == n
  {
  }

  /** A nested document needs all the bytes its header announces. */
  lemma NestedCut(data: Bytes, pos: nat, elements: Bytes, n: nat, isArray: bool)
    requires 0 < pos && |Sized(elements)| < LIMIT && CutAt(data, pos, Sized(elements), n)
    ensures DecodeEmbedded(data[..n], pos, isArray) == Err
  {
    hide LE, At;
    var frame := LE(|elements| + 5, 4) + (elements + [0]);
    assert Sized(elements) == frame;
    HeaderCut(data, pos, |elements| + 5, elements + [0], n);
    CutBounds(data, pos, frame, n);
    assert ReadInt32([], 0) == Err;
  }

  lemma ValueCut(v: Value, data: Bytes, pos: nat, n: nat)
    requires 0 < pos && |EncodeValue(v)| < LIMIT && CutAt(data, pos, EncodeValue(v), n)
    ensures var r := DecodeValue(Tag(v), data[..n], pos); r == Err || (r.Ok? && r.pos == n)
  {
    hide At, ReadString, ReadBinary, DecodeEmbedded, Sized, ReadInt32, ReadInt64, ReadWord64;
    CutBounds(data, pos, EncodeValue(v), n);
    match v
    case Str(s) => assert EncodeValue(v) == LE(|s| + 1, 4) + (s + [0]); StringCut(data, pos, s, n);
    case Binary(b) => assert EncodeValue(v) == LE(|b|, 4) + ([0] + b); BinaryCut(data, pos, b, n);
    case Doc(fields) => NestedCut(data, pos, EncodeFields(fields), n, false);
    case Array(items) => NestedCut(data, pos, EncodeItems(items, 0), n, true);
    case I32(_) => WordsCut(data[..n], pos);
    case I64(_) => WordsCut(data[..n], pos);
    case Float(_) => WordsCut(data[..n], pos);
    case _ =>
  }

  lemma WordsCut(data: Bytes, pos: nat)
    ensures pos + 4 > |data| ==> ReadInt32(data, pos) == Err
    ensures pos + 8 > |data| ==> ReadInt64(data, pos) == Err && ReadWord64(data, pos) == Err
  {
  }

  /** An element whose key is cut, or whose value is. */
  lemma ElementCut(key: Bytes, v: Value, rest: Bytes, acc: seq<Field>, data: Bytes, pos: nat, n: nat)
    requires 0 < pos && 0 !in key && At(data, pos, EncodeElement(key, v) + rest) && |EncodeValue(v)| < LIMIT
    requires pos <= n < pos + |EncodeElement(key, v)|
    ensures DecodeElements(data[..n], pos, acc) == Err
  {
    hide At, DecodeValue, EncodeValue, ReadCString, Tag;
    ElementAt(key, v, rest, data, pos);
    if pos < n {
      AtSplit(data, pos, EncodeElement(key, v), rest);
      assert EncodeElement(key, v) == [Tag(v)] + ((key + [0]) + EncodeValue(v));
      AtHead(data, pos, Tag(v), (key + [0]) + EncodeValue(v));
      AtSplit(data, pos + 1, key + [0], EncodeValue(v));
      TagNotZero(v);
      if n < pos + |key| + 2 {
        KeyCut(data, pos + 1, key, n);
      } else {
        WithinCut(data, pos + 1, key + [0], n);
        CStringAt(data[..n], pos + 1, key);
        ValueCut(v, data, pos + |key| + 2, n);
      }
    }
  }

  lemma TagNotZero(v: Value)
    ensures Tag(v) != 0
  {
  }

  lemma {:induction false} FieldsCut(fields: seq<Field>, acc: seq<Field>, data: Bytes, pos: nat, n: nat)
    requires forall i :: 0 <= i < |fields| ==> WellKeyed(fields[i].val) && NulFree(fields[i].val) && 0 !in fields[i].key
    requires 0 < pos <= n && At(data, pos, EncodeFields(fields) + [0]) && |EncodeFields(fields)| < LIMIT
    requires n < pos + |EncodeFields(fields)| + 1
    ensures DecodeElements(data[..n], pos, acc) == Err
    decreases fields
  {
    hide At, DecodeValue, EncodeElement, EncodeValue, ReadCString;
    assert n <= |data| by { AtFits(data, pos, EncodeFields(fields) + [0]); }
    if fields != [] {
      var key, v := fields[0].key, fields[0].val;
      Regroup(EncodeElement(key, v), EncodeFields(fields[1..]), [0]);
      ElementAt(key, v, EncodeFields(fields[1..]) + [0], data, pos);
      var p := pos + |EncodeElement(key, v)|;
      if n < p {
        ElementCut(key, v, EncodeFields(fields[1..]) + [0], acc, data, pos, n);
      } else {
        AtSplit(data, pos, EncodeElement(key, v), EncodeFields(fields[1..]) + [0]);
        WithinCut(data, pos, EncodeElement(key, v), n);
        assert EncodeElement(key, v) + [] == EncodeElement(key, v);
        ElementAt(key, v, [], data[..n], pos);
        ValueRoundTrip(v, data[..n], pos + |key| + 2);
        TagNotZero(v);
        FieldsCut(fields[1..], SetField(acc, key, v), data, p, n);
      }
    }
  }

  lemma AtFits(data: Bytes, pos: nat, s: Bytes)
    requires At(data, pos, s)
    ensures pos + |s| <= |data|
  {
  }

  /** No proper beginning of an encoded document decodes to anything. */
  lemma TruncatedFails(fields: seq<Field>, n: nat)
    requires WellKeyed(Doc(fields)) && NulFree(Doc(fields)) && n < |EncodeDocument(fields)| < LIMIT
    ensures DecodeDocument(EncodeDocument(fields)[..n]) == Err
  {
    hide At;
    var data, elements := EncodeDocument(fields), EncodeFields(fields);
    assert data == Sized(elements) + [];
    HeaderAt(data, elements, []);
    if n >= 4 {
      assert data[..n][0..4] == data[0..4];
      FieldsCut(fields, [], data, 4, n);
    }
  }

  /** The overlooked cases themselves: a string that ends the input without its terminator is read
      in full. */
  lemma MissingTerminator(data: Bytes, pos: nat, s: Bytes)
    requires |s| + 1 < LIMIT && At(data, pos, LE(|s| + 1, 4) + s) && |data| == pos + 4 + |s|
    ensures ReadString(data, pos) == Ok(Str(s), |data|)
  {
    hide LE, ReadInt32;
    AtSplit(data, pos, LE(|s| + 1, 4), s);
    LengthAt(data, pos, |s| + 1);
  }

  /** And so is an empty binary value without its subtype. */
  lemma MissingSubtype(data: Bytes, pos: nat)
    requires At(data, pos, LE(0, 4)) && |data| == pos + 4
    ensures ReadBinary(data, pos) == Ok(Binary([]), |data|)
  {
    hide LE, ReadInt32;
    LengthAt(data, pos, 0);
    assert data[pos + 4..pos + 4] == [];
  }
}
