/** Exactly which documents survive a round trip, and what decoding can produce at all. */
module BsonExact {
  import opened Options
  import opened Document
  import opened BsonFormat
  import opened BsonRoundTrip

  ghost predicate FieldsNulFree(fields: seq<Field>) {
    forall i :: 0 <= i < |fields| ==> 0 !in fields[i].key && NulFree(fields[i].val)
  }

  lemma {:induction false} SetNulFree(fields: seq<Field>, key: Bytes, v: Value)
    requires FieldsNulFree(fields) && 0 !in key && NulFree(v)
    ensures FieldsNulFree(SetField(fields, key, v))
  {
    if fields != [] && fields[0].key != key {
      SetNulFree(fields[1..], key, v);
    }
  }

  lemma {:induction false} GetNulFree(fields: seq<Field>, key: Bytes)
    requires FieldsNulFree(fields)
    ensures GetField(fields, key).Some? ==> NulFree(GetField(fields, key).value)
  {
    if fields != [] && fields[0].key != key {
      GetNulFree(fields[1..], key);
    }
  }

  lemma {:induction false} ItemsNulFree(fields: seq<Field>, n: nat)
    requires FieldsNulFree(fields)
    ensures forall i :: 0 <= i < |ToItems(fields, n)| ==> NulFree(ToItems(fields, n)[i])
  {
    if n > 0 {
      ItemsNulFree(fields, n - 1);
      GetNulFree(fields, Decimal(n - 1));
    }
  }

  /** Whatever the bytes, a decoded key never contains a zero byte. */
  lemma {:induction false} DecodedNulFree(data: Bytes)
    ensures DecodeDocument(data).Ok? ==> FieldsNulFree(DecodeDocument(data).value)
    decreases |data|, |data| + 1, 0
  {
    if ReadInt32(data, 0).Ok? {
      ElementsNulFree(data, 4, []);
    }
  }

  lemma {:induction false} ElementsNulFree(data: Bytes, pos: nat, acc: seq<Field>)
    requires 0 < pos <= |data| && FieldsNulFree(acc)
    ensures DecodeElements(data, pos, acc).Ok? ==> FieldsNulFree(DecodeElements(data, pos, acc).value)
    decreases |data|, |data| - pos, 2
  {
    if pos < |data| && data[pos] != 0 {
      var k := ReadCString(data, pos + 1);
      if k.Ok? {
        ValueNulFree(data[pos], data, k.pos);
        var v := DecodeValue(data[pos], data, k.pos);
        if v.Ok? {
          SetNulFree(acc, k.value, v.value);
          ElementsNulFree(data, v.pos, SetField(acc, k.value, v.value));
        }
      }
    }
  }

  lemma {:induction false} ValueNulFree(tag: byte, data: Bytes, pos: nat)
    requires 0 < pos <= |data|
    ensures DecodeValue(tag, data, pos).Ok? ==> NulFree(DecodeValue(tag, data, pos).value)
    decreases |data|, |data| - pos, 1
  {
    if tag == 0x03 || tag == 0x04 {
      var bytes := Embedded(data, pos);
      if bytes.Ok? {
        DecodedNulFree(bytes.value);
        var inner := DecodeDocument(bytes.value);
        if inner.Ok? {
          ItemsNulFree(inner.value, |inner.value|);
        }
      }
    }
  }

  /** A document whose lengths fit the format survives a round trip exactly when none of its
      keys, at any depth, contains a zero byte. */
  lemma RoundTripExactly(fields: seq<Field>)
    requires WellKeyed(Doc(fields)) && |EncodeDocument(fields)| < LIMIT
    ensures DecodeDocument(EncodeDocument(fields)) == Ok(fields, |EncodeDocument(fields)|) <==> NulFree(Doc(fields))
  {
    hide EncodeDocument, DecodeDocument;
    if NulFree(Doc(fields)) {
      DocumentRoundTrip(fields, []);
      assert EncodeDocument(fields) + [] == EncodeDocument(fields);
    } else {
      DecodedNulFree(EncodeDocument(fields));
    }
  }

  /** No encoded document is the beginning of another one's encoding, so documents can be
      stored back to back. */
  lemma PrefixFree(a: seq<Field>, b: seq<Field>, s: Bytes, t: Bytes)
    requires WellKeyed(Doc(a)) && NulFree(Doc(a)) && |EncodeDocument(a)| < LIMIT
    requires WellKeyed(Doc(b)) && NulFree(Doc(b)) && |EncodeDocument(b)| < LIMIT
    requires EncodeDocument(a) + s == EncodeDocument(b) + t
    ensures a == b && s == t
  {
    hide EncodeDocument, DecodeDocument;
    DocumentRoundTrip(a, s);
    DocumentRoundTrip(b, t);
    var n := |EncodeDocument(a)|;
    assert s == (EncodeDocument(a) + s)[n..] && t == (EncodeDocument(b) + t)[n..];
  }

  /** A document whose only key is a zero byte does not come back. */
  lemma ZeroByteKeyLost()
    ensures var doc := [Field([0], Null)]; DecodeDocument(EncodeDocument(doc)) != Ok(doc, |EncodeDocument(doc)|)
  {
    var doc := [Field([0], Null)];
    assert doc[1..] == [];
    assert !NulFree(Doc(doc)) by { assert 0 in doc[0].key; }
    assert WellKeyed(Doc(doc));
    RoundTripExactly(doc);
  }
}
