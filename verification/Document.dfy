/** Documents of pkg/document: typed values and fields kept in insertion order. */
module Document {
  import opened Options

  type byte = x: int | 0 <= x < 256
  type Bytes = seq<byte>
  type Int32 = x: int | -0x8000_0000 <= x < 0x8000_0000
  type Int64 = x: int | -0x8000_0000_0000_0000 <= x < 0x8000_0000_0000_0000
  type Word64 = x: int | 0 <= x < 0x1_0000_0000_0000_0000
  type Oid = s: Bytes | |s| == 12 witness [0, 0, 0, 0, 0, 0, 0, 0, 0, 0, 0, 0]

  /** Floats are their 64-bit patterns; strings are byte sequences. */
  datatype Value =
    | Null
    | Bool(b: bool)
    | I32(i: Int32)
    | I64(l: Int64)
    | Float(bits: Word64)
    | Str(s: Bytes)
    | Binary(data: Bytes)
    | ObjectId(id: Oid)
    | Array(items: seq<Value>)
    | Doc(fields: seq<Field>)

  datatype Field = Field(key: Bytes, val: Value)

  predicate HasKey(d: seq<Field>, key: Bytes) {
    exists i :: 0 <= i < |d| && d[i].key == key
  }

  ghost predicate DistinctKeys(d: seq<Field>) {
    forall i, j :: 0 <= i < j < |d| ==> d[i].key != d[j].key
  }

  /** Replaces the value of a present key where it stands; a new key goes to the end. */
  function SetField(d: seq<Field>, key: Bytes, val: Value): seq<Field> {
    if d == [] then [Field(key, val)]
    else if d[0].key == key then [Field(key, val)] + d[1..]
    else [d[0]] + SetField(d[1..], key, val)
  }

  function GetField(d: seq<Field>, key: Bytes): Option<Value> {
    if d == [] then None
    else if d[0].key == key then Some(d[0].val)
    else GetField(d[1..], key)
  }

  function RemoveField(d: seq<Field>, key: Bytes): seq<Field> {
    if d == [] then []
    else if d[0].key == key then d[1..]
    else [d[0]] + RemoveField(d[1..], key)
  }

  /** A new key is appended, so building a document field by field keeps the order. */
  lemma {:induction false} SetNewKey(d: seq<Field>, key: Bytes, val: Value)
    requires !HasKey(d, key)
    ensures SetField(d, key, val) == d + [Field(key, val)]
  {
    if d != [] {
      assert forall i :: 0 <= i < |d| - 1 ==> d[1..][i] == d[i + 1];
      SetNewKey(d[1..], key, val);
    }
  }

  /** Setting a key answers the next Get for it and leaves every other Get alone. */
  lemma {:induction false} GetAfterSet(d: seq<Field>, key: Bytes, val: Value, other: Bytes)
    ensures GetField(SetField(d, key, val), other) == if other == key then Some(val) else GetField(d, other)
  {
    if d != [] && d[0].key != key {
      GetAfterSet(d[1..], key, val, other);
    }
  }

  /** Setting or deleting a present key changes the document at its place only. */
  lemma {:induction false} AtItsPlace(d: seq<Field>, i: nat, val: Value)
    requires DistinctKeys(d) && i < |d|
    ensures SetField(d, d[i].key, val) == d[i := Field(d[i].key, val)]
    ensures RemoveField(d, d[i].key) == d[..i] + d[i + 1..]
    ensures GetField(d, d[i].key) == Some(d[i].val)
  {
    if i > 0 {
      AtItsPlace(d[1..], i - 1, val);
      assert d[1..][i - 1 := Field(d[i].key, val)] == d[i := Field(d[i].key, val)][1..];
      assert d[..i] + d[i + 1..] == [d[0]] + (d[1..][..i - 1] + d[1..][i..]);
    }
  }

  /** Deleting what was just added as new restores the document. */
  lemma {:induction false} DeleteUndoesSet(d: seq<Field>, key: Bytes, val: Value)
    requires GetField(d, key).None?
    ensures RemoveField(SetField(d, key, val), key) == d
  {
    if d != [] {
      DeleteUndoesSet(d[1..], key, val);
    }
  }

  // ---- the mutable document

  ghost predicate NoRepeats(order: seq<Bytes>) {
    forall i, j :: 0 <= i < j < |order| ==> order[i] != order[j]
  }

  ghost predicate Covered(order: seq<Bytes>, fields: map<Bytes, Value>) {
    forall i :: 0 <= i < |order| ==> order[i] in fields
  }

  ghost function ViewOf(order: seq<Bytes>, fields: map<Bytes, Value>): seq<Field>
    requires Covered(order, fields)
  {
    if order == [] then [] else [Field(order[0], fields[order[0]])] + ViewOf(order[1..], fields)
  }

  lemma {:induction false} ViewAfterSet(order: seq<Bytes>, fields: map<Bytes, Value>, key: Bytes, val: Value)
    requires Covered(order, fields) && NoRepeats(order)
    ensures Covered(order, fields[key := val])
    ensures key in order ==> ViewOf(order, fields[key := val]) == SetField(ViewOf(order, fields), key, val)
    ensures key !in order ==> ViewOf(order, fields[key := val]) == ViewOf(order, fields)
    ensures key !in order ==> SetField(ViewOf(order, fields), key, val) == ViewOf(order, fields) + [Field(key, val)]
  {
    if order != [] {
      ViewAfterSet(order[1..], fields, key, val);
    }
  }

  lemma {:induction false} ViewAppend(order: seq<Bytes>, fields: map<Bytes, Value>, key: Bytes)
    requires Covered(order, fields) && key in fields
    ensures Covered(order + [key], fields)
    ensures ViewOf(order + [key], fields) == ViewOf(order, fields) + [Field(key, fields[key])]
  {
    if order == [] {
      assert [key][1..] == [];
    } else {
      ViewAppend(order[1..], fields, key);
      assert (order + [key])[1..] == order[1..] + [key];
    }
  }

  lemma {:induction false} ViewAfterDelete(order: seq<Bytes>, fields: map<Bytes, Value>, i: nat)
    requires Covered(order, fields) && NoRepeats(order) && i < |order|
    ensures Covered(order[..i] + order[i + 1..], fields - {order[i]})
    ensures ViewOf(order[..i] + order[i + 1..], fields - {order[i]}) == RemoveField(ViewOf(order, fields), order[i])
  {
    if i == 0 {
      assert order[..0] + order[1..] == order[1..];
      ViewWithout(order[1..], fields, order[0]);
    } else {
      ViewAfterDelete(order[1..], fields, i - 1);
      assert (order[..i] + order[i + 1..])[1..] == order[1..][..i - 1] + order[1..][i..];
    }
  }

  lemma {:induction false} ViewWithout(order: seq<Bytes>, fields: map<Bytes, Value>, key: Bytes)
    requires Covered(order, fields) && key !in order
    ensures Covered(order, fields - {key}) && ViewOf(order, fields - {key}) == ViewOf(order, fields)
  {
    if order != [] {
      ViewWithout(order[1..], fields, key);
    }
  }

  lemma {:induction false} ViewGet(order: seq<Bytes>, fields: map<Bytes, Value>, key: Bytes)
    requires Covered(order, fields)
    ensures GetField(ViewOf(order, fields), key) == if key in order then Some(fields[key]) else None
  {
    if order != [] {
      ViewGet(order[1..], fields, key);
    }
  }

  /** A document as the code keeps it: a map for the values, a list for the order. */
  class DocumentObject {
    var fields: map<Bytes, Value>
    var order: seq<Bytes>

    ghost predicate Valid()
      reads this
    {
      NoRepeats(order) && Covered(order, fields) && forall k :: k in fields ==> k in order
    }

    ghost function View(): seq<Field>
      requires Valid()
      reads this
    {
      ViewOf(order, fields)
    }

    constructor ()
      ensures Valid() && View() == []
    {
      fields, order := map[], [];
    }

    method Set(key: Bytes, val: Value)
      requires Valid()
      modifies this
      ensures Valid() && View() == SetField(old(View()), key, val)
    {
      ViewAfterSet(order, fields, key, val);
      if key !in fields {
        order := order + [key];
      }
      fields := fields[key := val];
      if key !in old(fields) {
        ViewAppend(old(order), fields, key);
      }
    }

    method Get(key: Bytes) returns (r: Option<Value>)
      requires Valid()
      ensures r == GetField(View(), key)
    {
      ViewGet(order, fields, key);
      return if key in fields then Some(fields[key]) else None;
    }

    method Delete(key: Bytes)
      requires Valid()
      modifies this
      ensures Valid() && View() == if key in old(fields) then RemoveField(old(View()), key) else old(View())
    {
      hide ViewOf, RemoveField;
      if key !in fields {
        return;
      }
      ghost var before := fields;
      fields := fields - {key};
      for i := 0 to |order|
        invariant order == old(order) && fields == before - {key} && key !in order[..i]
      {
        if order[i] == key {
          ViewAfterDelete(order, before, i);
          order := order[..i] + order[i + 1..];
          return;
        }
      }
    }

    /** The fields in insertion order, read off the key list. */
    method Fields() returns (r: seq<Field>)
      requires Valid()
      ensures r == View()
    {
      r := [];
      for i := 0 to |order|
        invariant Covered(order[i..], fields) && r + ViewOf(order[i..], fields) == View()
      {
        assert order[i..][1..] == order[i + 1..];
        r := r + [Field(order[i], fields[order[i]])];
      }
    }
  }
}
