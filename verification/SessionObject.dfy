/** The mutable session of pkg/database/session.go. What the collection answers is a
    parameter of each call. */
module SessionObject {
  import opened Options
  import opened SessionModel

  class Session {
    var active: bool
    var operations: seq<Op>
    var writeSet: map<string, Write>
    var readSet: map<string, nat>
    var snapshotDocs: Cache
    var savepoints: map<string, Savepoint>

    ghost function View(): State
      reads this
    {
      State(active, operations, writeSet, readSet, snapshotDocs, savepoints)
    }

    ghost predicate Valid()
      reads this
    {
      Inv(View())
    }

    constructor ()
      ensures Valid() && View() == State(true, [], map[], map[], map[], map[])
    {
      active, operations, writeSet, readSet, snapshotDocs, savepoints := true, [], map[], map[], map[], map[];
    }

    /** Registers a write with the transaction, which refuses once it has ended. */
    method Enlist(op: Op) returns (ok: bool)
      requires Valid()
      modifies this
      ensures Valid() && ok == old(active) && View() == Record(old(View()), op)
    {
      if !active {
        return false;
      }
      writeSet := writeSet[Key(op) := if op.Put? then Wrote(op.doc) else Erased];
      operations := operations + [op];
      return true;
    }

    /** `stored`: the collection already stores a document with this id. */
    method InsertOne(collection: string, doc: Doc, stored: bool) returns (r: Option<string>)
      requires Valid()
      modifies this
      ensures Valid() && View() == if stored then old(View()) else Record(old(View()), Put(collection, doc.id, doc))
      ensures r == if !stored && old(active) then Some(doc.id) else None
    {
      if stored {
        return None;
      }
      var ok := Enlist(Put(collection, doc.id, doc));
      return if ok then Some(doc.id) else None;
    }

    /** The newest pending operation that answers the filter. */
    method ScanPending(collection: string, f: Filter) returns (r: Option<Op>)
      ensures r == Pending(operations, collection, f)
    {
      var i := |operations| - 1;
      assert operations[..i + 1] == operations;
      while i >= 0
        invariant -1 <= i < |operations|
        invariant Pending(operations, collection, f) == Pending(operations[..i + 1], collection, f)
      {
        var op := operations[i];
        if Hits(op, collection, f) {
          return Some(op);
        }
        assert operations[..i + 1][..i] == operations[..i];
        i := i - 1;
      }
      return None;
    }

    /** Some cached document that answers the filter. */
    method ScanCache(collection: string, f: Filter) returns (r: Option<Doc>)
      ensures r.Some? ==> exists d :: CachedHit(View(), collection, f, d) && r == Some(snapshotDocs[collection][d])
      ensures r.None? ==> !exists d :: CachedHit(View(), collection, f, d)
    {
      if collection !in snapshotDocs {
        return None;
      }
      var docs := snapshotDocs[collection];
      var left := docs.Keys;
      while left != {}
        invariant left <= docs.Keys
        invariant forall d :: d in docs && d !in left ==> !f.test(docs[d])
        decreases |left|
      {
        var d :| d in left;
        if f.test(docs[d]) {
          assert CachedHit(View(), collection, f, d);
          return Some(docs[d]);
        }
        left := left - {d};
      }
      return None;
    }

    /** `committed`: what the collection itself answers to the filter now. */
    method FindOne(collection: string, f: Filter, committed: Option<Doc>) returns (r: Option<Doc>)
      requires Valid()
      modifies this
      ensures Valid() && Finds(old(View()), collection, f, committed, r, View())
    {
      hide Pending, CachedHit;
      ghost var s := View();
      var pending := ScanPending(collection, f);
      if pending.Some? {
        return if pending.value.Put? then Some(pending.value.doc) else None;
      }
      var cached := ScanCache(collection, f);
      if cached.Some? || committed.None? {
        return if cached.Some? then cached else None;
      }
      assert View() == s;
      var doc := committed.value;
      var known := if collection in snapshotDocs then snapshotDocs[collection] else map[];
      snapshotDocs := snapshotDocs[collection := known[doc.id := doc]];
      assert View() == Remember(s, collection, doc);
      return committed;
    }

    method UpdateOne(collection: string, f: Filter, change: Doc -> Doc, committed: Option<Doc>)
      returns (ok: bool, ghost found: Option<Doc>, ghost mid: State)
      requires Valid()
      modifies this
      ensures Valid() && Finds(old(View()), collection, f, committed, found, mid)
      ensures View() == if found.None? then mid else Record(mid, Put(collection, found.value.id, change(found.value)))
      ensures ok == (found.Some? && old(active))
    {
      var doc := FindOne(collection, f, committed);
      found, mid := doc, View();
      if doc.None? {
        return false, found, mid;
      }
      ok := Enlist(Put(collection, doc.value.id, change(doc.value)));
    }

    method DeleteOne(collection: string, f: Filter, committed: Option<Doc>)
      returns (ok: bool, ghost found: Option<Doc>, ghost mid: State)
      requires Valid()
      modifies this
      ensures Valid() && Finds(old(View()), collection, f, committed, found, mid)
      ensures View() == if found.None? then mid else Record(mid, Delete(collection, found.value.id))
      ensures ok == (found.Some? && old(active))
    {
      var doc := FindOne(collection, f, committed);
      found, mid := doc, View();
      if doc.None? {
        return false, found, mid;
      }
      ok := Enlist(Delete(collection, doc.value.id));
    }

    method CreateSavepoint(name: string) returns (ok: bool)
      requires Valid()
      modifies this
      ensures Valid() && View() == Create(old(View()), name)
      ensures ok == (old(active) && name !in old(savepoints))
    {
      if !active || name in savepoints {
        return false;
      }
      savepoints := savepoints[name := Savepoint(|operations|, writeSet, readSet, snapshotDocs)];
      return true;
    }

    method RollbackToSavepoint(name: string) returns (ok: bool)
      requires Valid()
      modifies this
      ensures Valid() && View() == Rollback(old(View()), name)
      ensures ok == (old(active) && name in old(savepoints))
    {
      if !active || name !in savepoints {
        return false;
      }
      var sp := savepoints[name];
      writeSet, readSet := sp.writeSet, sp.readSet;
      operations := operations[..sp.count];
      snapshotDocs := sp.cache;
      DropFrom(sp.count);
      return true;
    }

    /** Forgets the savepoints that count at least `count` operations. */
    method DropFrom(count: nat)
      modifies `savepoints
      ensures savepoints == Below(old(savepoints), count)
    {
      var names := savepoints.Keys;
      while names != {}
        invariant savepoints.Keys <= old(savepoints).Keys && names <= old(savepoints).Keys
        invariant forall n :: n in old(savepoints) ==>
          (n in savepoints <==> n in names || old(savepoints)[n].count < count) && (n in savepoints ==> savepoints[n] == old(savepoints)[n])
        decreases |names|
      {
        var n :| n in names;
        if savepoints[n].count >= count {
          savepoints := savepoints - {n};
        }
        names := names - {n};
      }
    }

    method ReleaseSavepoint(name: string) returns (ok: bool)
      requires Valid()
      modifies this
      ensures Valid() && View() == Release(old(View()), name)
      ensures ok == (old(active) && name in old(savepoints))
    {
      if !active || name !in savepoints {
        assert savepoints == savepoints - {name} || !active;
        return false;
      }
      savepoints := savepoints - {name};
      return true;
    }
  }
}
