/** The operation log of pkg/replication/oplog.go: every entry on disk, the newest ones
    also in memory. */
module Oplog {
  datatype OpType =
    | Insert | Update | Delete | CreateCollection | DropCollection | CreateIndex | DropIndex | Noop

  type Body(==, !new)

  datatype Entry = Entry(opID: nat, op: OpType, database: string, collection: string, body: Body)

  ghost predicate Increasing(s: seq<Entry>) {
    forall i, j :: 0 <= i < j < |s| ==> s[i].opID < s[j].opID
  }

  /** The entries with a larger id, in order. */
  function After(s: seq<Entry>, id: nat): seq<Entry> {
    if s == [] then [] else (if s[0].opID > id then [s[0]] else []) + After(s[1..], id)
  }

  lemma {:induction false} AfterAppend(s: seq<Entry>, e: Entry, id: nat)
    ensures After(s + [e], id) == After(s, id) + if e.opID > id then [e] else []
  {
    if s == [] {
      assert s + [e] == [e];
    } else {
      assert (s + [e])[1..] == s[1..] + [e];
      AfterAppend(s[1..], e, id);
    }
  }

  /** How many entries have an id up to `id`. */
  function UpTo(s: seq<Entry>, id: nat): (n: nat)
    ensures n <= |s|
  {
    if s == [] || s[|s| - 1].opID > id then if s == [] then 0 else UpTo(s[..|s| - 1], id) else |s|
  }

  lemma {:induction false} UpToSplits(s: seq<Entry>, id: nat)
    requires Increasing(s)
    ensures forall i :: 0 <= i < |s| ==> (s[i].opID <= id <==> i < UpTo(s, id))
  {
    if s != [] && s[|s| - 1].opID > id {
      var t := s[..|s| - 1];
      UpToSplits(t, id);
      assert forall i :: 0 <= i < |t| ==> s[i] == t[i];
    }
  }

  lemma {:induction false} AfterNone(s: seq<Entry>, id: nat)
    requires forall i :: 0 <= i < |s| ==> s[i].opID <= id
    ensures After(s, id) == []
  {
    if s != [] {
      AfterNone(s[1..], id);
    }
  }

  /** In an increasing log the entries after an id are its tail. */
  lemma {:induction false} AfterIsTail(s: seq<Entry>, id: nat)
    requires Increasing(s)
    ensures After(s, id) == s[UpTo(s, id)..]
  {
    hide After, Increasing;
    if s == [] {
      AfterNone(s, id);
    } else {
      var n := |s| - 1;
      var front := s[..n];
      AfterAppend(front, s[n], id);
      IncreasingFront(s);
      assert s == front + [s[n]];
      if s[n].opID > id {
        AfterIsTail(front, id);
        assert front[UpTo(front, id)..] + [s[n]] == s[UpTo(s, id)..];
      } else {
        AfterNone(s, id);
      }
    }
  }

  lemma IncreasingFront(s: seq<Entry>)
    requires Increasing(s) && s != []
    ensures Increasing(s[..|s| - 1]) && forall i :: 0 <= i < |s| ==> s[i].opID <= s[|s| - 1].opID
  {
  }

  /** `tail` holds the last `max` entries of `disk`, or all if there are fewer. */
  ghost predicate Newest(tail: seq<Entry>, disk: seq<Entry>, max: nat) {
    |tail| == (if |disk| < max then |disk| else max) && tail == disk[|disk| - |tail|..]
  }

  /** Appending to the log and to its newest part, trimmed to `max`, keeps the one a suffix of the other. */
  lemma SuffixAppend(disk: seq<Entry>, tail: seq<Entry>, e: Entry, max: nat)
    requires max > 0 && Newest(tail, disk, max)
    ensures var t := tail + [e]; Newest(if |t| > max then t[|t| - max..] else t, disk + [e], max)
  {
    var d := disk + [e];
    assert d[|disk| - |tail|..] == tail + [e];
    if |tail| == max {
      assert (tail + [e])[1..] == d[|disk| - |tail| + 1..];
    }
  }

  lemma IncreasingAppend(s: seq<Entry>, e: Entry)
    requires Increasing(s) && forall i :: 0 <= i < |s| ==> s[i].opID < e.opID
    ensures Increasing(s + [e]) && forall i :: 0 <= i < |s + [e]| ==> (s + [e])[i].opID <= e.opID
  {
  }

  class Log {
    var disk: seq<Entry>
    var entries: seq<Entry>
    var currentID: nat
    const maxEntries: nat

    ghost predicate Valid()
      reads this
    {
      && maxEntries > 0 && Increasing(disk)
      && (forall i :: 0 <= i < |disk| ==> disk[i].opID <= currentID)
      && Newest(entries, disk, maxEntries)
    }

    constructor ()
      ensures Valid() && disk == [] && maxEntries == 10000
    {
      disk, entries, currentID, maxEntries := [], [], 0, 10000;
    }

    /** A failed write uses up the id. */
    method Append(e: Entry, written: bool)
      requires Valid()
      modifies this
      ensures Valid() && currentID == old(currentID) + 1
      ensures disk == if written then old(disk) + [e.(opID := currentID)] else old(disk)
    {
      hide Newest, Increasing;
      currentID := currentID + 1;
      if !written {
        return;
      }
      var stamped := e.(opID := currentID);
      IncreasingAppend(disk, stamped);
      SuffixAppend(disk, entries, stamped, maxEntries);
      disk := disk + [stamped];
      entries := entries + [stamped];
      if |entries| > maxEntries {
        entries := entries[|entries| - maxEntries..];
      }
    }

    /** Collects the entries with a larger id. */
    static method Collect(s: seq<Entry>, id: nat) returns (r: seq<Entry>)
      ensures r == After(s, id)
    {
      r := [];
      for i := 0 to |s|
        invariant r == After(s[..i], id)
      {
        AfterAppend(s[..i], s[i], id);
        assert s[..i + 1] == s[..i] + [s[i]];
        if s[i].opID > id {
          r := r + [s[i]];
        }
      }
      assert s[..|s|] == s;
    }

    /** Answers from memory; the disk is read only if nothing in memory is newer. */
    method GetEntriesSince(afterID: nat) returns (r: seq<Entry>)
      requires Valid()
      ensures r == After(entries, afterID)
      ensures r == After(disk, afterID) <==> EvictedUpTo(disk, |disk| - |entries|, afterID)
    {
      r := Collect(entries, afterID);
      SinceIsExact(disk, |disk| - |entries|, afterID);
      if |r| > 0 {
        return;
      }
      r := Collect(disk, afterID);
      NothingNewer(disk, |disk| - |entries|, afterID);
    }
  }

  /** Every entry that has left memory is covered by the token. */
  ghost predicate EvictedUpTo(disk: seq<Entry>, evicted: nat, id: nat)
    requires evicted <= |disk|
  {
    evicted == 0 || disk[evicted - 1].opID <= id
  }

  lemma {:induction false} AfterConcat(s: seq<Entry>, t: seq<Entry>, id: nat)
    ensures After(s + t, id) == After(s, id) + After(t, id)
  {
    if s == [] {
      assert s + t == t;
    } else {
      assert (s + t)[1..] == s[1..] + t;
      AfterConcat(s[1..], t, id);
    }
  }

  lemma AfterLast(s: seq<Entry>, id: nat)
    requires Increasing(s) && s != []
    ensures After(s, id) == [] <==> s[|s| - 1].opID <= id
  {
    var n := |s| - 1;
    AfterAppend(s[..n], s[n], id);
    assert s == s[..n] + [s[n]];
    if s[n].opID <= id {
      AfterNone(s[..n], id);
    }
  }

  /** The entries in memory after a token are all there are exactly if no entry newer than
      the token has been evicted. */
  lemma SinceIsExact(disk: seq<Entry>, evicted: nat, id: nat)
    requires Increasing(disk) && evicted <= |disk|
    ensures After(disk[evicted..], id) == After(disk, id) <==> EvictedUpTo(disk, evicted, id)
  {
    var gone := disk[..evicted];
    AfterConcat(gone, disk[evicted..], id);
    assert disk == gone + disk[evicted..];
    if evicted > 0 {
      AfterLast(gone, id);
    }
  }

  /** With one entry more than memory holds, asking for everything misses the first. */
  lemma FirstEntryMissed(body: Body) returns (disk: seq<Entry>)
    ensures |disk| == 10001 && Increasing(disk) && Newest(disk[1..], disk, 10000)
    ensures After(disk, 0) == disk && After(disk[1..], 0) == disk[1..]
  {
    disk := seq(10001, (i: nat) => Entry(i + 1, Insert, "db", "docs", body));
    AfterAll(disk, 0);
    AfterAll(disk[1..], 0);
  }

  lemma {:induction false} AfterAll(s: seq<Entry>, id: nat)
    requires forall i :: 0 <= i < |s| ==> s[i].opID > id
    ensures After(s, id) == s
  {
    if s != [] {
      AfterAll(s[1..], id);
      assert s == [s[0]] + s[1..];
    }
  }

  lemma NothingNewer(disk: seq<Entry>, evicted: nat, id: nat)
    requires Increasing(disk) && evicted <= |disk| && (evicted < |disk| || evicted == 0) && After(disk[evicted..], id) == []
    ensures After(disk, id) == []
  {
    hide After;
    if disk == [] {
      AfterNone(disk, id);
    } else {
      var tail := disk[evicted..];
      IncreasingTail(disk, evicted);
      AfterLast(tail, id);
      AfterLast(disk, id);
      assert tail[|tail| - 1] == disk[|disk| - 1];
    }
  }

  lemma IncreasingTail(s: seq<Entry>, k: nat)
    requires Increasing(s) && k <= |s|
    ensures Increasing(s[k..])
  {
  }
}
