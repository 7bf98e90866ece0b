# LauraDB verification

A Dafny model of the algorithmic cores of LauraDB, an embedded document database written in
Go, with proofs of what they promise. Every theorem is stated for all inputs, all runs or all
schedules; where the code falls short of what its comments or documentation say, the model keeps
the code's behaviour, shows an input on which the promise fails and proves exactly when it holds.

`dafny verify dfyconfig.toml` checks the whole project.

## What is modelled

- **B+ tree index** (`BTree*.dfy`, `OrderedEntries.dfy`). The linked nodes with parent pointers,
  leaf chain, recursive splits and the `lastSplitKey` side channel represent a tree value
  (`BTreeHeap`), which refines a finite map over every run (`BTreeRuns`); range scans over the leaf
  chain are exact (`BTreeScan`); insert-only runs keep the tree logarithmic (`BTreeFill`).
- **Compound keys** (`CompositeKey.dfy`): a total order on homogeneous columns in which every prefix
  query is one interval.
- **Lock-free stack** (`TreiberStack.dfy`): any number of threads between load and compare-and-swap;
  linearisability of every call, frozen links, conservation, progress.
- **Two-phase commit** (`TwoPhase*.dfy`): the coordinator under every order of calls, votes, errors
  and replies, and the database participants' sessions under cancellation and conflicts.
- **BSON codec** (`Document.dfy`, `Bson*.dfy`): encoder with back-patched sizes, decoder, round
  trip with its exact condition.
- **LRU caches** (`Lru*.dfy`, `ShardedLru.dfy`, `WordBits.dfy`): map and recency list agree;
  order by last use, exact hits, inclusion between capacities; shards selected by masking.
- **Planar geometry and grid index** (`Geometry.dfy`, `ConvexRings.dfy`, `GridIndex.dfy`,
  `InsertionSort.dfy`): what ray casting accepts; pruned queries against brute force.
- **Sessions** (`SessionModel.dfy`, `SessionObject.dfy`): savepoints over whole runs, reads by id.
- **Document locks** (`DocLock.dfy`): striped lock table, sorted acquisition; mutual exclusion,
  deadlock freedom, termination of every schedule.
- **Operation log and change streams** (`Oplog.dfy`, `ChangeStream.dfy`,
  `StreamProgress.dfy`): ordered delivery, completeness, resuming, progress.
- **Multi-version concurrency control** (`Mvcc*.dfy`, `VersionStore.dfy`): snapshot isolation over
  whole runs, first committer wins, garbage collection.

## Where the code and its promises differ

- `docs/indexing.md` bounds the tree height by log_m(n). `BTreeFill.HeightExceedsLogarithm` shows that
  no reachable tree meets this; `BTreeFill.LogarithmicHeight` gives the bound insert-only runs do meet.
- `getCellKey` truncates toward zero, so cells left of or below the axes are misplaced.
  `GridIndex.PruningIsExact` gives the exact condition, `GridIndex.NegativePointMissed` an example.
- `RollbackToSavepoint` says it removes the savepoints created after its target. It removes all with at
  least as many operations, which can include earlier ones: `SessionModel.EarlierSavepointRemoved`,
  with the exact rule in `SessionModel.RollbackSavepoints`.
- A session says that a document once read always reads the same. A read by id that found nothing is
  not kept, and a find by another filter can replace the snapshot
  (`SessionModel.OtherFilterReplacesSnapshot`); `SessionModel.FindReplacesExactly` says exactly when, and
  `SessionModel.RepeatableRead` what it means for a whole run.
- A session registers an update for conflict detection under the id it found, but its commit writes
  under the id of the changed document: `SessionModel.CommitCoveredIff` and
  `SessionModel.MovedIdNotRegistered`.
- `GetEntriesSince` says it returns all entries after an id, but answers from memory alone if memory
  holds any: `Oplog.SinceIsExact`, with `Oplog.FirstEntryMissed`. For a stream this is
  `ChangeStream.LostExactly`, with `ChangeStream.FirstPollLoses`.
- Garbage collection of versions can take the only version the oldest reader sees:
  `Mvcc.CollectTakesFromReader`, with the exact condition in `Mvcc.CollectKeepsLookup` and, over whole
  runs, `Mvcc.SnapshotStable`.
- `compareValues` compares an int64 with an int but not an int with an int64:
  `CompositeKey.OppositeIff`, with `CompositeKey.MixedIntegersDisagree`.
- A document list with a duplicate makes `LockMultiple` wait for itself:
  `DocLock.FinishesIffDuplicateFree`, with `DocLock.WaitsForItself`.
- `nextPowerOfTwo` is the least power of two exactly for 1 to 2^31 and wraps to 0 above:
  `WordBits.NextPowerOfTwo`.
- A key with a zero byte does not survive encoding: `BsonExact.RoundTripExactly`, with
  `BsonExact.ZeroByteKeyLost`.

## Conventions

Keys of the tree and document ids of the lock manager are integers: the code only compares them, so
an id stands for its place in the order. Floats are reals. Clocks, hash functions, square roots, and
the answers of the collection behind a session are parameters. In step machines one step is one atomic
action of the source (a load, a compare-and-swap, a mutex operation, one message).

## Model

| member | source | states |
|---|---|---|
| BTreeRuns.NewTree | pkg/index/btree.go:49-66 | a new tree is valid and holds the empty map; orders below 3 become 3 |
| BTreeRuns.ApplyRefinesMap | pkg/index/btree.go:69-273 | each Insert, Delete or Search keeps the tree valid and answers and changes the contents as the finite map does, both error cases included |
| BTreeRuns.RunRefinesMap | pkg/index/btree.go:69-292 | every run of calls on every reachable tree equals the same run on a finite map, reply by reply, and ends in a valid tree whose size is the map's cardinality |
| BTreeRuns.SearchIsMapLookup | pkg/index/btree.go:231-257 | a search finds exactly the value the map holds for the key |
| BTreeInsert.InsertCorrect | pkg/index/btree.go:94-149 | insertion below any node keeps separator bounds, capacity and uniform depth, split or not, and adds exactly the new entry in key order |
| BTreeInsert.SplitLeafGrown | pkg/index/btree.go:152-187 | the two halves of a full leaf and the separator between them are valid and hold the same entries |
| BTreeInsert.SplitNodeGrown | pkg/index/btree.go:190-228 | the two halves of a full internal node around the middle key are valid and hold the same entries |
| BTreeInsert.DescendToInsert | pkg/index/btree.go:119-149 | the separator a split child sends up belongs exactly at the position the descent took |
| BTreeOrder.EntriesSorted | pkg/index/btree.go:351-358 | the leaves of a valid tree read left to right are strictly ascending and within the bounds |
| BTreeOrder.SearchCorrect | pkg/index/btree.go:239-257 | searching a valid tree finds a key if and only if an entry with it exists, with that entry's value |
| BTreeOrder.DeleteCorrect | pkg/index/btree.go:276-292 | deletion without rebalancing keeps the tree valid and removes exactly the key's entry |
| BTreeFill.RunKeepsFilled | pkg/index/btree.go:102-228 | in insert-only runs every node below the root stays at least half full |
| BTreeFill.LogarithmicHeight | pkg/index/btree.go:102-228 | after any insert-only run the size is at least 2 * ceil(order/2)^(height-2) * floor(order/2) |
| BTreeFill.HeightExceedsLogarithm | docs/indexing.md:203-207 | order^height exceeds the size of every reachable tree, so the documented height bound never holds |
| BTreeHeap.BTree.constructor | pkg/index/btree.go:49-66 | the fresh linked root represents the empty tree |
| BTreeHeap.BTree.FindPosition | pkg/index/btree.go:351-358 | the loop stops behind the keys that are at most the given key |
| BTreeHeap.BTree.SearchNode | pkg/index/btree.go:239-257 | following child links gives what searching the represented tree gives |
| BTreeHeap.BTree.SplitLeafNode | pkg/index/btree.go:152-187 | relinks leaf chain and parents so that the two nodes represent the two halves; the separator is in lastSplitKey, or in a new root when the leaf was the root |
| BTreeHeap.BTree.SplitInternalNode | pkg/index/btree.go:190-228 | moves the right children to a new node, corrects their parent pointers and leaves two nodes that represent the two halves |
| BTreeHeap.BTree.InsertIntoLeafNode | pkg/index/btree.go:102-116 | the leaf, and its new sibling if it split, represent the leaf with the entry added |
| BTreeHeap.BTree.InsertIntoNode | pkg/index/btree.go:94-99 | the subtree, and what split off it, represent the inserted tree; chain ends and parent are as before; lastSplitKey is the separator of the node just split |
| BTreeHeap.BTree.InsertIntoInternalNode | pkg/index/btree.go:119-149 | the parent reads lastSplitKey only as the separator of the child just split, and takes the new sibling in right behind it |
| BTreeHeap.BTree.Insert | pkg/index/btree.go:69-91 | the linked structure stays well formed and moves exactly as the tree value does; a present key is rejected |
| BTreeHeap.BTree.Find | pkg/index/btree.go:231-236 | a search answers from the finite map the structure holds |
| BTreeHeap.BTree.DeleteFromNode | pkg/index/btree.go:276-292 | removes the entry in place, keeps every link, and reports whether the key was there |
| BTreeHeap.BTree.Remove | pkg/index/btree.go:260-273 | the linked structure moves exactly as the tree value does; a missing key is reported |
| BTreeScan.FindLeaf | pkg/index/btree.go:341-348 | the leaf found starts a chain through all later leaves, and everything in front of it is below the key |
| BTreeScan.LeftmostLeaf | pkg/index/btree.go:295-338 | following first children ends at the head of the leaf chain |
| BTreeScan.LeavesOf | pkg/index/btree.go:295-338 | the next pointers from a subtree's first leaf visit exactly its leaves in order |
| BTreeScan.RangeScan | pkg/index/btree.go:295-338 | returns exactly the entries between the two optional ends, in order, across leaves that deletions have emptied |
| BTreeScan.SelectExact | pkg/index/btree.go:295-338 | selecting a range keeps exactly the entries in it and their ascending order |
| CompositeKey.Compare | pkg/index/composite_key.go:25-47 | the loop computes the lexicographic comparison that the next three rows are about |
| CompositeKey.FirstDifference | pkg/index/composite_key.go:25-47 | the first fields that differ decide, exactly as they compare; without such fields the shorter key comes first |
| CompositeKey.ValueDirection | pkg/index/composite_key.go:73-159 | for any two values the sign tells which is below: nil below everything, numbers by size, false below true, byte strings by first different byte and then length; unlike kinds are equal except int64 against int |
| CompositeKey.KeyDirection | pkg/index/composite_key.go:25-47 | keys of one index compare as -1, 1 or 0 by that order at the first difference, proper prefixes first |
| CompositeKey.ColumnOrder | pkg/index/composite_key.go:73-159 | comparing values is a total order on nil and one supported type |
| CompositeKey.KeyOrder | pkg/index/composite_key.go:25-47 | on homogeneous columns comparing keys of any lengths is antisymmetric, transitive and zero only for equal keys |
| CompositeKey.OppositeIff | pkg/index/composite_key.go:84-116 | two values compare oppositely from both sides exactly unless one is an int64 and the other an int with a different number |
| CompositeKey.MixedIntegersDisagree | pkg/index/composite_key.go:84-116 | an int64 5 compares above an int 3, and that int equal to it |
| CompositeKey.MatchesPrefix | pkg/index/composite_key.go:52-64 | the loop decides whether each field of the prefix compares equal |
| CompositeKey.MatchesIsPrefix | pkg/index/composite_key.go:52-64 | on homogeneous columns a key matches exactly the keys it starts with |
| CompositeKey.PrefixInterval | pkg/index/composite_key.go:25-64 | between two keys that match a prefix every key matches, and the prefix itself is the least of them |
| CompositeKey.PrefixSlice | pkg/index/composite_key.go:25-64 | in an ordered list of keys the matches of a prefix are exactly the slice from the first key not below it to the first after it that does not match |
| TreiberStack.StepInv | pkg/concurrent/stack.go:28-100 | every step of every thread keeps the chain acyclic and never changes a published node |
| TreiberStack.StepEffect | pkg/concurrent/stack.go:28-100 | each effect is one atomic step on the abstract sequence; all other steps leave the sequence alone |
| TreiberStack.CompletedCall | pkg/concurrent/stack.go:28-100 | linearisability: a call of any operation that has come back took effect at exactly one of its own steps, a Push with the value it was called with, a Pop, Peek or Size with exactly what the stack held then; no other step of it changes the stack |
| TreiberStack.EffectsAreCalled | pkg/concurrent/stack.go:28-100 | every push, pop, clear or answer belongs to a call in progress that asked for it |
| TreiberStack.NeverBlocked | pkg/concurrent/stack.go:28-100 | in every reachable state every thread can take a step |
| TreiberStack.CallIsShort | pkg/concurrent/stack.go:28-63 | a Push, Pop, Peek or Clear takes at most three steps and three more for each failed compare-and-swap |
| TreiberStack.RunFrozen | pkg/concurrent/stack.go:28-63 | from any moment of any run on, published nodes keep their value and next link |
| TreiberStack.Conservation | pkg/concurrent/stack.go:28-100 | in every run the values pushed are, as a multiset, those popped, cleared and still present |
| TreiberStack.SizeIsExact | pkg/concurrent/stack.go:84-95 | Size returns the length the stack had when it loaded the head, whatever happens during its walk |
| TreiberStack.PeekIsExact | pkg/concurrent/stack.go:67-75 | Peek returns the value that was on top when it loaded the head |
| TreiberStack.FailureMeansProgress | pkg/concurrent/stack.go:28-63 | a compare-and-swap fails only if another thread moved the head since the load |
| TwoPhaseCommit.NextInv | pkg/distributed/two_phase_commit.go:85-349 | in every interleaving a committed coordinator has only committed records |
| TwoPhaseCommit.CommittedIsAbsorbing | pkg/distributed/two_phase_commit.go:85-105 | nothing changes a committed coordinator or its records, and the participants are fixed once the first phase begins |
| TwoPhaseCommit.RunStaysCommitted | pkg/distributed/two_phase_commit.go:85-349 | over every run of public calls Committed stays, with the same committed records |
| TwoPhaseExecute.StartGathers | pkg/distributed/two_phase_commit.go:71-105 | a new coordinator to which participants are added, repeated ones being refused, has exactly them in their initial state, ready for Execute |
| TwoPhaseExecute.ExecuteOutcome | pkg/distributed/two_phase_commit.go:326-349 | for every schedule of votes, errors and replies phases do not overlap, and Execute ends with all committed, all aborted without any Commit sent, or exactly the non-erring participants committed |
| TwoPhaseExecute.NeverBoth | pkg/distributed/two_phase_commit.go:109-323 | Commit and Abort are never both sent, Commit only if everyone voted yes without error, and a nil result means coordinator and all records are committed |
| TwoPhaseExecute.RepliesDecide | pkg/distributed/two_phase_commit.go:85-349 | from the replies alone, for any participants: Execute succeeds exactly if all voted yes and committed without error; the final state of coordinator and of every record follows from the votes and the participant's own reply |
| TwoPhaseExecute.ExecuteEnds | pkg/distributed/two_phase_commit.go:109-349 | every schedule over n participants can go on until it has taken exactly 6n + 3 steps, and then Execute has returned |
| TwoPhaseCalls.CallDecides | pkg/distributed/two_phase_commit.go:109-323 | Prepare, Commit or Abort called on its own, for every schedule: each participant is called once, and the replies alone decide the result, the coordinator and every record |
| TwoPhaseCalls.CallRefused | pkg/distributed/two_phase_commit.go:109-265 | a call out of turn is refused and changes nothing else |
| TwoPhaseCalls.LateExecute | pkg/distributed/two_phase_commit.go:326-333 | an Execute that comes too late fails; unless the coordinator has committed it still aborts every participant |
| TwoPhaseCalls.AddDecides | pkg/distributed/two_phase_commit.go:85-105 | a participant is added exactly if the protocol has not started and it is not there yet |
| TwoPhaseDatabases.ExecuteOverDatabases | pkg/distributed/database_participant.go:60-144 | when Execute returns no participant holds a session of the transaction, each was finished at most once, and a database is committed exactly if its record says so, on every path including cancelled contexts |
| TwoPhaseDatabases.ExecuteDecides | pkg/distributed/database_participant.go:60-144 | Execute succeeds exactly if every session was present and active, no context of its two calls was cancelled and no commit met a conflict; per participant, exactly when its transaction ends up committed, aborted or as it was |
| TwoPhaseDatabases.UnfinishedIff | pkg/distributed/database_participant.go:92-144 | when Execute has returned a session was never finished, its transaction left as it was, exactly if there was none or its second-phase call came with a cancelled context |
| BsonRoundTrip.DocumentRoundTrip | pkg/document/bson.go:25-290 | decoding an encoded document followed by anything returns the same document with the same key order and consumes exactly its bytes |
| BsonRoundTrip.ValueRoundTrip | pkg/document/bson.go:51-124 | a value of any type and nesting depth is read back from wherever its encoding stands |
| BsonRoundTrip.EmbeddedAt | pkg/document/bson.go:245-285 | the size header of a nested document makes the decoder cut out exactly its bytes |
| BsonRoundTrip.ArrayRoundTrip | pkg/document/bson.go:90-101 | array items come back in order through their decimal index keys |
| BsonExact.RoundTripExactly | pkg/document/bson.go:25-290 | within the format's length limit a document survives exactly if no key at any depth contains a zero byte |
| BsonExact.ZeroByteKeyLost | pkg/document/bson.go:51-57 | a document whose only key is a zero byte does not come back |
| BsonExact.DecodedNulFree | pkg/document/bson.go:139-195 | whatever the input bytes, a decoded key contains no zero byte |
| BsonExact.PrefixFree | pkg/document/bson.go:25-48 | no encoded document begins another one's encoding |
| BsonTruncated.TruncatedFails | pkg/document/bson.go:139-290 | no proper beginning of an encoded document decodes |
| BsonTruncated.MissingTerminator | pkg/document/bson.go:217-227 | a string at the end of the input is read in full without its terminator |
| BsonTruncated.MissingSubtype | pkg/document/bson.go:228-238 | an empty binary value at the end of the input is read without its subtype |
| BsonWire.LittleEndian | pkg/document/bson.go:43-45 | byte i of an integer has weight 256 to the i |
| BsonWire.Integers | pkg/document/bson.go:69-72 | an int32 is four bytes and an int64 eight, negative numbers as complements to 2^32 and 2^64 |
| BsonWire.Elements | pkg/document/bson.go:51-93 | the exact bytes of an element of each unnested type, with its tag |
| BsonWire.Framing | pkg/document/bson.go:25-121 | a document is framed by its own length and a zero byte; nested documents and arrays are framed the same, arrays under decimal keys |
| BsonWire.HeaderIgnored | pkg/document/bson.go:139-146 | the size a document declares for itself does not matter to its decoding |
| BsonWire.ReadsAnyBytes | pkg/document/bson.go:198-290 | bytes of any origin: any byte but zero is true, integers are little-endian two's complement, tag 0x11 is read as an int64, unknown tags are errors |
| BsonCodec.Encoder.PatchSize | pkg/document/bson.go:43-45 | the four reserved bytes read back as the length of the whole buffer, as an int32 below 2^31 and modulo 2^32 beyond; every other byte stays |
| BsonCodec.Encoder.Encode | pkg/document/bson.go:25-48 | the buffer with the back-patched size is the sized list of encoded elements |
| BsonCodec.Encoder.EncodeElement | pkg/document/bson.go:51-124 | appends tag, key and value, nested encoders included |
| BsonCodec.Decoder.Decode | pkg/document/bson.go:139-179 | the reading loop gives the parse of the whole input, errors included, and stops behind it |
| BsonCodec.Decoder.ReadCString | pkg/document/bson.go:182-195 | reads up to the first zero byte or fails at the end of input |
| BsonCodec.Decoder.DecodeValue | pkg/document/bson.go:198-290 | reads the value the tag announces, errors included, and stops behind it |
| Document.DocumentObject.Set | pkg/document/document.go:31-36 | map and order list stay in agreement; a new key goes last, a present one keeps its place |
| Document.DocumentObject.Get | pkg/document/document.go:39-44 | answers what the ordered fields hold |
| Document.DocumentObject.Delete | pkg/document/document.go:59-73 | removes the key from map and order list together, keeping the order of the rest |
| Document.DocumentObject.Fields | pkg/document/document.go:76-78 | walking the order list through the map gives the fields in insertion order |
| Document.GetAfterSet | pkg/document/document.go:31-44 | a Set answers the next Get of its key and no other |
| Document.AtItsPlace | pkg/document/document.go:31-73 | setting or deleting a present key changes the document at its place only |
| Document.DeleteUndoesSet | pkg/document/document.go:31-73 | deleting a key just added restores the document, order included |
| LruInclusion.Inclusion | pkg/cache/lru.go:46-125 | for every timed trace and k1 <= k2 the smaller cache's recency list is a subsequence of the larger's, at most k2 - k1 shorter, and every hit in the smaller is the same hit in the larger |
| LruInclusion.IncludedStep | pkg/cache/lru.go:46-204 | each call keeps that inclusion, evictions and expiries included |
| LruModel.StepFits | pkg/cache/lru.go:72-111 | every call keeps keys distinct and the list within the capacity |
| LruRecency.GetMoves | pkg/cache/lru.go:46-69 | looking up a present key moves a live entry to the front and answers its value, removes an expired one, and keeps the other entries in their order |
| LruRecency.PutAdds | pkg/cache/lru.go:72-111 | a new key goes to the front; only from a full cache an entry has to go, and it is the last one |
| LruRecency.PutMoves | pkg/cache/lru.go:72-100 | a present key gets a fresh entry at the front, the others keep their order |
| LruRecency.RunInOrder | pkg/cache/lru.go:46-204 | after every run the list is ordered by last Put or hit, latest first, and every entry has the value and expiry of the last Put of its key |
| LruRecency.LosesExactly | pkg/cache/lru.go:46-204 | exactly which keys one call takes out of the cache |
| LruRecency.EvictsOldest | pkg/cache/lru.go:72-111 | after every run a Put evicts a key exactly if it is new, the cache is full, and that key has the oldest last Put or hit of all present |
| LruRecency.GetReturnsLastPut | pkg/cache/lru.go:46-69 | an answer is always the value of the last Put of the key, unexpired; a miss means the key is absent or that Put has expired |
| LruRecency.HitsExactly | pkg/cache/lru.go:46-125 | while nothing expires, from the history alone: a Get hits exactly if fewer other keys than the capacity have been used since the key itself was, and then returns the value last put |
| LruCache.LRUCache.Get | pkg/cache/lru.go:46-69 | map and list stay in bijection; the list and the answer are those of the recency model, which LruRecency.GetMoves pins down; the counters follow the answer |
| LruCache.LRUCache.Put | pkg/cache/lru.go:72-100 | the key goes to the front with a fresh expiry; exactly the oldest entry is evicted, and counted, if a new key exceeds the capacity |
| LruCache.LRUCache.EvictOldest | pkg/cache/lru.go:103-111 | removes the last of the list from both structures; nothing on an empty cache |
| LruCache.LRUCache.Clear | pkg/cache/lru.go:119-125 | empties both structures |
| LruCache.LRUCache.CleanupExpired | pkg/cache/lru.go:187-204 | whatever order the map is walked in, exactly the expired entries leave and the order of the rest stays; returns how many left |
| WordBits.NextPowerOfTwo | pkg/concurrent/sharded_lru.go:257-268 | the smearing steps give the least power of two at least n exactly for 1 <= n <= 2^31, 1 for 0, and 0 above |
| WordBits.PowerTest | pkg/concurrent/sharded_lru.go:41-68 | n & (n - 1) is zero exactly for powers of two |
| WordBits.MaskIsMod | pkg/concurrent/sharded_lru.go:71-75 | masking with a power of two less one is the remainder |
| ShardedLru.ShardedLRUCache.New | pkg/concurrent/sharded_lru.go:41-68 | the shard count becomes the least power of two, each shard an empty cache with its part of the capacity; fails exactly for counts above 2^31 |
| ShardedLru.CapacityShared | pkg/concurrent/sharded_lru.go:49-53 | every shard has room for an entry, and together they lack at most the remainder of the division |
| ShardedLru.ShardedLRUCache.IndexIsMod | pkg/concurrent/sharded_lru.go:71-75 | the shard of a key is its hash modulo the shard count |
| ShardedLru.ShardedLRUCache.Get | pkg/concurrent/sharded_lru.go:78-101 | acts as the plain cache on the key's own shard and leaves all others alone |
| ShardedLru.ShardedLRUCache.Put | pkg/concurrent/sharded_lru.go:104-132 | acts as the plain cache on the key's own shard, so each key lives in one shard only |
| ShardedLru.ShardedLRUCache.Size | pkg/concurrent/sharded_lru.go:145-153 | the sum over the shards never exceeds the larger of the capacity and the shard count |
| ShardedLru.ShardedLRUCache.Clear | pkg/concurrent/sharded_lru.go:135-142 | empties every shard |
| ShardedLru.ShardedLRUCache.CleanupExpired | pkg/concurrent/sharded_lru.go:188-227 | removes exactly the expired entries of every shard and returns how many |
| Geometry.IntersectsMeansCommonPoint | pkg/geo/geometry.go:127-130 | proper boxes intersect exactly if they share a point |
| Geometry.Bounds | pkg/geo/geometry.go:78-110 | the tightest box around the outer ring; none without one |
| Geometry.PointInRing | pkg/geo/geometry.go:195-218 | the loop computes the parity of the edges the ray to the right crosses; ConvexRings says what that accepts |
| Geometry.PointInPolygon | pkg/geo/geometry.go:174-192 | inside the outer ring and outside every hole, by that parity |
| Geometry.AbscissaBetween | pkg/geo/geometry.go:195-218 | an edge meets the horizontal line through the point between its ends |
| Geometry.StraddleParity | pkg/geo/geometry.go:195-218 | along a closed ring the crossings of a line have the parity of the ends' sides |
| Geometry.PolygonWithinBounds | pkg/geo/geometry.go:78-218 | a point that ray casting accepts lies within the polygon's bounds |
| ConvexRings.AbscissaOnLine | pkg/geo/geometry.go:195-218 | the crossing lies on the line through the ends of the edge |
| ConvexRings.ConvexRing | pkg/geo/geometry.go:195-218 | a convex ring turning either way: a point on the inner side of every edge is accepted, a point on the outer side of any edge is rejected |
| ConvexRings.ConvexExactly | pkg/geo/geometry.go:195-218 | boundary included, a convex ring accepts exactly the points from its left edge on and before its right edge at their height |
| ConvexRings.ClosingVertex | pkg/geo/geometry.go:195-218 | repeating the first vertex at the end changes nothing |
| ConvexRings.ConvexPolygon | pkg/geo/geometry.go:174-192 | the same for polygons: inside the outer ring and outside every hole is accepted; outside the outer ring or inside any hole is rejected |
| InsertionSort.Sort | pkg/geo/index_2d.go:236-246 | the in-place sort leaves what inserting the elements one after the other gives |
| InsertionSort.SortedPermutes | pkg/database/doc_lock.go:129-140 | sorting keeps every element with its multiplicity |
| InsertionSort.SortedInOrder | pkg/database/doc_lock.go:129-140 | with any ranking comparison the result is in order |
| GridIndex.Index2D.constructor | pkg/geo/index_2d.go:28-44 | an empty index; a grid size that is not positive becomes 1 |
| GridIndex.Index2D.Insert | pkg/geo/index_2d.go:47-68 | each document is in exactly the cell of its newest point, no cell is empty, and all points are within the bounds |
| GridIndex.Index2D.Remove | pkg/geo/index_2d.go:71-82 | the same with the document gone; the bounds do not shrink |
| GridIndex.Index2D.RemoveFromGrid | pkg/geo/index_2d.go:85-93 | takes the document out of its cell and an emptied cell out of the grid |
| GridIndex.Index2D.UpdateBounds | pkg/geo/index_2d.go:103-125 | widens the bounds by the point, or restarts them at the only point |
| GridIndex.Index2D.FindInBox | pkg/geo/index_2d.go:201-218 | returns each document of the box that its cell lets the query see, once |
| GridIndex.Index2D.FindWithin | pkg/geo/index_2d.go:179-198 | the same for a polygon through its bounds; a polygon without outer ring fails on a nonempty index |
| GridIndex.Index2D.FindNear | pkg/geo/index_2d.go:136-176 | returns documents within the distance, each once, nearest first; one is missing only if the limit is used up by documents at least as near |
| GridIndex.CoordinateInCell | pkg/geo/index_2d.go:96-100 | a coordinate lies in the span of its truncated cell exactly if it is nonnegative or an exact multiple of the grid size |
| GridIndex.TruncTowardZero | pkg/geo/index_2d.go:96-100 | cell numbers are rounded toward zero |
| GridIndex.DistanceIsEuclidean | pkg/geo/geometry.go:135-139 | the distance of a nearness query is the Euclidean one |
| GridIndex.PruningIsExact | pkg/geo/index_2d.go:221-233 | skipping cells loses nothing for any box exactly if every indexed coordinate is nonnegative or an exact multiple of the grid size |
| GridIndex.NegativePointMissed | pkg/geo/index_2d.go:96-100 | a box around a point just left of the axis misses it |
| GridIndex.BoxQueryIsBruteForce | pkg/geo/index_2d.go:201-218 | then a box query returns exactly the documents in the box |
| GridIndex.PolygonQueryIsBruteForce | pkg/geo/index_2d.go:179-198 | every polygon query answers as brute force does exactly if every indexed coordinate is nonnegative or an exact multiple of the grid size |
| GridIndex.PolygonAnswerIs | pkg/geo/index_2d.go:179-198 | the ids a polygon query returns are those of brute force exactly if it visits the cells of all documents inside |
| GridIndex.NearQueryIsBruteForce | pkg/geo/index_2d.go:136-161 | every nearness query considers exactly the documents within its distance under exactly the same condition |
| SessionModel.NextInv | pkg/database/session.go:361-448 | every savepoint counts at most the pending operations, so truncating to it is always in range |
| SessionModel.RollbackRestores | pkg/database/session.go:361-433 | rolling back to a savepoint that stayed alive restores operations, write set, read set and cache of its creation, through any recording, reading, nesting, release and rollback in between |
| SessionModel.RollbackSavepoints | pkg/database/session.go:424-430 | after it no savepoint created since is left, and an earlier one is left exactly if still alive and counting strictly fewer operations |
| SessionModel.ReleasedIsGone | pkg/database/session.go:437-448 | a released savepoint is gone and cannot be rolled back to; nothing else changes |
| SessionModel.EndedForGood | pkg/database/session.go:116-448 | once the transaction has ended, no run of calls changes operations, write set, read set or savepoints again |
| SessionModel.EarlierSavepointRemoved | pkg/database/session.go:424-430 | two savepoints in a row: rolling back to the second also removes the first |
| SessionModel.WriteSetMirrorsOperations | pkg/database/session.go:116-433 | the transaction's write set is always the last write per registered key of the pending operations, now and at every savepoint |
| SessionModel.CommitCoveredIff | pkg/database/session.go:62-100 | for every stretch of pending operations the registered writes are what a commit would apply, exactly if no update changes the id of its document |
| SessionModel.MovedIdNotRegistered | pkg/database/session.go:229-281 | an update that moves a document from one id to another registers only the old one |
| SessionModel.PendingIsReplay | pkg/database/session.go:170-194 | scanning the pending operations backwards for an id finds what replaying them forwards leaves for it |
| SessionModel.FindsById | pkg/database/session.go:160-226 | a find by id answers the pending effect, else the first-read snapshot, else the committed document |
| SessionModel.FindMeans | pkg/database/session.go:160-226 | a find by any filter: the newest own operation that answers it decides, else a document read before that passes, else the collection, whose answer alone is cached |
| SessionModel.RepeatableRead | pkg/database/session.go:160-226 | after a read by id, through any run in which the session neither writes the document nor rolls back, all later reads agree whatever others commit, exactly if the id is pending, or the read found a document and no find by any filter replaced its snapshot |
| SessionModel.FindReplacesExactly | pkg/database/session.go:160-226 | for every find in every state, the reads of a document already read and not pending stay the same exactly if the find is answered from the pending operations or the cache, or the collection answers nothing, another document or the same version |
| SessionModel.ReadByIdSpares | pkg/database/session.go:201-223 | reads by id never replace a snapshot already taken |
| SessionModel.OtherFilterReplacesSnapshot | pkg/database/session.go:201-223 | an example: a find by a field that matches only the version another writer committed since replaces the snapshot |
| SessionObject.Session.InsertOne | pkg/database/session.go:116-157 | refuses a stored id, and after the end of the transaction; otherwise records operation and write |
| SessionObject.Session.FindOne | pkg/database/session.go:160-226 | the reverse scan and the walk of the cache answer any filter as the model allows, and cache only what came from the collection |
| SessionObject.Session.UpdateOne | pkg/database/session.go:229-281 | finds, then records the changed document under the id found |
| SessionObject.Session.DeleteOne | pkg/database/session.go:284-314 | finds, then records the deletion of the id found |
| SessionObject.Session.CreateSavepoint | pkg/database/session.go:361-394 | captures the whole state; refuses a name in use and an ended transaction |
| SessionObject.Session.RollbackToSavepoint | pkg/database/session.go:398-433 | restores the captured state and walks the savepoints to remove those with at least as many operations |
| SessionObject.Session.ReleaseSavepoint | pkg/database/session.go:437-448 | forgets the savepoint and nothing else |
| DocLock.NextInv | pkg/database/doc_lock.go:55-126 | every step keeps: one lock object per id, stripe mutexes held only inside a lookup, and a thread holds exactly the locks it has taken and not released |
| DocLock.MutualExclusion | pkg/database/doc_lock.go:86-104 | two threads never hold the same document |
| DocLock.HoldsAll | pkg/database/doc_lock.go:108-126 | when LockMultiple has returned the thread owns the lock of every document it named and no other; when UnlockMultiple has, none |
| DocLock.TakesInOrder | pkg/database/doc_lock.go:108-118 | whatever a thread holds while it waits for a document is not above it |
| DocLock.AllReleased | pkg/database/doc_lock.go:120-126 | when all threads have finished no lock and no stripe mutex is held |
| DocLock.StripeHolderMoves | pkg/database/doc_lock.go:86-104 | a thread that holds a stripe mutex can always move |
| DocLock.HolderWantsHigher | pkg/database/doc_lock.go:108-118 | whoever holds what a thread is blocked on is itself blocked on a higher id |
| DocLock.DeadlockFree | pkg/database/doc_lock.go:108-126 | with duplicate-free lists no reachable state is stuck before everybody has finished |
| DocLock.RunIsShort | pkg/database/doc_lock.go:86-126 | no schedule is longer than eight steps per document and two per thread |
| DocLock.FinishesIffDuplicateFree | pkg/database/doc_lock.go:108-126 | every schedule that cannot go on has finished all threads exactly if no list names a document twice |
| DocLock.WaitsForItself | pkg/database/doc_lock.go:108-118 | one thread that names one document twice never finishes |
| Oplog.Log.Append | pkg/replication/oplog.go:105-134 | ids grow with every attempt; memory holds exactly the newest 10000 entries of the log |
| Oplog.Log.GetEntriesSince | pkg/replication/oplog.go:163-182 | returns the entries in memory after the id, which are all there are exactly if nothing newer was evicted |
| Oplog.SinceIsExact | pkg/replication/oplog.go:163-182 | the entries in memory after a token are all of the log's exactly if the last evicted entry is not newer than the token |
| Oplog.FirstEntryMissed | pkg/replication/oplog.go:163-182 | a log of 10001 entries from which asking for everything misses the first |
| ChangeStream.NextInv | pkg/changestream/change_stream.go:209-271 | at every step what has been emitted is exactly the matching entries passed so far, in order, without the lost ones |
| ChangeStream.DeliveredInOrder | pkg/changestream/change_stream.go:209-271 | in every schedule events arrive in strictly increasing order, each a matching entry after the start token |
| ChangeStream.Complete | pkg/changestream/change_stream.go:209-271 | a stream that has handled its fetch has emitted every matching entry up to it, in order and once, exactly if no step gave an event up or polled after a matching entry newer than the token had left memory unseen |
| ChangeStream.CompleteMeans | pkg/changestream/change_stream.go:209-271 | the entries emitted are then exactly those after the token that change something, are of the watched database and collection if named, and pass filter and pipeline |
| ChangeStream.PollLoses | pkg/replication/oplog.go:163-182 | a poll loses matching entries exactly if one newer than the token has left memory unseen |
| ChangeStream.LostExactly | pkg/changestream/change_stream.go:209-271 | at every moment of every run nothing is lost exactly if no step so far was a losing one |
| ChangeStream.FirstPollLoses | pkg/replication/oplog.go:163-182 | a stream resumed before the oldest of 10000 entries in memory loses the one entry before them at its first poll |
| ChangeStream.FetchIsTail | pkg/replication/oplog.go:163-182 | what the log returns to a poll is the tail of the log behind token and memory limit |
| StreamProgress.NeverStuck | pkg/changestream/change_stream.go:209-271 | at every moment of every run the watcher has a step to take |
| StreamProgress.BufferBounded | pkg/changestream/change_stream.go:254-268 | the buffer never holds more than its capacity |
| StreamProgress.GivenUpIfFull | pkg/changestream/change_stream.go:254-268 | an event is given up only if the buffer was full when its turn came |
| StreamProgress.PollsAreHandled | pkg/changestream/change_stream.go:209-271 | between two polls the watcher takes up each entry it has fetched exactly once |
| ChangeStream.ResumeExact | pkg/changestream/change_stream.go:157-162 | the events of a stream up to any delivered one followed by those of a stream resumed from its token are every matching entry once, exactly if the first lost none up to that event and no step of the second was a losing one |
| Mvcc.NextInv | pkg/mvcc/transaction.go:64-264 | every step, with commits installing key by key and reads making two lookups in between, keeps chains newest first, each version written by a transaction that had seen all older ones: no update is lost |
| Mvcc.ConflictIff | pkg/mvcc/transaction.go:99-125 | the two conflict tests of a commit come down to: someone committed a written key after the transaction began |
| Mvcc.SnapshotStable | pkg/mvcc/transaction.go:85-264 | in every run, commits and collections included, an active transaction sees the value of its snapshot exactly as long as no collection has taken the version it sees, and none from then on |
| MvccHistory.SnapshotIsolation | pkg/mvcc/transaction.go:64-264 | in every run from the start a transaction reads its own last write, else the value of the last transaction that wrote the key and had committed when it began, and nothing of any other; none once a collection has taken that version |
| MvccHistory.ReadLeavesMark | pkg/mvcc/transaction.go:174-209 | what a read leaves in the read set, whatever is committed between its two lookups, and that reading an own write leaves nothing |
| MvccHistory.FirstCommitterWins | pkg/mvcc/transaction.go:85-148 | a commit goes through exactly if no transaction that committed since it began wrote any key that it writes |
| MvccHistory.AlwaysCurrent | pkg/mvcc/transaction.go:127-135 | at every moment each key stands where the last commit that wrote it left it, aborted and failed transactions leaving nothing |
| Mvcc.CollectKeepsLookup | pkg/mvcc/version_store.go:115-150 | collecting leaves a reader's answer alone exactly unless its version is superseded, older than the limit and not a deletion |
| Mvcc.CollectedExactly | pkg/mvcc/version_store.go:115-150 | collecting keeps the newest version and exactly those not older than the limit |
| Mvcc.OldestExists | pkg/mvcc/transaction.go:250-264 | the limit of a collection always exists |
| Mvcc.CollectStep | pkg/mvcc/transaction.go:250-264 | the same for every active transaction and the limit the manager computes; a version taken leaves nothing to read |
| Mvcc.CollectTakesFromReader | pkg/mvcc/transaction.go:250-264 | a run from the start in which collecting takes the only version an active reader sees |
| VersionStore.Store.Put | pkg/mvcc/version_store.go:33-54 | snapshots from the new number on see the new value, older ones what they saw before; no older version is lost and no other key is touched |
| VersionStore.Store.GetVersion | pkg/mvcc/version_store.go:57-87 | the walk finds the newest version the snapshot may see; a deletion reads as absent |
| VersionStore.Store.GarbageCollect | pkg/mvcc/version_store.go:115-150 | unlinks, in every chain, exactly the versions behind the head that are older than the limit |

## Left out

- Index maintenance, query planning and execution of collections: they rest on storage and planner code outside these cores.
- Storage pages, write-ahead log, compression and encryption.
- The spherical index: trigonometry with an approximate prefilter.
- Application of a session's operations at commit, which continues past store errors by design, and the session pool.
- `Cleanup` of the lock manager, read locks, closing of change streams, and overlapping public calls of one coordinator.
- The disk-persistence fields of tree nodes, statistics, printing and hit-rate formatting.
- The content of change events beyond the log entry: descriptions of updates and full-document options.
- HTTP, GraphQL, authentication, clients, import and export.
- Rings that are not convex: what ray casting accepts there is stated by its parity and its bounds only.
- IsEmpty of the lock-free stack: one load of the head, as in Peek.
- Tree keys of mixed types: the tree's own comparison calls them equal, which is outside its contract.
- NaN, infinities and rounding: floats are reals in geometry and keys, and bit patterns in the codec.
- Copying and aliasing: maps and documents a savepoint or a version chain copies are values here.
- BsonRoundTrip.DocumentRoundTrip: for encodings below 2^31 bytes, the largest length the format's int32 headers can state, and without `time.Time` values, for which the encoder expects an int64.
- BsonExact.RoundTripExactly: the same length limit and value types.
- BsonCodec.Encoder.Encode: arrays are written item by item under their index keys instead of through a temporary document.
- GridIndex.Index2D.FindNear: the square root is a parameter with the defining property of a real square root.
- SessionObject.Session.FindOne: the collection's own answer is a parameter; documents always carry an `_id`, as inserted documents do.
- Oplog.Log.Append: serialisation and file access are a flag that says whether the write succeeded.
- Mvcc.NextInv: transactions are values; a step is what one mutex makes atomic, and mutexes are reduced to which steps they let interleave.
- TwoPhaseDatabases.ExecuteOverDatabases: sessions are started before Execute; the session's own commit is reduced to success or conflict.
