# A verified model of go-mock-redis

This project models the storage engine of go-mock-redis and three pieces around it, and proves what they do
over all inputs and all runs:

- the incrementally rehashed hash table (`Dict*.dfy`),
- the compressed radix tree (`Rax*.dfy`),
- the RESP3 parser and the request and bulk-reply writers (`Resp*.dfy`, with `MapFill.dfy` for Go maps),
- approximated LRU eviction and the keyspace on two hash tables (`Lru.dfy`, `LruEvict.dfy`, `Keyspace*.dfy`),
- the SET option grammar and command (`StrCmd.dfy`),
- the doubly linked list and its iterators (`DList.dfy`),
- the buffered writer on a non-blocking socket (`Conn.dfy`, `ConnObjects.dfy`).

`dafny verify dfyconfig.toml` checks the whole project.

## How it is built

Where the source updates in place, the model does: `DictHeap.HashTable` splices `Entry` objects along `Next`
links in two arrays, `DList.List` rewrites `Prev` and `Next`, `LruEvict.LRU` shifts its array of slots, and
`Keyspace.RedisDb`, `RaxTrees.RaxTree`, `ConnObjects.Registry` and `ConnObjects.DefaultBufferedConn` update
their fields. Each such method is proved equal to a function on values; the properties are lemmas about those
functions, so they carry over to the objects. The keyspace is built on two hash tables in that form: its dict
goes through AddRaw, SetVal, GetEntry and Delete, its expiries through Set, GetEntry and Delete, as in db/db.go.

The model does what the code does. In several places that is not what the code's comments, its tests or the
RESP3 specification say. There the code is kept, a lemma says for exactly which inputs it meets its purpose,
and where it helps, a concrete input that fails is given:

- Set searches only the new table during a migration (db/dict.go:74-100). `DictCalls.Stale` reads off the
  state which calls this harms; every other call is a map update. A stale update is answered correctly at
  first, and lost some Sets later (`DictStale.StaleSetIsLost`); then a Delete reports the key gone and the lost
  value answers again (`DictStale.StaleSetSurvivesDelete`). Nine Sets on a new table can be enough
  (`DictStale.StaleIsReachable`). What any run makes of a table, stale calls and all, is `DictLists.RunLists`,
  and of the keyspace `KeyspaceLists.RunAnswers`.
- AddRaw links one entry into both tables when the new bucket is empty and the key absent (db/dict.go:267-294).
  If the old bucket is still to be migrated, its migration ties the entry into a ring on which a search never
  ends (`DictHang.AddIntoRing`), and a call that comes there leaves the migration where it is for ever
  (`DictHang.NextCallHangs`); if not, lookups stay right (`DictTwice.PastTwice`). AddRaw also reports a
  fresh key as existing when its bucket is in use (db/dict.go:279-283, 301-306).
- Delete never decrements Count (db/dict.go:166-209), and overwrites leave the memory counter off by an amount
  `DictRuns.Drift` and `KeyspaceRuns.Drift` give exactly.
- So the keyspace does not always keep expiries to stored keys: it does exactly as long as no call breaks one
  of the tables (`KeyspaceRuns.RunStaysSound`), and a run that breaks one, from an empty database on, leaves an
  expiry without a value (`KeyspaceBreaks.OrphanIsReachable`).
- The radix tree's Insert restarts at the root after each full match (db/rax.go:172) and so stores what is left
  of the key (`RaxInsert.Strip`). Find and Delete take a partly matched label for a match (`RaxDelete.Slips`).
  Delete drops the children of the node it removes and lets a parent, the root too, swallow an only child under
  a stale label (db/rax.go:279-289). `RaxDelete.Clean` is the exact guard, `RaxPaths.EveryDelete` says what every
  other deletion does, and `RaxOrdered` what the calls after it do.
- The parser leaves a byte of Boolean and Null and two of Verbatim unread, and takes the length of a BlobError
  for its message (resp/resp3.go:101-121). `RespRoundTrip.RoundTripExact` shows that these four types are the
  only obstacle.
- Bulk replies give their length in runes, not bytes (node/object.go:15-17).
- PerformEvictions neither fills the pool again nor gives up (db/lru.go:146-167): it returns exactly when the
  pool can free enough before it comes to an expiry without a value. EvictFail (db/evict.go:18) is never
  returned.
- A syntax error does not stop SET (node/strcmd.go:182, 258-261), a plain SET keeps the old expiry against the
  comment at node/strcmd.go:125, and an expire argument that comes from a client is a raw string and always
  "invalid" (node/object.go:36-41).
- InsertNode before a node that is not the head panics half way (db/dlist.go:83).
- Accepted connections get no `poll` (node/poll_unix.go:267-270), so the first short write panics.

## Model

| member | source | states |
|---|---|---|
| DictRefinement.RehashStepConserves | db/dict.go:140-164 | A migration step, also the one that swaps the tables, changes no lookup and keeps the total of every weight over all entries (hence their multiset), each entry in its hash bucket, each key in one chain of one table, and the migrated buckets empty |
| DictRefinement.MigrateBucketSpec | db/dict.go:142-154 | Moving one bucket keeps the same invariant, every lookup through both tables and every weight |
| DictRefinement.MoveFind | db/dict.go:144-152 | After the head insertions of a whole chain the new table answers the moved keys as the chain did and all others as before |
| DictRefinement.NewBucketComesFromOld | db/dict.go:147-149 | An entry of new bucket j came from old bucket j mod Size |
| DictCalls.SetExact | db/dict.go:59-128 | Set keeps one map over two tables iff the call is not stale; its lookups are always those of a map update; every weight changes by the new entry less the replaced one |
| DictCalls.DeleteExact | db/dict.go:166-209 | At any point of a migration Delete removes its key only and reports whether it was present |
| DictCalls.SetCounters | db/dict.go:79-82 | Count grows iff the key is absent or overlooked; the memory counter drifts from the entries by the stated amount |
| DictCalls.DeleteCounters | db/dict.go:179-209 | Delete leaves Count alone and gives back exactly the memory of the entry removed |
| DictAdd.AddRawExact | db/dict.go:251-310 | AddRaw keeps one map over two tables iff it is neither stale nor links its entry twice; it adds an absent key with the zero value and leaves every other key, and a present key unless stale, as it was; every weight grows by the new entry |
| DictAdd.SetFoundExact | db/dict.go:329-335 | SetVal on what GetEntry found overwrites a present key in whichever table holds it, and nothing else |
| DictAdd.AddExact | db/db.go:207-214 | AddRaw followed by SetVal is the map update under the same condition; when AddRaw returned the old entry instead of its new one the value is lost |
| DictAdd.AddCounters | db/dict.go:281-282 | After that pair Count is right and the memory counter is too high by the value overwritten |
| DictAdd.ReturnedIs | db/dict.go:277-309 | On a good table AddRaw reports every present key and returns its value, unless a stale call has just made a new entry for it |
| DictAdd.ReportedIff | db/dict.go:266-309 | On any table AddRaw reports a key, present or not, iff some entry is in one of its buckets |
| DictRuns.RunStaysGood | db/dict.go:59-344 | A run of Set, Add, SetVal and Delete keeps one map over two tables at every point iff no call of it is stale or links twice when its turn comes |
| DictRuns.RunRefinesMap | db/dict.go:59-344 | Stopped anywhere, such a run answers every lookup as the map the same operations build, holds one entry per key, and Count exceeds the size of the map by the deletions |
| DictRuns.RunDrifts | db/zmalloc.go:13-30 | Over such a run the memory counter is the memory of the live entries plus the drift of the overwrites |
| DictLists.RunLists | db/dict.go:59-344 | Over any run, stale calls and later calls of the same key included, every key has in its old and in its new bucket exactly the values that the calls leave there one by one, and a lookup answers with the first of the new ones or else of the old ones |
| DictLists.RunCharges | db/zmalloc.go:13-30 | Over any run Count and the memory counter move by a sum of charges, one for each call, read off its own key's values in the two buckets |
| DictLists.SetAnswers | db/dict.go:74-128 | On any table a Set answers for its key at once, and for every other key as its migration step does |
| DictLists.SetFoundAnswers | db/dict.go:329-335 | So does SetVal on what GetEntry found, without a step |
| DictLists.AddRawAnswers | db/dict.go:266-309 | AddRaw shows the zero value where the step leaves nothing to be found, and where it links into the new table before the old one |
| DictLists.ReturnedIsFirst | db/dict.go:277-309 | On any table AddRaw returns the first of the key's values in the chain it looks in, or zero |
| DictLists.LastSetAnswers | db/dict.go:74-100 | However often a key is set again after a stale Set, the last value answers as long as the migration has not come to its old bucket |
| DictLoad.RunFromNew | db/dict.go:44-50 | The same from NewHashTable; Count is the size of the map iff nothing was deleted |
| DictLoad.RehashesIff | db/dict.go:61-72 | On any table an inserting call moves the migration on by ten buckets or ends it with twice the size, and begins one iff none is under way and Count exceeds seven tenths of Size; other calls do neither |
| DictLoad.SetKeepsLoadBounded | db/dict.go:61-72 | Every Set keeps 10 Count at most 7 Size when idle and at most 7 Size + 10 + RehashingIdx during a migration, so no migration is needed before the last has ended |
| DictLoad.AddRawKeepsLoadBounded | db/dict.go:253-263 | So does AddRaw iff it does not link twice or the table was ten below the bound |
| DictLoad.DeleteKeepsLoadBounded | db/dict.go:166-176 | So does Delete |
| DictLoad.StepKeepsLoadBelow | db/dict.go:61-66 | From tables that share no entry, every call, whatever it breaks, keeps 10 Count at most 7 Size when idle and at most 7 Size + 10 + 2 RehashingIdx during a migration |
| DictLoad.RunKeepsLoadBelow | db/dict.go:59-344 | So does every run to the end of a migration in which no AddRaw links twice on a bucket that is still to be migrated |
| DictLoad.RunKeepsLoadBounded | db/dict.go:59-344 | Through any number of migrations, stale calls included, a run in which no AddRaw links twice keeps the tighter bound |
| DictLoad.MigrationTakes | db/dict.go:130-163 | Over any run in which no AddRaw links twice on a bucket still to be migrated, inserting calls (Set, and AddRaw with SetVal) move ten buckets each and other calls none; with the ceiling of (Size - RehashingIdx) / 10 of them the table is the doubled one, and idle iff it is within its load limit then |
| DictLoad.MigrationEndsIdle | db/dict.go:130-163 | Hence from four buckets on such a run ends the migration with the doubled table idle and within its limit, before another is needed |
| DictStale.MigrateFind | db/dict.go:140-155 | After n moved buckets the new table holds exactly what it held or what those buckets held |
| DictStale.StaleSetIsLost | db/dict.go:74-100 | After any stale Set, the Sets that carry the migration past the key's old bucket bring its old value back |
| DictStale.StaleSetSurvivesDelete | db/dict.go:188-193 | After those Sets a Delete of the key reports that it was there, and the key still answers, with the value of the stale Set |
| DictStale.StaleIsReachable | db/dict.go:59-128 | Some run of nine Sets on a new table contains a stale one |
| DictStale.LinksTwiceIsReachable | db/dict.go:266-304 | Eight Sets on a new table can lead to an AddRaw that links twice, on a bucket not yet migrated, and breaks the load bound |
| DictHeap.StoreInChain | db/dict.go:84-98 | The loop along Next overwrites the first entry for the key or links a new last one |
| DictHeap.RemoveFromChain | db/dict.go:188-205 | The unlinking walk bypasses the first entry for the key and leaves the rest linked in order |
| DictHeap.FindInChain | db/dict.go:225-238 | The search loop returns the first entry for the key, or nil iff there is none |
| DictHeap.DeleteFromTable | db/dict.go:179-209 | Deletes the key's first entry from its bucket and leaves all other buckets and the other table's entries linked |
| DictHeap.PushFront | db/dict.go:145-151 | One turn of the inner migration loop on any pointers |
| DictHeap.MoveEntries | db/dict.go:144-152 | The inner migration loop moves a whole linked chain to the new table as MoveChain does |
| DictHeap.StoreAgain | db/dict.go:290-308 | That walk on any two tables: the second link ends the old chain and no other bucket of either table changes |
| DictHeap.HashTable.constructor | db/dict.go:44-50 | A new table has initSize empty buckets and no migration |
| DictHeap.HashTable.StartRehashing | db/dict.go:130-136 | Doubles the size for a new table of empty buckets, unless a migration is running |
| DictHeap.HashTable.RehashStep | db/dict.go:140-164 | The loops over linked entries compute RehashStep on the contents |
| DictHeap.HashTable.Set | db/dict.go:59-128 | Set on linked entries is the function Set on the contents of both tables, counters included |
| DictHeap.HashTable.Delete | db/dict.go:166-176 | Likewise Delete, with its result |
| DictHeap.HashTable.GetEntry | db/dict.go:221-241 | Returns the linked entry at which the search of both tables stops; its value is what Lookup says |
| DictHeap.HashTable.AddRaw | db/dict.go:251-310 | On every call the new contents, from which table the returned entry is, and whether the key is reported; a call that links twice leaves the table doubled, any other one valid |
| DictHeap.HashTable.AddEntry | db/dict.go:272-309 | The walk that writes one table only: the only one, or the new one where its bucket is in use |
| DictHeap.HashTable.AddToEmpty | db/dict.go:266-304 | With an empty new bucket, the new entry goes there, and the walk of the old table returns the key's old entry or links the new one a second time, counted and charged again |
| DictHeap.HashTable.SetVal | db/dict.go:329-335 | Writing through an entry pointer changes that key's value in the entry's own table, in both tables for an entry they share, charges the value on top, and leaves everything else linked as it was |
| DictHeap.HashTable.Add | db/db.go:207-214 | AddRaw and then SetVal through the pointer it returned, as one function on the contents, on every call; one that links twice leaves the table doubled, any other one valid |
| DictHeap.HashTable.Overwrite | db/db.go:218-231 | GetEntry and then SetVal through the pointer it returned, likewise |
| DictTwice.MoveOtherBucket | db/dict.go:141-155 | Migrating another bucket leaves both links of a twice-linked entry as they are |
| DictTwice.TieRing | db/dict.go:144-152 | Migrating its own old bucket, whatever other entries that holds, makes its new bucket a ring through it, and ends there: the next pointer was nil |
| DictTwice.SearchTurns | db/dict.go:225-229 | The search loop on a ring without the key is still going on after any number of turns |
| DictTwice.RingIsNoChain | db/dict.go:225-229 | No finite run of Next links from a ring ends in nil |
| DictTwice.MigratePast | db/dict.go:157-163 | After a twice-linking call on a migrated bucket, the rest of the migration leaves a valid table |
| DictTwice.PastTwice | db/dict.go:140-164 | There every lookup is right at every point of the rest of the migration, and the table is good again after the swap |
| DictHang.SetElsewhere | db/dict.go:59-104 | Between the call that links an entry twice and the one that migrates its bucket, Set of a key with another new bucket is the function Set and leaves both links as they are |
| DictHang.AddRawElsewhere | db/dict.go:251-310 | So is AddRaw of such a key, unless it links another entry twice |
| DictHang.StepIntoRing | db/dict.go:140-164 | The migration step that comes to the bucket makes the new one a ring of entries of the old one, goes on past it to the tenth bucket, and swaps the tables at the end |
| DictHang.AddIntoRing | db/dict.go:251-310 | AddRaw that links twice on a bucket still to be migrated, any Sets and AddRaws that stay away from it, and the step of the call that comes to it: the new bucket is a ring, on which no key is that was absent |
| DictHang.SearchHangs | db/dict.go:84-98 | The search of that call for an absent key of the same new bucket is still on the ring after any number of turns, and RehashingIdx stays |
| DictHang.NextCallHangs | db/dict.go:59-128 | On a new table, Sets that fill a bucket of the second ten and begin a migration, an AddRaw and a Set lead to that search |
| DictHang.TieIsReachable | db/dict.go:266-304 | Sixteen Sets on a new table of twenty-two buckets lead to such an AddRaw; the values alone would have the migration end three calls later |
| Rax.LongestCommonPrefix | db/rax.go:314-322 | Returns the longest common prefix |
| Rax.WalkEdge | db/rax.go:106-127 | The binary search finds the edge with the first byte of the text and the longest common prefix, or the place where such an edge belongs |
| Rax.FindClosestPrefixIndex | db/rax.go:69-90 | The binary search of addEdge returns the place by first byte, if no label shares that byte without one text being a prefix of the other; beside a single label it goes behind iff that one is smaller and neither is a prefix of the other |
| RaxInsert.InsertGet | db/rax.go:152-208 | Insert gives the value to what is left of the key after root labels are cut off its front, and changes no other lookup |
| RaxInsert.StripsIff | db/rax.go:172-184 | Something is cut off iff some root label is a prefix of the key |
| RaxInsert.StripIs | db/rax.go:172-184 | What is left is the one ending of the key that no root label is a prefix of and that only root labels stand before |
| RaxInsert.InsertExact | db/rax.go:152-208 | Insert is the map update iff no root label is a prefix of the key, or both the key and what is left of it have that value already |
| RaxInsert.PlaceCanonical | db/rax.go:174-206 | The new leaf, the split and the new root leaf keep edges sorted with distinct first bytes, labels equal to prefixes, and no idle inner node |
| RaxInsert.PlaceLeaves | db/rax.go:163-206 | The number of leaves grows by one iff nothing was stored there |
| RaxInsert.SplitNode | db/rax.go:186-203 | The split node has the old node's rest and the new leaf as edges in the order that addEdge gives them, or takes the leaf itself |
| RaxDelete.FindExact | db/rax.go:210-234 | Find is right iff its walk does not end at a leaf or never matched a label in part; it never misses a stored key |
| RaxDelete.BarePrefixIsFound | db/rax.go:215-222 | Every stored key whose last label has two bytes or more is found under itself less its last byte |
| RaxDelete.DeleteExact | db/rax.go:236-293 | Delete reports rightly and removes its key alone iff the call is clean: the walk ends at no leaf, or without a partial match at a childless leaf whose parent need not merge |
| RaxDelete.LostByMerge | db/rax.go:282-289 | A deletion after which the parent merges loses another stored key |
| RaxDelete.LostBelow | db/rax.go:278-279 | A deletion of a node with children loses a key below it |
| RaxDelete.UncleanLoses | db/rax.go:236-293 | Every deletion that is not clean, on a walk without a partial match, loses another stored key |
| RaxDelete.CleanKeepsCanonical | db/rax.go:278-289 | A clean deletion keeps the tree canonical |
| RaxDelete.CleanLeaves | db/rax.go:291-292 | and takes away one leaf iff it deleted, so size stays the number of leaves |
| RaxPaths.FindReadsPath | db/rax.go:210-234 | On every tree that deletions of any kind leave, Find returns what is stored under the full labels of its walk, right or wrong |
| RaxPaths.EveryDelete | db/rax.go:236-293 | On every such tree, after any deletion, every key reads exactly what it should: nothing behind the labels of the walk, what it did before elsewhere, and if the parent merged, what was stored behind the other child's label without that label |
| RaxPaths.DeleteWithoutSlip | db/rax.go:275-289 | Without a partial match, by keys alone: all keys that begin with the deleted one are gone and no others, unless the parent merges; then those that run through the parent are read without the sibling's label, and the rest stay |
| RaxOrdered.RemovedOrdered | db/rax.go:275-292 | A deletion of any kind leaves such a tree: edges sorted with distinct first bytes, each label a beginning of its node's prefix, no idle inner node; all leaves of the deleted node go, while size drops by one |
| RaxOrdered.EveryInsert | db/rax.go:152-208 | Unless it tangles, an insert gives the value to what is left of its key, and every other key reads what it did, but for those behind a split edge, which are read under their node's prefix from then on |
| RaxOrdered.InsertedOrdered | db/rax.go:174-206 | It leaves such a tree again, with one leaf more unless it overwrote the root's |
| RaxOrdered.TangledLoses | db/rax.go:186-205 | An insert tangles when it uses up a label shorter than its node's prefix and goes on with that prefix's next byte: then its own value is not under its key, or every key behind the old node is lost |
| RaxOrdered.RunReads | db/rax.go:152-293 | Along any run in which no insert tangles, right and wrong calls in any order, every call reads as stated |
| RaxUnique.LabelsAgree | db/rax.go:181-206 | In canonical trees with equal contents the label of the one is a prefix of the other's label for the same first byte, and by symmetry equal to it |
| RaxUnique.CanonicalIsUnique | db/rax.go:181-206 | Canonical trees with equal contents are the same tree |
| RaxUnique.InsertsCommute | db/rax.go:152-208 | Two inserts of different keys that begin with no root label of the tree give the same tree in either order iff neither begins with the root label that the other one makes, its own text or what it shares with the label it splits |
| RaxUnique.DeleteUndoesInsert | db/rax.go:236-293 | Deleting a freshly inserted key gives the old tree back iff no stored key has the same first byte and the root need not merge afterwards |
| RaxRuns.RunIsRight | db/rax.go:152-293 | A run stores the map of its calls at every point, canonically and with right reports, iff each insert is a map update and each deletion clean when its turn comes |
| RaxRuns.RunStoresMap | db/rax.go:152-293 | Such a run from the empty tree ends with exactly the map the same calls build, one leaf for each key |
| RaxRuns.SameMapSameTree | db/rax.go:152-293 | Two such runs from the empty tree that build the same map build the same tree |
| RaxTrees.RaxTree.constructor | db/rax.go:144-146 | The new tree is an empty root |
| RaxTrees.RaxTree.Insert | db/rax.go:152-208 | The loop yields the function Inserted on every tree that deletions of any kind leave; size grows iff a leaf was added, which is what it reports; a canonical tree stays canonical with size its number of leaves |
| RaxTrees.RaxTree.Find | db/rax.go:210-234 | The loop yields Found, on the same trees |
| RaxTrees.RaxTree.Delete | db/rax.go:236-293 | The walk, the removal and the merging yield Removed, on the same trees, and leave such a tree; size drops iff it deleted; a clean call keeps a canonical tree canonical and size right; it panics iff the empty key meets a root that is a leaf |
| RaxTrees.MergeUp | db/rax.go:282-289 | The merge loop yields Merge |
| RaxTrees.InsertMisplaces | db/rax.go:172-184 | "a" stored, then "ab" inserted: the value is under "b" |
| RaxTrees.DeleteMergesRoot | db/rax.go:282-289 | "a" and "b" stored, then "b" deleted: "a" is lost |
| RaxTrees.OrderMatters | db/rax.go:172-184 | "a" then "ab" is not "ab" then "a" |
| RaxTrees.SplitIsNotUndone | db/rax.go:186-205 | "ab" stored, "ac" inserted and deleted again: another tree |
| RaxTrees.MergeIsNotUndone | db/rax.go:282-289 | "a" stored, "b" inserted and deleted again: another tree |
| RaxTrees.TangleIsReachable | db/rax.go:282-289 | "ab", "ac" and "d" stored, then "ab" deleted: an insert of "acd" tangles |
| RespText.SplitFirst | resp/resp3.go:73-73 | Splitting at the first CRLF undoes appending a CRLF to a text that holds none, whatever follows |
| RespText.AtoiDec | resp/resp3.go:74-74 | Reading a printed 64-bit integer gives it back |
| RespBytes.DecIsDecimal | resp/resp3.go:195-200 | A printed number has decimal digits only, no leading zero, and their value |
| RespBytes.AtoiExact | resp/resp3.go:74-74 | What any text reads as, with sign, trailing garbage and numbers out of range |
| RespText.Ll2String | node/object.go:50-68 | The filled buffer is prefix, decimal number and CRLF |
| RespWire.ReadsHead | resp/resp3.go:83-92 | A header line is read back as its number, with the rest left |
| RespWire.ScalarReads | resp/resp3.go:83-130 | What each scalar encoding parses to and which bytes of it stay unread, exactly |
| RespBytes.LineTypes | resp/resp3.go:95-128 | The bytes 43, 45, 58, 44, 40 and 33 before any line, and the value that each gives |
| RespBytes.LengthTypes | resp/resp3.go:83-121 | The bytes 36 and 61 before a length, what they take of the bytes after the line, and when they panic |
| RespBytes.AggregateTypes | resp/resp3.go:131-188 | The bytes 42, 126, 62, 37 and 124 before a number, and how many values they take |
| RespBytes.FixedTypes | resp/resp3.go:101-110 | The bytes 35 and 95, and every byte that is no type |
| RespBytes.NoLinePanics | resp/resp3.go:71-73 | Bytes without a line end make every other type panic |
| RespBytes.PairsAre | resp/resp3.go:149-149 | The pairs that a map's loop reads for any 64-bit number, overflow included |
| RespBytes.KeysThatPanic | resp/resp3.go:148-155 | A map panics iff a key is an array, a set, a push or a map |
| RespBytes.FillKeepsLast | resp/resp3.go:148-155 | Of repeated keys the last value stays |
| Resp.ParseLeavesSuffix | resp/resp3.go:70-191 | On any bytes the parser panics, or leaves a suffix of them, and a proper one unless it returned nil |
| Resp.ManyLeaveSuffix | resp/resp3.go:78-80 | So does a loop over count values |
| RespRoundTrip.RoundTrip | resp/resp3.go:70-191 | Every message without Null, Boolean, Verbatim and BlobError, nested to any depth and before any bytes, parses to its value and leaves those bytes |
| RespRoundTrip.RoundTripAll | resp/resp3.go:78-80 | Concatenated messages are recovered one by one in order, and an aggregate loop consumes exactly count of them |
| RespRoundTrip.RoundTripExact | resp/resp3.go:101-121 | Without attributes and with distinct keys that are no BlobErrors, a message parses back iff it holds none of those four types |
| RespRoundTrip.UncleanIsOff | resp/resp3.go:101-121 | Otherwise the parse panics, yields another value, or leaves junk before the next message |
| RespIO.ParseRESP | resp/resp3.go:70-191 | The recursive parser with its loops computes Parse |
| RespIO.ParseElements | resp/resp3.go:77-81 | The element loop computes ParseMany |
| RespIO.ParsePairs | resp/resp3.go:148-155 | The pair loop fills a Go map from 2 n values, and panics on a key that cannot be hashed |
| RespIO.ConvertToRESP | resp/resp3.go:193-210 | The builder holds the specified encoding of an array of blob strings |
| RespIO.RequestParses | resp/resp3.go:193-210 | Any command and arguments, CRLF and type bytes in them included, parse to exactly those strings, with any bytes after them left |
| RespBytes.RequestBytes | resp/resp3.go:193-210 | The request byte by byte: 42, the number of strings, and for each 36, its length and its bytes |
| RespIO.RunesAreBytes | node/object.go:15-17 | The length in runes is the length in bytes iff no rune takes more than one byte |
| RespRunes.CountsCodePoints | node/object.go:15-17 | The runes of an encoded text are its code points, by section 3 of RFC 3629 |
| RespRunes.RuneIs | node/object.go:15-17 | Anywhere in any bytes the next rune takes the bytes of the code point that is encoded there, or one byte if there is none |
| RespIO.AddReplyBulk | node/client.go:244-248 | Writes header, bytes and CRLF |
| RespBytes.BulkReplyBytes | node/client.go:244-248 | 36, the length in runes, the bytes, and both line ends |
| RespIO.BulkReplyExact | node/client.go:244-248 | A bulk reply parses back to its string iff no rune of it takes more than one byte |
| RespIO.AsciiIsNarrow | node/object.go:15-17 | ASCII strings are such strings |
| KeyspaceRuns.SetKeyPanics | db/db.go:207-231 | On a sound keyspace SetKey panics iff it names an absent key as existing, or adds or updates an absent key whose bucket is in use or a present one that AddRaw overlooks while its new bucket is in use |
| KeyspaceRuns.ApplyExact | db/db.go:59-141 | A call leaves both tables good, no nil value and expiries for stored keys only, iff it is no stale SetExpire and no SetKey whose AddRaw is stale or links twice; its effect on lookups, that call included, is its own key's alone |
| KeyspaceRuns.RunStaysSound | db/db.go:59-231 | A run keeps the keyspace sound at every point iff no call of it breaks a table when its turn comes |
| KeyspaceRuns.RunRefinesMaps | db/db.go:59-231 | Such a run shows exactly the two finite maps that the same calls build, so that only keys with a value expire and calls touch their own key |
| KeyspaceRuns.RunUsed | db/zmalloc.go:13-53 | Over such a run the one counter is the estimate of the live entries of both tables plus a key for each SetExpire that overwrote an expiry in the only table |
| KeyspaceRuns.CounterIsSizes | db/zmalloc.go:13-53 | From a new database on, that is 16 bytes and the length for each key with a value and again for each with an expiry, plus that drift |
| KeyspaceRuns.NewIsSound | db/db.go:41-47 | A new database is sound and empty and charges nothing |
| KeyspaceLists.CallComesTo | db/db.go:59-231 | On any two tables, broken ones included, a call that does not panic comes to the stated calls on each of them |
| KeyspaceLists.CallPanicsIff | db/db.go:59-231 | On any two tables: the calls that panic |
| KeyspaceLists.RunAnswers | db/db.go:59-231 | After any run that does not panic, whatever it broke, every key's value and expiry are the first of what the calls left in its buckets |
| KeyspaceLists.RunChargesBoth | db/zmalloc.go:13-53 | and the one counter moved by what they charged to both tables |
| KeyspaceBreaks.StaleExpireOrphans | db/db.go:106-141 | After any stale SetExpire, SetExpires of other stored keys bring the key's old expiry back, and then GenericDelete takes its value and leaves an expiry |
| KeyspaceBreaks.OrphanIsReachable | db/db.go:106-141 | A run from a new database ends with an expiry without a value |
| Keyspace.RedisDb.SetKey | db/db.go:59-87 | Both tables afterwards as a function of those before and the flags, or a panic |
| Keyspace.RedisDb.AddInternal | db/db.go:207-216 | AddRaw and SetVal through the entry it returned, with the old access time where AddRaw reported the key and an update was asked for, or a panic where that entry is new |
| Keyspace.RedisDb.SetValue | db/db.go:218-231 | SetVal on what GetEntry finds, with its access time; panics on none or a nil object |
| Keyspace.RedisDb.SetExpire | db/db.go:106-115 | Set on the expiry table, only for a key that the dict answers |
| Keyspace.RedisDb.RmExpire | db/db.go:118-127 | Delete on the expiry table, likewise |
| Keyspace.RedisDb.GenericDelete | db/db.go:130-141 | Delete on the dict and, if that found the key, on the expiry table |
| Keyspace.RedisDb.LookupKeyWrite | db/db.go:182-200 | Reports presence and refreshes the access time of the object found; panics on nil |
| Lru.ClockIsAlwaysPrecomputed | db/lru.go:45-53 | No frequency makes lruClock turn to the system clock |
| Lru.IdleTracksAge | db/lru.go:61-68 | The estimate is a thousand for each tick of the age modulo 2^24, less one tick after a wrap-around; it is monotone in the age and never puts an object before one older by more than a tick |
| Lru.OfferContents | db/lru.go:100-126 | An offer is dropped, inserted in order, or inserted in order with the least idle slot given up |
| Lru.PoolHoldsTop | db/lru.go:97-127 | After any offers with nonempty keys the pool is filled from the left, ascending, and its idle times are the EVPOOL_SIZE largest offered, with multiplicity |
| Lru.EmptyPoolHoldsTop | db/lru.go:28-33 | So it is at first |
| Lru.EmptyKeyBreaksPool | db/lru.go:102-126 | An offer of the empty key keeps the pool in order iff it is dropped, or lands in the first free slot or, in a full pool, last |
| Lru.OfferKey | db/lru.go:100-126 | The slot search and the shifts in the array compute Offer |
| LruEvict.LRU.EvictionPoolPopulate | db/lru.go:93-128 | Populating offers each sampled key with its idle time in turn, and panics iff Get gives no object for one |
| LruEvict.OfferedIdle | db/lru.go:61-68 | A sampled key is offered with 1000 for each tick since its object's access |
| LruEvict.EvictReturnsIff | db/lru.go:141-185 | On any two tables that share no entry, broken ones included, the loop returns iff one pass over the pool from its most idle key down, which deletes each key as often as it has an expiry and a value and ends at an expiry without one, frees enough |
| LruEvict.FreeableOnGood | db/lru.go:141-185 | On good tables that pass deletes each key once, for twice its size |
| LruEvict.EvictFrees | db/lru.go:141-185 | On any such tables: when it returns it freed exactly the drop of the counter, and changed the lookups of pool keys with a value and an expiry only |
| LruEvict.MostIdleIsEvicted | db/lru.go:153-166 | A turn picks a slot whose key expires, and no slot whose key expires is idle for longer; it picks none iff there is none |
| LruEvict.EvictIsOnePass | db/lru.go:141-185 | On good tables the loop, which scans the whole pool again after each deletion, evicts what one pass from the most idle slot down does that stops as soon as enough is freed |
| LruEvict.EvictKeepsGood | db/lru.go:168-184 | On good tables those keys are gone from both, the tables stay good, and a sound keyspace sound |
| LruEvict.PerformEvictionsExact | db/lru.go:131-188 | On any two tables that share no entry it returns iff memory is within bounds or that pass can free the excess; then memory is within MAX_MEMORY and the reported amount is the counter's drop |
| LruEvict.BestIsOldest | db/lru.go:97-127 | After populating an empty pool, its best entry is a sampled key, and no sampled key's object was accessed longer ago than that key's by more than one tick of the 24-bit clock |
| LruEvict.DeletedAny | db/db.go:130-141 | On any two tables that share no entry GenericDelete leaves other keys alone, makes none up, and changes nothing when it reports nothing |
| LruEvict.LRU.Perform | db/lru.go:131-188 | The loop on the database object computes PerformEvictions |
| LruEvict.LRU.EvictBest | db/lru.go:147-184 | One turn: the best key is deleted and the drop of the counter returned, unless there is none or it has no value |
| LruEvict.LRU.BestKey | db/lru.go:153-166 | The backward scan returns the most idle key that has an expiry |
| StrCmd.ParseExtendedStringArgumentsOrReply | node/strcmd.go:165-265 | The option loop computes Parse |
| StrCmd.PlainOptions | node/strcmd.go:192-218 | NX, XX, GET and KEEPTTL in any case are taken by SET alone and PERSIST by GET alone, and no other word stands alone |
| StrCmd.TimedOptions | node/strcmd.go:219-257 | EX, PX, EXAT and PXAT take the next argument for both, in seconds or milliseconds |
| StrCmd.ParseExact | node/strcmd.go:165-265 | A list is accepted iff it splits into known, pairwise compatible option groups; on success NX and XX exclude each other, one kind about the time to live occurs at most, expire is there iff a timed option is, and the unit is milliseconds iff PX or PXAT is |
| StrCmd.ParseLongest | node/strcmd.go:177-262 | On any list the flags, expire argument and unit are those of its longest acceptable beginning; what stands there is replied to as a syntax error, and stops the command iff it is no string |
| StrCmd.OrderIsIrrelevant | node/strcmd.go:177-262 | The order of the groups changes neither acceptance, flags nor unit, nor the expire argument unless different timed groups compete |
| StrCmd.ExpiryExact | node/strcmd.go:268-284 | An expiry is accepted iff it is a positive number up to 9223372036 seconds or 9223372036854775 milliseconds, and is stored in milliseconds; what every other argument gives |
| StrCmd.SetGenericCommand | node/strcmd.go:101-147 | The command on the database object computes SetGeneric |
| StrCmd.SetGenericExact | node/strcmd.go:101-147 | On a sound keyspace a bad expire changes nothing and a failed NX or XX only the key's access time; else this key alone gets the object, accessed now, a given expiry is set, and without one the old one stays; the exact reply; and the exact condition under which the keyspace stays sound |
| StrCmd.SetIsCalls | node/strcmd.go:101-147 | On any keyspace, broken ones included, the command is a lookup, a SetKey and a SetExpire with the stated flags, and panics iff one of them does |
| StrCmd.PlainSetKeepsExpiry | node/strcmd.go:125-128 | The expiry is what the comment asks for iff one is given, or KEEPTTL is, or there was none |
| StrCmd.Set | node/strcmd.go:47-54 | Parsing followed by the command, on the database object |
| StrCmd.SetExact | node/strcmd.go:47-147 | SET on a sound keyspace with any option list: what it replies, every key's value and expiry afterwards in terms of argv[1], argv[2] and the options of the longest acceptable beginning, and when the keyspace stays sound |
| StrCmd.SyntaxErrorStillSets | node/strcmd.go:258-261 | After a syntax error the command is carried out iff every argument up to it was a string, and which replies go out |
| StrCmd.SetKeepsSound | node/strcmd.go:47-147 | A SET command leaves the keyspace sound iff it is refused or stopped, or the key is present, or AddRaw does not link twice: the expiry table never breaks under it |
| StrCmd.TimedExcludesKeepTTL | node/strcmd.go:200-257 | However the option loop ends, an expire argument and KEEPTTL do not go together |
| StrCmd.OopsIsSet | node/strcmd.go:258-261 | SET k v oops replies with an error and sets k |
| StrCmd.TimedSetFromClientFails | node/object.go:36-41 | A timed SET whose argument is a raw string object is refused and changes nothing |
| DList.List.constructor | db/dlist.go:25-27 | The new list is empty |
| DList.List.Empty | db/dlist.go:30-38 | The list becomes empty |
| DList.List.AddNodeHead | db/dlist.go:45-53 | A fresh node in front of the sequence; Prev and Next stay mutually inverse |
| DList.List.AddNodeTail | db/dlist.go:55-63 | A fresh node behind it |
| DList.List.LinkAfter | db/dlist.go:72-77 | A fresh node right behind the given one |
| DList.List.InsertNode | db/dlist.go:65-87 | The matching insertion, or, before a node that is not the head, a panic that leaves one link turned |
| DList.List.RemoveNode | db/dlist.go:90-104 | The matching removal; the node leaves unlinked |
| DList.ListIter.NextNode | db/dlist.go:123-133 | Returns the current node and goes on in the iterator's direction |
| DList.ListIter.Rewind | db/dlist.go:136-142 | Starts again at the end it came from |
| DList.Visit | db/dlist.go:112-133 | Iterating until nil yields the sequence from the head, and its reverse from the tail |
| Conn.RunsAreSound | node/conn_unix.go:42-80 | Over every run of Write and writable events with arbitrary partial writes, until the first failure: sent plus buffered bytes are all bytes written, the fd is registered for write events iff the buffer is nonempty and else for read events, and epollSet agrees with the kernel |
| Conn.RunDelivers | node/conn_unix.go:42-80 | Over every run the kernel gets a beginning of the concatenated data of the Write events, also when it ends in a failure or a panic, and while the connection lives all of it but for what is buffered |
| Conn.StepKeepsSound | node/poll_unix.go:288-312 | One step keeps all of that |
| Conn.StepEnds | node/conn_unix.go:42-80 | How every step ends, failed, panicked or alive, and how many bytes the kernel took by it |
| Conn.WritePanicsIff | node/conn_unix.go:60-77 | A Write panics iff the connection has no poll and the kernel took less than everything without a fatal error |
| Conn.SurvivesIff | node/poll_unix.go:267-270 | Without kernel errors a connection lives on iff it has a poll or no Write is cut short |
| Conn.AcceptedRuns | node/poll_unix.go:250-270 | From accept on, every run that lasts has sent all that was written, and an error-free one lasts iff no Write is cut short |
| Conn.BufferDrains | node/poll_unix.go:303-309 | Writable events that each take a byte at least empty the buffer, and the fd waits for reads again |
| ConnObjects.Registry.Register | node/registry_unix.go:26-59 | ADD or MOD by what epollSet knows; epollSet and the kernel change together or not at all |
| ConnObjects.Registry.HandleWrite | node/poll_unix.go:288-312 | handleWrite on the objects is the Writable step, and other fds are untouched |
| ConnObjects.DefaultBufferedConn.Write | node/conn_unix.go:42-80 | Write on the objects is the Write step, and other fds are untouched |

## Left out

- DictHang.AddIntoRing: the calls in between are Sets and AddRaws of keys with other new buckets; what a Set of the shared chains, a SetVal or a Delete does in between is not followed, nor is the table after the ring is tied.
- DictTwice.PastTwice: no other call comes before the end of the migration. A Set of the shared bucket would show in the old chain as well, and a second call that links twice on the same old bucket would put its entry behind the first one in that one's new bucket.
- DictLists.RunLists: its tables are values, as those of `DictLists.RunCharges`, `KeyspaceLists.CallComesTo`, `KeyspaceLists.RunAnswers` and `KeyspaceLists.RunChargesBoth` are: once an AddRaw has linked one entry into both tables they do not show what later calls change through the other link.
- DictLoad.MigrationTakes: runs that link an entry twice on a bucket still to be migrated are outside, as are `DictLoad.MigrationEndsIdle` and `DictLoad.RunKeepsLoadBelow`: the code may hang in them (`DictHang.NextCallHangs`). It need not, if no later search comes to the ring; that is not followed. An entry linked twice on a migrated bucket is out of the way of that migration, but not of the next, so these three go to the end of one migration.
- RaxTrees.RaxTree.Insert: after an insert that tangles a node has two edges for one byte, and what later calls make of the tree is not followed.
- RespRoundTrip.RoundTripExact: messages with attributes are outside its converse, since the parser throws attributes away unseen; so are maps with repeated keys or BlobError keys.
- ConnObjects.DefaultBufferedConn.Write: a negative descriptor, for which os.NewFile gives nothing, and the finalizer of the file it creates.
- Keyspace.RedisDb.SetKey: the tables are values here, so what later calls see through an entry that a twice-linking AddRaw shares between them is not followed; the class that links entries in place is `DictHeap.HashTable`.
- LruEvict.EvictReturnsIff: tables that share an entry are outside, as they are for all of `LruEvict`.
- RaxUnique.InsertsCommute: keys that begin with a root label the tree has already are outside.
- The hash is a parameter: FNV-1a and the formatting of keys are not modelled, and keys are compared by equality instead of reflect.DeepEqual. The comparison of Count/Size with 0.7 is done in integers. A table of size 0, on which Hash divides by zero, is excluded.
- GetSomeKeys and its randomness: sampled keys are an input of EvictionPoolPopulate. Get, GetVal, Len, Empty and getFromTable are trivial beside GetEntry.
- GetExpire, statistics and notifications of db/db.go.
- Two keys of the keyspace sharing one RedisObj, or a caller changing one later.
- The radix tree's nodes, prefixes and labels are values: updates in place are rebuilt paths, and the aliasing of key slices and of the arrays behind append (db/rax.go:286) is not captured. Print is left out.
- A Go slice is taken to have no spare capacity, so that reading past its length panics; memory limits on a huge count, and the stack, are not modelled.
- A Double keeps its text: ParseFloat, and comparing map keys that are numbers, is left out.
- Upper-casing option words is ASCII only; the few other characters that fold to ASCII letters are not modelled.
- SETNX, SETEX, PSETEX and GET are calls of the same functions with fixed arguments. The wording of error replies is not modelled.
- The memory counter is that of one thread: atomics and other writers are left out, and what tables outside the keyspace have charged is a constant. Key sizes count characters as bytes; slices of integers as values are left out.
- Real time, LFU, unfinished eviction policies and EvictRunning.
- IsTemporaryError's inspection of error texts, short reads, unregistering, error events, eventfd signals, listener set-up, CloseGracefully and connection counting: of the kernel only the outcome of each write and each registration is kept.
- List.Release and List.Len, and removing a node that is in no list or in another one.
- The client's input buffer, command dispatch, ACLs, the command-line client, logging and db/set.go.
