# SimiS in Dafny

SimiS is an in-memory Redis clone written in Go.  This project models its hand-written data structures, its
two small protocols and its codecs, and proves what they are for.

| file | what it models |
|---|---|
| `Orders.dfy`, `Levels.dfy`, `Links.dfy` | strictly ascending lists; towers of levels over a list; pointers and spans between towers |
| `SkipList.dfy` | the skip list on heap nodes, updated in place, against a ghost list of its values |
| `Scores.dfy`, `SortedSet.dfy` | scores with NaN and infinities; the sorted set that keeps a skip list and a score map in agreement |
| `Bytes.dfy`, `ListPack.dfy` | varints and fixed-width integers; the list pack, a byte buffer with an offset index |
| `StreamID.dfy`, `EntryCodec.dfy`, `StreamLog.dfy` | entry IDs as bytes and text; the entry codec; the log with its index and range scans |
| `Groups.dfy`, `Stream.dfy`, `StreamRuns.dfy` | consumer groups, the stream that holds them, and what holds over whole runs |
| `Lru.dfy`, `Numbers.dfy` | the recency list on heap nodes; integers in strings |
| `Eviction.dfy`, `KVStore.dfy`, `StoreRuns.dfy` | which keys the memory limit takes, policy by policy; the store that enforces it; what its keys hold, and their order, over whole runs |
| `Resp.dfy`, `Replication.dfy` | the Redis serialization protocol through a buffered reader; replication offsets and WAIT as a step system |
| `Rdb.dfy` | the RDB writer and parser, and what the opcodes between them mean |
| `Geo.dfy` | bit interleaving of grid coordinates and the score ranges of cells |

Code that works in place is a class or a method with loops, proved against functions on values; the laws are
lemmas about those functions.  Inputs that the program takes from outside are parameters: the clock, the heap
readings, the outcomes of `randomLevel`, the order in which Go iterates a map, and what the network delivers while
WAIT polls.

A panic of the source is an outcome of its own: `Err(PANIC)`, the constructor `Panicked`, or `None`.

Where a property fails in the code, the code is kept, one lemma gives an input that shows the failure, and another
states exactly when the property holds:

| what fails | an input | exactly when it holds |
|---|---|---|
| a sorted set's list and map agree | `SortedSets.TwoNaNsDisagree` | `SortedSets.AddedAgrees`, `SortedSets.AgreeExactly` |
| a string in a list pack is not taken for an integer | `ListPacks.ListPack.StoreTextReadInteger` | `ListPacks.ReadsAsInt` |
| a range scan returns the entries between its bounds | `StreamLogs.ScanOvershoots`, `StreamLogs.ScanCrashes` | `StreamLogs.ScanIsRange`, `StreamLogs.ScanPanics` |
| a group delivers every entry once | `StreamRuns.WrapRepeats` | `StreamRuns.DeliveredExactlyOnce` |
| a consumer's pending count is right | `StreamRuns.RewindSpoilsCounts` | `StreamRuns.CountsRightExactly` |
| a volatile policy evicts while a key has an expiry | `Evictions.EmptyKeyBlocks` | `Evictions.EvictsUnlessEmptyFirst` |
| commands come back from their frames | `Resp.LongArgumentIsCut` | `Resp.CommandsRoundTrip` |
| WAIT counts a replica that has everything | `Replication.WaitMissesLateJoiner` | `Replication.LateJoiner` |
| an RDB file keeps its entries | `Rdb.LateHintForgets` | `Rdb.FileHoldsPairs` |
| a dump has an entry for every object | `Rdb.StoreIsLost` | `Rdb.NothingMissing` |

Where code and comments disagree the code is followed.  `listpack.go:158` says that inserting at -1 goes before the
last element; the code puts it behind.  `geohash.go:198-210` speaks of wrapping east and west, but the coordinate
that wraps is the latitude.

## Model

| member | source | states |
|---|---|---|
| `Orders.InsertedAscending` | internal/datastructure/skiplist.go:130-180 | putting a value at its place keeps the list strictly ascending, for every total preorder; a value that is already there changes nothing |
| `Orders.DeletedAscending` | internal/datastructure/skiplist.go:182-221 | taking an equal value out keeps the list strictly ascending |
| `Orders.CountIsCardinality` | internal/datastructure/skiplist.go:278-293 | in an ascending list the position of a value is the number of elements below it |
| `Orders.RankInverse` | internal/datastructure/skiplist.go:238-293 | rank and selection are inverse: the element at a place has that many elements below it, and at the place of a value that is held stands an equal element |
| `Orders.AscendingUnique` | internal/datastructure/skiplist.go:130-221 | two ascending lists with the same elements are the same list, so the contents fix the order |
| `Orders.ElemsSize` | internal/datastructure/skiplist.go:296-298 | an ascending list has as many elements as its set has members |
| `Levels.PathExists` | internal/datastructure/skiplist.go:136-149 | before every position there is, on each of the 17 levels, a last node that takes part in the level |
| `Levels.LastUnique` | internal/datastructure/skiplist.go:136-149 | that node is the only one whose successor on the level lies behind the position, so a search that stops there has found it |
| `Levels.RaisedNext` | internal/datastructure/skiplist.go:162-177 | how the successor on a level moves when a tower is put in between, behind, or in front |
| `Levels.DroppedNext` | internal/datastructure/skiplist.go:187-218 | how the successor on a level moves when a tower is taken out |
| `Levels.RaisedCounts` | internal/datastructure/skiplist.go:151-170 | after an insertion the level counts are right and the top level is the highest that is not empty |
| `Levels.DroppedCounts` | internal/datastructure/skiplist.go:198-201 | the decrements of the top level inside the deletion loop end at the highest level that is not empty, -1 for the empty list |
| `Links.RaisedLinks` | internal/datastructure/skiplist.go:162-177 | rewiring the nodes of the path and widening the spans above makes every pointer and span right again, on all levels |
| `Links.DroppedLinks` | internal/datastructure/skiplist.go:194-218 | the same for a deletion: passing the node by, and narrowing the spans above it and those of the head |
| `SkipLists.SkipList.constructor` | internal/datastructure/skiplist.go:98-116 | the empty list: every span of the head counts the end of the list |
| `SkipLists.SkipList.InsertAtLevel` | internal/datastructure/skiplist.go:130-180 | for every level 0 to 16 the list becomes the ascending list with the value put in, and pointers, spans, level counts and top level stay right; heap nodes are updated in place |
| `SkipLists.SkipList.FindPath` | internal/datastructure/skiplist.go:136-149 | the descent finds an equal value or, per level, the last node before the place and its rank |
| `SkipLists.SkipList.Weave` | internal/datastructure/skiplist.go:162-177 | the three groups of levels - of the new node, above it, and unused ones - get exactly the pointers and spans of the longer list |
| `SkipLists.SkipList.Delete` | internal/datastructure/skiplist.go:182-221 | for a value that is present the list becomes the list without it, everything else right as before |
| `SkipLists.SkipList.Unlink` | internal/datastructure/skiplist.go:187-205 | the descent takes the node out of each of its levels and remembers the path above |
| `SkipLists.SkipList.TakeOut` | internal/datastructure/skiplist.go:207-220 | the spans above the node and those of the head lose one |
| `SkipLists.SkipList.SearchByValue` | internal/datastructure/skiplist.go:223-236 | finds a node if and only if an equal value is in the list, and then the node at its rank |
| `SkipLists.SkipList.SearchByRank` | internal/datastructure/skiplist.go:238-257 | finds the node with the rank if and only if the rank lies between 1 and the length, going by spans alone |
| `SkipLists.SkipList.GetLowerBound` | internal/datastructure/skiplist.go:259-276 | the first element that is not below the argument, none if all are below |
| `SkipLists.SkipList.GetRank` | internal/datastructure/skiplist.go:278-293 | one more than the number of smaller elements, found by adding spans, or -1 |
| `SkipLists.SkipList.Contains` | internal/datastructure/skiplist.go:301-304 | decides membership |
| `SkipLists.SkipList.Clear` | internal/datastructure/skiplist.go:317-328 | leaves a well-formed empty list |
| `Scores.CompareIsPreorder` | internal/datastructure/sortedset.go:12-17 | comparing by score and then by key is a total preorder, even with NaN among the scores |
| `Scores.KeyOrder` | internal/datastructure/sortedset.go:13-14 | keys compare in dictionary order: below is a proper prefix, or a smaller character at the first difference |
| `Scores.CompareIsBefore` | internal/datastructure/sortedset.go:12-17 | a pair compares below another if and only if its score is the smaller number, NaN before them all, or the scores are the same number and its key is earlier in that order |
| `Scores.CompareEqual` | internal/datastructure/sortedset.go:12-17 | two pairs compare equal if and only if they are the same pair, or both scores are NaN - under whatever keys |
| `SortedSets.AddedAgrees` | internal/datastructure/sortedset.go:42-58 | one step of Add keeps list and score map in agreement if and only if it does not give NaN to a key while a different key has NaN already |
| `SortedSets.AgreeExactly` | internal/datastructure/sortedset.go:42-58 | over any run of additions and removals, list and map agree at the start and after every step if and only if no pair gives NaN to a key while a different key has NaN |
| `SortedSets.TwoNaNsDisagree` | internal/datastructure/sortedset.go:42-58 | the failure: after adding two different members with NaN the map has both and the list only the first |
| `SortedSets.NumbersNeverClash` | internal/datastructure/sortedset.go:42-58 | without NaN every call of Add meets the condition |
| `SortedSets.RangeIsContiguous` | internal/datastructure/sortedset.go:110-127 | the members between two scores are one stretch of the list, beginning at the lower bound of the pair with the empty key |
| `SortedSets.StretchIsRange` | internal/datastructure/sortedset.go:110-127 | that stretch holds exactly the pairs of the score map whose score, as a number, is neither below start nor above end, by score and then key |
| `SortedSets.PositionIsRank` | internal/datastructure/sortedset.go:60-108 | at each position of the list stands the pair of the score map that has as many pairs before it, by score and then key |
| `SortedSets.SameMapSameList` | internal/datastructure/sortedset.go:42-58 | two sorted sets with the same score map hold the same list, whatever their histories and random levels |
| `SortedSets.SortedSet.AddOne` | internal/datastructure/sortedset.go:45-56 | one pair, for any input: the map gets it, the list is the specified one, and the set is well-formed afterwards if and only if the pair does not clash |
| `SortedSets.SortedSet.Add` | internal/datastructure/sortedset.go:42-58 | repeated members and score changes included, list and map agree afterwards, and the result is the growth of the map |
| `SortedSets.SortedSet.GetRank` | internal/datastructure/sortedset.go:60-71 | the number of pairs in the score map with a smaller score, or the same score and an earlier key; -1 for an absent key |
| `SortedSets.SortedSet.GetRange` | internal/datastructure/sortedset.go:73-108 | the pairs of the score map that have at least start and at most end pairs before them, by score and then key, in that order; negative bounds count from the end and stop at the front, and no padding is left |
| `SortedSets.SortedSet.GetRangeByValue` | internal/datastructure/sortedset.go:110-127 | exactly the members of the score map whose score is neither below start nor above end, by score and then key; from a NaN start everything up to the end, but nothing if a member has NaN |
| `SortedSets.SortedSet.GetCardinality` | internal/datastructure/sortedset.go:129-131 | the length of the list is the number of members |
| `SortedSets.SortedSet.Remove` | internal/datastructure/sortedset.go:140-153 | the named members leave list and map together, and the result is how many there were |
| `Bytes.UvarintRoundTrip` | internal/datastructure/listpack.go:308-316 | a 64-bit length comes back from its varint, with the right number of bytes, whatever follows |
| `Bytes.UvarintPrefix` | internal/datastructure/listpack.go:119-139 | a varint reads the same alone and in front of anything |
| `Bytes.VarintRoundTrip` | internal/datastructure/listpack.go:318-325 | a signed 64-bit number comes back from its zig-zag varint |
| `Bytes.BigOrder` | internal/datastructure/streamid.go:176-183 | big-endian bytes compare like the numbers they hold |
| `Bytes.LittleDigits` | internal/rdb/parser.go:49-63 | little-endian bytes are the digits to the base 256, the lowest first |
| `ListPacks.PrefixCode` | internal/datastructure/listpack.go:327-342 | encoded entries are a prefix code: a buffer is a list of entries in at most one way |
| `ListPacks.Spliced` | internal/datastructure/listpack.go:284-305 | putting an entry into the buffer and moving the later offsets is the buffer and the index of the longer list |
| `ListPacks.CutOut` | internal/datastructure/listpack.go:191-224 | the same for taking an entry out |
| `ListPacks.IntRoundTrip` | internal/datastructure/listpack.go:110-156 | every int64 comes back from its entry |
| `ListPacks.StringReadsAsInt` | internal/datastructure/listpack.go:142-156 | the failure: a string that begins with the bytes of an encoded integer reads as that integer, whatever follows them |
| `ListPacks.ListPack.StoreTextReadInteger` | internal/datastructure/listpack.go:102-156 | on the object: the two-byte string 01 02 goes in through Append, and GetInt gives the integer 1 |
| `ListPacks.ReadsAsInt` | internal/datastructure/listpack.go:142-156 | a payload reads as an integer if and only if it begins with the marker byte, and one of the ten bytes behind it is below 128, the tenth then being 0 or 1 |
| `ListPacks.ListPack.Append` | internal/datastructure/listpack.go:102-108 | the payloads get the new one at the end; the buffer is the concatenation of the entries and the index their prefix sums, here and below |
| `ListPacks.ListPack.AppendInt` | internal/datastructure/listpack.go:110-116 | an integer becomes an entry of its own form |
| `ListPacks.ListPack.Get` | internal/datastructure/listpack.go:119-139 | the payload at the index, negative ones counted from the end, or the error of the index |
| `ListPacks.ListPack.GetInt` | internal/datastructure/listpack.go:142-156 | the integer at the index, or that it is none |
| `ListPacks.ListPack.InsertAt` | internal/datastructure/listpack.go:159-173 | the payload goes where the code puts it: -1 is behind the last entry, not before it as the comment above the method says |
| `ListPacks.ListPack.InsertIntAt` | internal/datastructure/listpack.go:176-188 | the same for an integer |
| `ListPacks.ListPack.DeleteAt` | internal/datastructure/listpack.go:191-224 | the entry goes, the others stay, and its payload is the result; nothing changes on an error |
| `ListPacks.ListPack.ShiftFrom` | internal/datastructure/listpack.go:284-305 | the in-place loop moves exactly the offsets from the given one on |
| `ListPacks.ListPack.RebuildOffsets` | internal/datastructure/listpack.go:327-342 | the scan ends; it succeeds if and only if the buffer is a list of entries, and then finds exactly their starts |
| `ListPacks.ListPack.FromBytes` | internal/datastructure/listpack.go:33-67 | whenever the bytes in front of the footer are a list of entries, that list is read |
| `ListPacks.ListPack.Bytes` | internal/datastructure/listpack.go:70-94 | the buffer, and behind it a footer with the magic, the number of entries and the start of the last one, 0 for none; the buffer and the number read back |
| `ListPacks.ListPack.Reload` | internal/datastructure/listpack.go:33-94 | writing and reading back gives the same entries, the same buffer and the same index |
| `StreamIDs.RankOrder` | internal/datastructure/streamid.go:31-49 | Compare is the order of the pairs (milliseconds, sequence) as numbers |
| `StreamIDs.KeyOrder` | internal/datastructure/streamid.go:176-183 | the 16-byte keys compare as byte strings exactly like the IDs, and differ when the IDs do |
| `StreamIDs.BytesRoundTrip` | internal/datastructure/streamid.go:176-197 | an ID comes back from its key |
| `StreamIDs.KeyRoundTrip` | internal/datastructure/streamid.go:185-197 | every 16-byte key is the key of the ID it decodes to |
| `StreamIDs.TextRoundTrip` | internal/datastructure/streamid.go:284-302 | what String prints ParseStreamID reads, for every ID |
| `StreamIDs.IDReads` | internal/datastructure/streamid.go:64-100 | XADD takes exactly the texts "*", "ms-*" and "ms-seq" with white space around, ms and seq being digits for 64-bit numbers, and each for what it says |
| `StreamIDs.StreamIDReads` | internal/datastructure/streamid.go:284-302 | ParseStreamID takes exactly the texts "ms-seq", each for its ID |
| `StreamIDs.TextInjective` | internal/datastructure/streamid.go:25-27 | different IDs print differently |
| `StreamIDs.GeneratedIsGreater` | internal/datastructure/streamid.go:121-169 | the generated ID is above the last one unless the text asks for the last millisecond, or for the clock while it is not past it, and the sequence number is at its maximum and wraps around |
| `StreamIDs.GeneratedFirst` | internal/datastructure/streamid.go:121-169 | on an empty stream 0-0 comes out only for the wildcard at clock zero |
| `StreamIDs.ExactID` | internal/datastructure/streamid.go:158-166 | a requested ID is the result if and only if it is not 0-0 and above the last one; the two refusals are told apart |
| `StreamIDs.PartialID` | internal/datastructure/streamid.go:137-156 | for "ms-*" the first ID of the millisecond, 0-1 if that is 0, the one behind the last within its millisecond, and a refusal below it |
| `StreamIDs.WildcardID` | internal/datastructure/streamid.go:129-135 | for "*" the first ID of the present millisecond, or the one behind the last if the clock is not past it |
| `StreamIDs.NoID` | internal/datastructure/streamid.go:121-125 | every other text is refused |
| `StreamIDs.PrintedForms` | internal/datastructure/streamid.go:25-27 | a printed ID asks for that ID, its milliseconds with "-*" behind them for these, and "*" for any |
| `EntryCodec.EncodeEntry` | internal/datastructure/stream.go:195-210 | the loop writes ID, field count and fields in the order in which the map is iterated |
| `EntryCodec.DecodeEntry` | internal/datastructure/stream.go:212-249 | the loop is the recursive reader: the entry, the error, or the panic for a string length that overflows Go's int |
| `EntryCodec.VarStringRoundTrip` | internal/datastructure/stream.go:187-262 | reading takes exactly the bytes that writing a string produced, anywhere in a buffer |
| `EntryCodec.VarStringReads` | internal/datastructure/stream.go:251-262 | with any length in front: the string, an error if the bytes end before it does, and the panic if its end does not fit an int |
| `EntryCodec.EntryRoundTrip` | internal/datastructure/stream.go:195-249 | every entry comes back from its bytes, whatever order the field map was iterated in |
| `StreamLogs.InsertAppends` | internal/datastructure/stream.go:111-124 | inserting a key above all others into the ordered index appends it |
| `StreamLogs.SeekFinds` | internal/datastructure/stream.go:137-167 | seeking in the index finds the position of the first entry that is not below the ID |
| `StreamLogs.ScanIsRange` | internal/datastructure/stream.go:127-185 | a range scan returns exactly the entries between its bounds if and only if the start lies behind everything, the end is the maximum, the start is the position behind the first entry that is not below the end, or the start is not behind that entry and the end is in the log |
| `StreamLogs.ScanPanics` | internal/datastructure/stream.go:169-171 | the scan panics, making a slice of negative capacity, if and only if its start is found two or more positions behind its end |
| `StreamLogs.ScanOvershoots` | internal/datastructure/stream.go:158-167 | the failure: an end between two entries brings the one above it too |
| `StreamLogs.ScanCrashes` | internal/datastructure/stream.go:169-171 | the other failure: with 1-0, 2-0 and 3-0 in the log, scanning from 3-0 to 1-0 panics, where no entry lies between |
| `Groups.SeenKeeps` | internal/datastructure/stream.go:378-387 | making or refreshing a consumer keeps the accounts right |
| `Groups.DeliverKeeps` | internal/datastructure/stream.go:407-415 | delivering an entry keeps the accounts right if and only if the entry is not pending with an owner |
| `Groups.DeliverAllKeeps` | internal/datastructure/stream.go:405-420 | delivering a batch keeps every count right if and only if no entry of it is pending with an owner; later entries do not mend it |
| `Groups.AckAllKeeps` | internal/datastructure/stream.go:432-441 | acknowledging removes exactly the named entries and keeps every count right |
| `Groups.ClaimAllKeeps` | internal/datastructure/stream.go:482-511 | claiming neither makes nor loses a pending entry and keeps every count right, repeated IDs and claims from oneself included |
| `Groups.ReleasedKeeps` | internal/datastructure/stream.go:356-367 | deleting a consumer orphans its entries, loses none, and keeps the other counts right |
| `Groups.AccountsAddUp` | internal/datastructure/stream.go:345-443 | the counts of all named consumers and the orphans add up to the pending list |
| `Groups.DeliverBatch` | internal/datastructure/stream.go:405-420 | the loop over the batch is the fold of single deliveries |
| `Groups.AckBatch` | internal/datastructure/stream.go:432-442 | the loop over the IDs is the fold of single acknowledgements, and counts the entries removed |
| `Groups.Release` | internal/datastructure/stream.go:356-367 | the loop over the map orphans exactly the entries of the consumer, and counts them |
| `Groups.ListPending` | internal/datastructure/stream.go:453-459 | every matching pending entry once |
| `Streams.Stream.CreateEntry` | internal/datastructure/stream.go:93-109 | the ID of GenerateNextID, which `StreamIDs.ExactID` and its neighbours give from the text, and the fields of the value list; with an odd number of values a panic, after the ID is checked |
| `Streams.LastPairWins` | internal/datastructure/stream.go:101-104 | of several values for one field the last one stays |
| `Streams.Stream.AppendEntry` | internal/datastructure/stream.go:111-124 | accepted if and only if the ID is above all in the log; then list pack, index and last ID describe the longer log |
| `Streams.Stream.RangeScan` | internal/datastructure/stream.go:127-185 | what the scan over index and list pack returns, as a function of the log: entries, error or panic |
| `Streams.PointScan` | internal/datastructure/stream.go:506-510 | scanning for one ID that is in the log finds that entry |
| `Streams.Stream.CreateGroup` | internal/datastructure/stream.go:268-300 | a new group that starts at the last ID of the log for "$", at 0-0 for "0", or else at the ID that the text names; refused for a name in use or a text that is no ID |
| `Streams.Stream.DestroyGroup` | internal/datastructure/stream.go:312-318 | removes the group, or reports that there is none |
| `Streams.Stream.SetGroupID` | internal/datastructure/stream.go:321-342 | moves the last delivered ID to the last ID of the log for "$", or else to the ID that the text names, and nothing else |
| `Streams.Stream.DeleteConsumer` | internal/datastructure/stream.go:345-368 | the consumer goes, its entries are orphaned, and the result is their number |
| `Streams.Stream.ReadGroupNewEntries` | internal/datastructure/stream.go:372-423 | returns and files the entries not below the last delivered ID with its sequence number plus one, the first count of them if count is positive |
| `Streams.Stream.AckEntries` | internal/datastructure/stream.go:426-443 | removes the named pending entries; the result is how many there were |
| `Streams.Stream.GetPendingEntries` | internal/datastructure/stream.go:447-460 | all pending entries, or those of one consumer |
| `Streams.ClaimsInNumbers` | internal/datastructure/stream.go:482-511 | a pending entry that is not named, or was delivered less than the idle time ago, is as it was and not among the results; every other one ends up with the claimer, delivered now, and counted and returned once - or as often as it is named, if no idle time is asked for |
| `Streams.Stream.ClaimEntries` | internal/datastructure/stream.go:464-514 | hands over the entries as `Streams.ClaimsInNumbers` says and returns each of them, found in the log by its printed ID, in the order of the request |
| `StreamRuns.DeliveredExactlyOnce` | internal/datastructure/stream.go:372-423 | over any run of appends, reads, acknowledgements, claims and consumer deletions, the concatenated batches are exactly the entries between the start and the last delivered ID, in order, if and only if no read wraps its sequence number into a millisecond that has entries |
| `StreamRuns.WrapRepeats` | internal/datastructure/stream.go:390-395 | the failure: with the maximal sequence number the same entry is delivered twice |
| `StreamRuns.DeliveredIsAckedOrPending` | internal/datastructure/stream.go:405-443 | over those runs everything delivered is either acknowledged or pending, never both |
| `StreamRuns.CountsStayRight` | internal/datastructure/stream.go:320-514 | over any run in which SETID never goes below a pending entry, and no read wraps its sequence number into a millisecond that has entries, every count is right, the sum is right, and the log holds every pending entry |
| `StreamRuns.CountsRightExactly` | internal/datastructure/stream.go:320-514 | over any run with SETID the accounts are right after every step if and only if no read delivers an entry that is pending with an owner |
| `StreamRuns.RewindSpoilsCounts` | internal/datastructure/stream.go:338-415 | the failure: SETID to 0-0 with an entry pending, and the next read counts the entry twice for its consumer |
| `StreamRuns.Drive` | internal/datastructure/stream.go:111-514 | runs are what the methods of a stream do: the events as calls, one after another, leave the log, the group and the deliveries of the run |
| `Lru.LastTouchOrder` | internal/datastructure/lru.go:29-51 | after any history of touches and removals the tracked keys are those whose last event is a touch, ordered by its time |
| `Lru.LRUTracker.Access` | internal/datastructure/lru.go:29-36 | the key moves to the front, known or new; list and map stay exact |
| `Lru.LRUTracker.Remove` | internal/datastructure/lru.go:45-51 | the key leaves list and map; nothing happens for an unknown one |
| `Lru.LRUTracker.PeekLRU` | internal/datastructure/lru.go:54-59 | the last key of the order |
| `Lru.LRUTracker.IterateFromLRU` | internal/datastructure/lru.go:72-81 | walking the previous pointers stops at the least recent key that the callback accepts |
| `Lru.LRUTracker.AddToHead` | internal/datastructure/lru.go:95-105 | in place: the node in front of the list, all neighbour pointers right |
| `Lru.LRUTracker.RemoveFromList` | internal/datastructure/lru.go:107-120 | in place: the node out of the list, all neighbour pointers right |
| `KVStores.KVStore.Store` | internal/store/kvstore.go:47-54 | after enforcing the limit the key holds the object, every other key what it held, and the key is the most recent, touched last of all; on the out-of-memory error nothing changes |
| `KVStores.KVStore.GetValue` | internal/store/kvstore.go:56-69 | returns, refreshes and touches the object if and only if the key is held and has no expiry or one that is not before now; drops it if and only if the expiry is before now |
| `KVStores.KVStore.LoadOrStore` | internal/store/kvstore.go:94-106 | a new container for an absent key, the present one of the right kind otherwise; the key becomes the most recent and is touched in any case |
| `KVStores.KVStore.IncrementString` | internal/store/kvstore.go:111-162 | a key that is absent or past its expiry becomes "1" without expiry; decimal digits with or without a sign become the next number, the greatest the least, with the same expiry; anything else is an error and is left as it was, not even refreshed |
| `KVStores.IncrementsAddUp` | internal/store/kvstore.go:119-155 | n increments add n, with 64-bit wrap-around, and keep the expiry |
| `Numbers.AtoiItoa` | internal/store/kvstore.go:142-149 | a 64-bit integer comes back from its decimal text |
| `Numbers.AtoiReads` | internal/store/kvstore.go:142-146 | what is taken for an integer: digits with or without a sign in front, of a number of 64 bits, and nothing else |
| `Numbers.WrapIsCongruent` | internal/store/kvstore.go:148 | an int that overflows differs from the number by a multiple of 2^64 |
| `Numbers.ItoaIsShortest` | internal/store/kvstore.go:149 | what is written for one: a minus sign for a negative number, and digits without a leading zero |
| `KVStores.KVStore.StoreRDBEntry` | internal/store/kvstore.go:166-174 | stored and touched past the limit, every other key as it was |
| `KVStores.KVStore.GetAllKeys` | internal/store/kvstore.go:177-188 | exactly the keys with no expiry or one that is not before now, each once |
| `KVStores.KVStore.Delete` | internal/store/kvstore.go:40-43 | the key leaves store and tracker together, and is forgotten |
| `KVStores.KVStore.EvictIfNeeded` | internal/store/kvstore.go:254-269 | for any sequence of heap readings with which the loop ends: what is left keeps its order and objects, the eviction count is the number of keys gone, the loop stops at the first reading within the limit or at the empty store, and each reading above it takes a key - under a volatile policy as long as one has an expiry and the empty key has none |
| `KVStores.KVStore.EvictOne` | internal/store/kvstore.go:271-338 | each policy takes a key it may take, or nothing when there is none |
| `Evictions.VictimExists` | internal/store/kvstore.go:276-334 | there is a key to take if and only if there is one at all, for the volatile policies one with an expiry |
| `Evictions.EmptyKeyBlocks` | internal/store/kvstore.go:284-297 | the failure: an empty key with an expiry is found and taken for nothing, and no other key goes |
| `Evictions.EvictsUnlessEmptyFirst` | internal/store/kvstore.go:276-334 | while some key has an expiry, a volatile policy is sure to evict one if and only if the empty key has none, or the policy comes to another key before it: a less recent one with an expiry, or an earlier expiry |
| `Evictions.RoundsAreNeeded` | internal/store/kvstore.go:260-267 | eviction stops at the first reading within the limit, not before and not after |
| `Evictions.OldestGoFirst` | internal/store/kvstore.go:254-282 | under allkeys-lru the evicted keys are the least recent ones: each was last touched before every key that stays |
| `Evictions.VolatileOrder` | internal/store/kvstore.go:284-334 | under a volatile policy only keys with an expiry go; under volatile-lru each was last touched before every key with an expiry that stays, under volatile-ttl each expires no later |
| `Evictions.GoesOnForever` | internal/store/kvstore.go:260-267 | with readings that never come within the limit, and a key that may not go, the eviction loop has a next round after every round |
| `StoreRuns.RunOrder` | internal/datastructure/lru.go:29-51 | over any run of calls that forget keys and then touch at most one, the tracked keys are those that some call touched and none forgot since, in the order of the calls that touched them last |
| `StoreRuns.Drive` | internal/store/kvstore.go:40-174 | a new store and any calls in turn - writes, reads, opened containers, increments, loads, deletions - up to the first that does not return: each call does and answers what it should, and all the time the tracker holds exactly the keys of the store, in the order of the last calls that touched them |
| `StoreRuns.RunGives` | internal/store/kvstore.go:40-174 | after every call of such a run each key holds what the calls so far gave and left it: the object of the last write or load, counted up by increments, nothing once it is deleted, evicted or found expired |
| `StoreRuns.ReadAnswers` | internal/store/kvstore.go:56-69 | so a read answers with that object, unless it has an expiry before now |
| `StoreRuns.LastWriteStands` | internal/store/kvstore.go:47-69 | what a write gave stands, whatever happens to other keys, until a call writes the key again or takes it away |
| `StoreRuns.RunEvictsOldest` | internal/store/kvstore.go:254-282 | so after any run allkeys-lru evicts only keys whose last touching call is earlier than that of every key that stays |
| `Resp.ToRespArray` | internal/utils/resp.go:155-165 | the loop writes the array header and the bulk strings; a nil slice is the null array |
| `Resp.ParseRESPArrayRecursive` | internal/utils/resp.go:20-92 | the loop over the buffered reader is the recursive reader, nested arrays, errors and panics included, and ends on any input |
| `Resp.FlattenRESPArray` | internal/utils/resp.go:96-115 | the strings of a nested array from left to right, nulls left out |
| `Resp.ParseMultipleRequests` | internal/command/parser.go:35-74 | the loop over the buffer: the commands, and what lies behind the place where it stopped, or the panic |
| `Resp.CommandsRoundTrip` | internal/command/parser.go:35-74 | commands with trimmed upper-case ASCII names come back from their frames, all of them with nothing left over, if and only if no array is too long to allocate and each string lies within the reader's 4096-byte buffer when it is read; of the very last string the part beyond the buffer may be missing if it is zero bytes |
| `Resp.EndsInChunks` | internal/utils/resp.go:22 | how far the reader's buffer reaches behind a line: 4096 bytes at a time from where the line begins |
| `Resp.BadLengths` | internal/utils/resp.go:69-85 | a string of length -1 is null; any other length below zero, or beyond what can be allocated, panics |
| `Resp.BadCounts` | internal/utils/resp.go:32-43 | the same for the count of an array |
| `Resp.LongArgumentIsCut` | internal/utils/resp.go:55-92 | the failure: a SET whose value is longer than 4096 bytes, and does not end in a zero byte, does not come back |
| `Resp.OneBuffer` | internal/command/parser.go:35-74 | frames that fit one buffer together always come back |
| `Resp.NamesAreNormal` | internal/command/parser.go:58-63 | the name that a parse makes of an ASCII name is one that comes back unchanged |
| `Resp.NamesAreCapitalized` | internal/command/parser.go:58-63 | frames of one buffer with names in any letters, and white space around them, come back with the same arguments and the trimmed names in capital letters |
| `Resp.SameCount` | internal/server/session.go:76-82 | for every list of commands that comes back, the bytes a replica counts by encoding the parsed commands again are the bytes it was sent |
| `Replication.StepKeeps` | internal/replication/manager.go:64-85 | every step keeps the invariant: a replica has executed a prefix of what was propagated since its handshake, its offset is the bytes it has counted, and no acknowledgement claims more than it executed |
| `Replication.RunKeeps` | internal/replication/manager.go:64-142 | so does every run |
| `Replication.ExecutedInStep` | internal/handler/session/replconf.go:85-94 | answering GETACK before its own bytes are counted keeps the acknowledgements honest |
| `Replication.CountedInStep` | internal/server/session.go:72-86 | counting after executing keeps the offset right |
| `Replication.JoinedInStep` | internal/handler/session/psync.go:54-71 | a handshake at any moment keeps the invariant, with the replica counting from zero |
| `Replication.WaitIsSafe` | internal/replication/manager.go:87-142 | in any run, every replica whose acknowledged offset reaches the offset WAIT read has applied all that was propagated to it between its handshake and that read |
| `Replication.CountsWhen` | internal/replication/manager.go:135-138 | a replica counts, its acknowledgements being in, if and only if the bytes before its last GETACK reach the offset |
| `Replication.LateJoiner` | internal/handler/session/psync.go:41-72 | a replica that joined late and has everything counts if and only if the bytes since its handshake reach the offset; WAIT may miss it |
| `Replication.WaitMissesLateJoiner` | internal/replication/manager.go:87-142 | the failure, as a run: the master propagates a command, a replica joins, executes and acknowledges everything it is sent, and does not count for the offset WAIT reads |
| `Replication.HandleRequests` | internal/server/session.go:64-89 | for any buffer: executes and counts the commands it parses to, or panics with nothing executed; for whole frames of normal commands that fit, the offset grows by the bytes received |
| `Replication.Manager.constructor` | internal/replication/manager.go:21-37 | a new manager is the start of every run, and keeps the invariant |
| `Replication.Manager.PropagateCommand` | internal/replication/manager.go:64-85 | the command goes to every replica that has finished its handshake, and the offset grows by its bytes |
| `Replication.Manager.WaitForReplicas` | internal/replication/manager.go:87-142 | polls until enough replicas have reached the offset, and no longer: after each earlier poll there were too few, and if there are too few at the end all polls were made; the result is their number, 0 if none is asked for or connected; on a master each of them has applied what it was sent before |
| `Rdb.LengthRoundTrip` | internal/rdb/parser.go:70-101 | each of the three length forms reads back, for all lengths below 2^32 |
| `Rdb.StringRoundTrip` | internal/rdb/parser.go:109-122 | a string reads back, and exactly its bytes are taken |
| `Rdb.IntRoundTrip` | internal/rdb/parser.go:125-145 | the integer encodings of 8, 16 and 32 bits read as the decimal text of the signed number |
| `Rdb.OtherEncodings` | internal/rdb/parser.go:146-149 | the compressed form and unknown ones are errors |
| `Rdb.OpRoundTrip` | internal/rdb/parser.go:184-274 | every opcode with its operands reads back |
| `Rdb.ParseRDB` | internal/rdb/parser.go:156-276 | on any bytes the loop ends, stays within them, and computes the recursive reading |
| `Rdb.FileRoundTrip` | internal/rdb/parser.go:156-276 | a file of any opcodes is parsed to what the opcodes mean in turn |
| `Rdb.FileHoldsPairs` | internal/rdb/parser.go:200-274 | a file gives exactly its pairs, each with the expiry set since the pair before it, if and only if the first size hint that counts does not come behind a pair |
| `Rdb.LateHintForgets` | internal/rdb/parser.go:209-213 | the failure: a size hint behind an entry makes the parser forget it |
| `Rdb.DumpRoundTrip` | internal/rdb/parser.go:370-452 | what GenerateRDB writes restores the entries in order; it restores them unchanged if and only if each expiry lies in the future, is a whole number of milliseconds and fits 64-bit nanoseconds |
| `Rdb.RestoredExpiry` | internal/rdb/parser.go:427-433 | what becomes of an expiry: dropped if it is not in the future, and rounded down to whole milliseconds while it fits 64-bit nanoseconds |
| `Rdb.NothingMissing` | internal/rdb/parser.go:391-416 | the dump has an entry for every object of the store if and only if each passes the type assertion, has no expiry or one that is not before now, and holds a string |
| `Rdb.StoreMissing` | internal/rdb/parser.go:358-416 | for objects of the store: if and only if they have both methods that the assertion asks for, hold text, and have no expiry or one that is not before now |
| `Rdb.KeptFirst` | internal/rdb/parser.go:391-416 | the entries stand in the order of the objects, each with the key, the text and the expiry of its object |
| `Rdb.SeenWhole` | internal/rdb/parser.go:391-416 | an object with those methods, live and with text, would be dumped whole: its key, its text and its expiry |
| `Rdb.StoreIsLost` | internal/rdb/parser.go:358-398 | the failure: whatever the store holds, its objects have no `GetTTL`, the type assertion fails for each, and the dump is a file without entries |
| `Rdb.GenerateRDB` | internal/rdb/parser.go:370-452 | the writer's loops emit that file for what the store ranges over, without the objects that fail the type assertion, have expired or hold no string |
| `Rdb.RdbWriter.WriteLength` | internal/rdb/parser.go:335-350 | the length form for the size |
| `Rdb.HeaderText` | internal/rdb/parser.go:370-374 | a file begins with the text REDIS0011 |
| `Geo.SpreadRoundTrip` | internal/geo/geohash.go:78-115 | compacting undoes spreading on the low 32 bits, and spreading undoes compacting on the even bits |
| `Geo.InterleaveRoundTrip` | internal/geo/geohash.go:51-115 | both coordinates come back from the code |
| `Geo.InterleaveIsMorton` | internal/geo/geohash.go:51-90 | the masks and shifts compute the interleaving of the binary digits |
| `Geo.MortonInjective` | internal/geo/geohash.go:51-71 | different coordinates have different codes |
| `Geo.CellRange` | internal/geo/geohash.go:212-225 | a code lies in the range of a cell if and only if both coordinates begin with the bits of the cell |
| `Geo.Get9GeoRanges` | internal/geo/geohash.go:168-229 | the emitted ranges cover exactly the codes of the neighbour block: the first coordinate within one step of the cell, counted round the grid, the second within one step and cut off at the edge |

## Left out

- SkipLists.SkipList.Delete: only for a value that is present. Both callers in `sortedset.go` look the key up in the score map first, which is enough while list and map agree (`SortedSets.AgreeExactly`); once two members have NaN they may pass an absent value, and the code then shrinks spans without looking.
- SortedSets.SortedSet.Add: scores are real numbers, infinities and NaN; rounding plays no part. Batches in which a second key gets NaN are left out (`ClashFree`); what the first such pair does is stated by `AddOne`.
- SkipLists.SkipList.constructor: `Tail`, `Range` and the generic constructor for built-in types are not modelled.
- ListPacks.ListPack.RebuildOffsets: a varint length of 2^63 or more is negative as Go's `int` and sends the scan backwards, into a panic or round for ever; the model reports an error there.
- ListPacks.ListPack.FromBytes: the same, since it calls `RebuildOffsets`.
- ListPacks.ListPack.Append: payloads and buffers are shorter than 2^63 bytes, which Go slices always are.
- Streams.Stream.ClaimEntries: groups, consumers and pending entries are values in a map of the stream, where the source shares pointers; a caller of `GetPendingEntries` that writes through them is not modelled.
- Streams.Stream.RangeScan: the radix tree is an ordered list of keys with the same seek; the log lines are dropped.
- StreamIDs.ParseStreamID: only the white space of ASCII is trimmed, not the rest of Unicode's; the range forms of `ParseStartStreamID` and `ParseEndStreamID` are not modelled.
- StreamRuns.DeliveredExactlyOnce: runs without SETID, which moves the group on purpose.
- KVStores.KVStore.EvictIfNeeded: for calls that return (`Ends`); what the others do is `Evictions.GoesOnForever`. Unknown policies are not modelled.
- KVStores.KVStore.LoadOrStore: one method for lists, streams and sorted sets; what a container holds is not modelled, nor is `StoreList`, which nothing calls.
- Resp.ParseRESPArrayRecursive: an allocation panics from 2^48 bytes on; smaller ones that the machine cannot serve are not modelled.
- Resp.NamesAreNormal: for ASCII names; in others Go changes letters beyond ASCII, which the model leaves alone.
- Resp.CommandsRoundTrip: whole frames only; frames that arrive in parts are not modelled, and the parser does not put back what it has taken.
- Replication.WaitIsSafe: each propagation is one step and links deliver whole frames in order; replicas are honest, and only they send acknowledgements. A WAIT without deadline that never gets enough replicas does not return and is not modelled.
- Replication.JoinedInStep: the contents of the snapshot sent at the handshake are not modelled; nor is a PSYNC that names the master's own replication ID, which finishes no handshake, or a second one on a connection.
- Rdb.DumpRoundTrip: for keys, values and a number of entries below 2^32; the format has no form for longer ones.
- Rdb.GenerateRDB: the same.
- Geo.Get9GeoRanges: begins with grid coordinates; the conversion from degrees, distances and the choice of the precision are floating point.
- Sockets, files, logging, flags, configuration, access control, publish and subscribe, and the single command handlers.
- Blocking commands: they race with timeouts, and their queue is changed while it is walked.
- MULTI and EXEC: ending a transaction does not clear its queue, so nothing holds per transaction.
