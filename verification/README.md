# CoreFoundation containers and codecs, verified

This project models seven parts of the CoreFoundation sources under `RuntimeLoop/` and proves
what they promise.

**Binary property lists** (`Bytes`, `Plist`, `PlistFlatten`, `PlistBuffer`, `PlistFile`,
`PlistWriter`, `PlistReader`, `RefGraph`, `PlistDecode`, `PlistIdentity`, `PlistObjects`,
`PlistRoundTrip`, `PlistExact`, `PlistExamples`, and the format and the values by themselves:
`PlistFormat`, `PlistConforms`, `PlistSound`, `PlistValues`, `PlistParsed`).
A property list is a store of objects with identities; `TreeAt` is the tree of references below an
object and `Unfold` the value it stands for, in which equal keys and members have been merged.
Integers are equal if their numbers are, UIDs only if they are the same object, so a UID carries
its address. The writer flattens the object graph with sharing by address, sends marker-coded
objects through an 8160-byte buffer to a stream that may take less than it is given, and ends
with an offset table and a trailer. The reader validates the trailer and decodes recursively
with a memo table and, past depth 15, a path set. The reader is specified by a graph of offsets
(`RefGraph`) that knows nothing of the memo table, the path set or recursion depth. The main
results: parsing what the writer wrote gives the property list back, with its UIDs at other
addresses, exactly if no 128-bit integer uses its high half; on any byte string the memo table
decides only which UIDs are one object, and the result is the same but for that exactly if no
set or dictionary that is kept merges two references to a UID; every reference cycle fails.
`PlistFormat` says byte by byte what objects and files are, without the writer's and the reader's
functions. What is written is of that format, in least widths; what is of the format is read, in any
width; and what is read is of the format. `PlistValues` says which values are equal, and `PlistParsed`
what a file parses to in terms of what its references lead to.

**Hash table** (`HashSlots`, `HashTable`, `HashRuns`). Raw words with sentinels for empty and
deleted slots, linear probing, tombstones with a 16-bit counter, counters that widen from 8 to
64 bits, rehashing. `Contents` of the ghost slots is a finite map; every operation is proved to
do to the table what it does to the map, and every run of operations too, however long: which keys
are there and which operation gave each its value follow from the run alone. A counting table is a multiset through every run, and a table that numbers the keys of a list
follows every run of edits to the list. Tables are equal exactly if a one-sided comparison says
so.

**Mutable array** (`Orders`, `Deque`, `ArrayOrder`). A deque of buckets in which replacing a
range moves the part in front, the part behind, both, or everything to a new store. All
placements are proved to be sequence splicing, and what is retained and not yet released is
always the multiset stored. The bubble sort is a stable sort of its range, the power-of-two
binary search finds the lower bound in any array.

**UTF-8** (`Utf8`, `Utf8Spec`, `Utf8Meaning`, `Utf8Convert`). Both converters against sections 3 and 4 of
RFC 3629 and section 2 of RFC 2781, on all inputs: where they stop, what they have written by
then, and the two length functions. Buffers may have any size; from 2^32 bytes on the encoder sees
only the low 32 bits of the room that is left, and the specification says exactly what that changes.

**Binary heap** (`Heap`, `HeapRuns`), **bit vector** (`Bits`, `BitVector`) and **big numbers**
(`BigNumDigits`, `BigNum`, `BigNumText`): multiset and heap order for any total preorder, through every run of additions and removals; the
three-phase bucket map against bit-by-bit mapping and counting; exact signed arithmetic to the
base of a billion, comparison, printing and parsing.

Conventions: `ghost` parameters and fields carry what a proof needs and no more. A C routine
with an out-buffer takes an `array`; one that only reads takes a `seq`. Pointers are numbers
(`Item`, `Word`, `Id`); comparators, hash functions and stream replies are parameters.

## Properties that do not hold as they stand

- A property list does not come back unchanged if a 128-bit integer in it needs its high half
  (`PlistExamples.WideIntLost` is an input, `PlistExact.RoundTripExact` the exact condition).
- With and without the memo table the reader can give different property lists: a dictionary
  whose two key references lead to one UID has one entry with it and two entries without
  (`PlistExamples.OneKeyOrTwo` is such a file, `PlistIdentity.AgreeIffNoDoubles` the exact condition).
- Decoding UTF-8 into a buffer that ends between the halves of a surrogate pair consumes the
  pair and does not store it (`Utf8Spec.PairLost` is an input, `Utf8Spec.DecodeChunkIff` the exact
  condition, over the bytes).
- A limit for the UTF-8 encoder is not one from 2^32 bytes on: a character that fits may be refused
  (`Utf8Spec.RoomHidden` is an input, `Utf8Spec.EncodeLimitIff` the exact condition).
- The length announced for a UTF-8 encoding is wrong from 2^32 bytes on (`Utf8Convert.LengthWraps`
  is an input, `Utf8Convert.LengthIff` the exact condition).
- Removing does not take back an addition that brought a counter to its limit
  (`HashRuns.CountSticks` is an input, `HashRuns.MinusUndoesPlus` the exact condition).
- Adding big numbers can leave a digit of exactly a billion (`BigNum.BillionKept` is an input,
  `BigNum.SumInRangeIff` the exact condition), and comparing is wrong for two zeros with different
  signs (`BigNum.ZerosDiffer` is an input, `BigNum.Compare` states the exact condition).
- A string of digits does not parse to its number if what is in front of its last 36 significant
  digits needs more than 32 bits (`BigNumText.ValueLost` is an input), and to digits out of range if
  the low 32 bits of that, read as a long, are a billion or more (`BigNumText.FromCString` states both
  exact conditions, and that neither happens exactly if at most 45 digits are significant).

## Model

| member | source | states |
|---|---|---|
| Bytes.GetSizedInt | RuntimeLoop/CFBinaryPList.c:735-757 | a swapped little-endian load for 1, 2, 4 and 8 bytes and the byte loop for every other size read the big-endian number modulo 2^64 |
| Bytes.ToNatConcat | RuntimeLoop/CFBinaryPList.c:735-757 | high bytes come first: of two strings of bytes the first counts 256 times for each byte of the second |
| Bytes.SizedRoundTrip | RuntimeLoop/CFBinaryPList.c:735-757 | a number written big-endian in enough bytes is read back |
| PlistFlatten.FlattenCorrect | RuntimeLoop/CFBinaryPList.c:543-585 | for every acyclic store and any sharing: the root is object 0, table and list agree, every child of every listed object is in the table, uniqued objects are listed once |
| PlistFlatten.FlattenLists | RuntimeLoop/CFBinaryPList.c:543-585 | the list is the walk from the root, keys before values, with strings, numbers, dates and data at their first visit only; every listed object can be reached from the root, what is listed twice is none of these, and the table has the first index of each |
| PlistFlatten.Flattener.FlattenPlist | RuntimeLoop/CFBinaryPList.c:543-585 | the recursion that grows list, table and uniquing set in place computes the flattening that FlattenCorrect and FlattenLists are about |
| PlistBuffer.WriteBuffer.WriteBytes | RuntimeLoop/CFBinaryPList.c:169-205 | bytes reach the stream in order however little it takes at a time, or the error is set; it is never set by a stream that takes something of every write |
| PlistBuffer.WriteBuffer.BufferFlush | RuntimeLoop/CFBinaryPList.c:207-210 | what is buffered is sent and nothing else changes |
| PlistBuffer.WriteBuffer.BufferWrite | RuntimeLoop/CFBinaryPList.c:212-237 | the stream and the buffer together hold the concatenation of all writes, and written plus used is its length |
| PlistWriter.CountBytes | RuntimeLoop/CFBinaryPList.c:589-606 | the width found by shifting is the least of 1, 2, 4, 8 that holds the number |
| PlistWriter.AppendInt | RuntimeLoop/CFBinaryPList.c:329-350 | what is sent is an int object: the big-endian number in 1, 2, 4 or 8 bytes, none of these widths that is smaller holds it, and the marker has the base-2 logarithm of the width |
| PlistWriter.IntFormat | RuntimeLoop/CFBinaryPList.c:329-350 | the same for the bytes of every number |
| PlistWriter.AppendHead | RuntimeLoop/CFBinaryPList.c:382-394 | a count below 15 is in the low half of the marker, any other in an int object of least width behind it |
| PlistWriter.LeafFormat | RuntimeLoop/CFBinaryPList.c:408-480 | every leaf has the bytes that the format has for it, integers, UIDs and counts in least width, and strings one byte a character exactly if all are ASCII |
| PlistWriter.AppendString | RuntimeLoop/CFBinaryPList.c:373-404 | what is sent is a string object: one byte a character if all are ASCII, big-endian UTF-16 otherwise, with the count in least width |
| PlistWriter.AppendLeaf | RuntimeLoop/CFBinaryPList.c:408-480 | what is sent is the object that the format has for the leaf, and null fails |
| PlistWriter.AppendRefs | RuntimeLoop/CFBinaryPList.c:488-534 | a table index of the reference width for each child in order |
| PlistWriter.AppendObject | RuntimeLoop/CFBinaryPList.c:456-541 | the encoding of the object is appended exactly if it can be written |
| PlistWriter.AppendObjects | RuntimeLoop/CFBinaryPList.c:658-676 | offset i is where object i starts |
| PlistWriter.AppendOffsets | RuntimeLoop/CFBinaryPList.c:684-688 | the offsets follow, each in the offset width |
| PlistWriter.Write | RuntimeLoop/CFBinaryPList.c:610-707 | the file is header, objects, offset table and trailer; for a stream that fails or an object that cannot be written the result is 0, and for every other it is the length of the file |
| PlistConforms.ObjectFormat | RuntimeLoop/CFBinaryPList.c:456-541 | the bytes of an array or a dictionary are a head with its size in least width and then a reference to each child, keys before values, in the reference width |
| PlistConforms.FileFormat | RuntimeLoop/CFBinaryPList.c:652-707 | every written file is bplist00, the objects one behind the other, a table with the start of each, and a trailer with the widths, the number of objects, top object 0 and the place of the table; both widths are least |
| PlistFile.FileAccepted | RuntimeLoop/CFBinaryPList.c:652-694 | every file with that layout passes top-level validation |
| PlistFile.OffsetAtInverts | RuntimeLoop/CFBinaryPList.c:872-886 | looking up reference i in such a file finds where object i starts |
| PlistReader.CheckHead | RuntimeLoop/CFBinaryPList.c:764-822 | the checks of trailer and table sizes, with their overflow tests, hold exactly if the sizes fit as integers |
| PlistReader.CheckOffsets | RuntimeLoop/CFBinaryPList.c:832-838 | accepted exactly if every offset lies in front of the offset table |
| PlistReader.GetTopLevelInfo | RuntimeLoop/CFBinaryPList.c:759-847 | accepts exactly the byte strings with seven bytes of signature and a trailer whose sizes, widths and offsets fit the file, and finds the offset of the top object |
| PlistReader.TopLevelMeans | RuntimeLoop/CFBinaryPList.c:759-847 | those conditions in terms of the bytes alone |
| PlistConforms.PrimitiveReads | RuntimeLoop/CFBinaryPList.c:1083-1298 | every encoding of a primitive that the format has is read, in least width or not: null, booleans, integers, reals, dates, data, both kinds of strings and UIDs |
| PlistConforms.ContainerReads | RuntimeLoop/CFBinaryPList.c:1299-1389 | markers 0xA, 0xC and 0xD begin arrays, sets and dictionaries, whatever width their count has |
| PlistConforms.RefLeads | RuntimeLoop/CFBinaryPList.c:872-886 | a reference leads to the table entry that it numbers, and nowhere if there is none |
| PlistConforms.BadMarkerFails | RuntimeLoop/CFBinaryPList.c:1078-1097 | offsets outside the objects and markers that the format does not have fail |
| PlistSound.PrimitiveFrom | RuntimeLoop/CFBinaryPList.c:1083-1298 | whatever is read as a primitive was read from bytes in front of the table that are of its format |
| PlistSound.ContainerFrom | RuntimeLoop/CFBinaryPList.c:1299-1389 | whatever is read as a container has a marker, a count and all its references in front of the table, and fewer than 2^61 of them |
| RefGraph.DecodedStep | RuntimeLoop/CFBinaryPList.c:1061-1559 | a value is decoded exactly if all children are and can be put together |
| RefGraph.CycleFails | RuntimeLoop/CFBinaryPList.c:1323-1328 | nothing that reaches a cycle of references has a value |
| PlistDecode.CreateObject | RuntimeLoop/CFBinaryPList.c:1061-1559 | terminates at a depth of at most 16 plus the number of offsets; with or without path set the result is made of the tree of the offset in the graph, with UIDs shared exactly if there is a memo table, or failure if it has none |
| PlistDecode.CreateContainer | RuntimeLoop/CFBinaryPList.c:1299-1556 | the same for containers, with the path set made at depth 16 and taken back on the way out |
| PlistDecode.CreateChildren | RuntimeLoop/CFBinaryPList.c:1512-1526 | children are decoded in order, and failure means that one has no value or a key is not primitive |
| PlistDecode.TryParse | RuntimeLoop/CFBinaryPList.c:1566-1585 | for every byte string the parser gives what the tree of the file makes, or fails if it has none |
| PlistParsed.ParseIsTop | RuntimeLoop/CFBinaryPList.c:1566-1585 | a file parses to the value of its top object, and a byte string that is not accepted does not parse |
| PlistParsed.PrimitiveAt | RuntimeLoop/CFBinaryPList.c:1083-1298 | a primitive is itself; a UID is at its offset with a memo table and at its place in the result without |
| PlistParsed.UnreadableAt | RuntimeLoop/CFBinaryPList.c:1078-1079 | an offset at which nothing can be read has no value |
| PlistParsed.ArrayAt | RuntimeLoop/CFBinaryPList.c:1376-1406 | an array has the values that its references lead to, in their order, and fails if and only if one of them does |
| PlistParsed.SetAt | RuntimeLoop/CFBinaryPList.c:1376-1426 | a set has the first of each group of equal values that its references lead to, in order |
| PlistParsed.DictAt | RuntimeLoop/CFBinaryPList.c:1512-1543 | a dictionary has the first of each group of equal keys with the value at the same place, and fails if and only if a child does or a key is not primitive |
| PlistParsed.StringDictAt | RuntimeLoop/CFDictionary.c:245-249 | a dictionary whose keys are pairwise different strings has all of them, each with its own value |
| PlistValues.EqualPrimitives | RuntimeLoop/CFRuntime.c:694-707 | integers are equal if and only if their numbers are, all other primitives if and only if they are the same |
| PlistValues.EqualArrays | RuntimeLoop/CFArray.c:252-272 | arrays are equal if and only if they are element by element |
| PlistValues.EqualSets | RuntimeLoop/CFBasicHash.c:971-1002 | sets are equal if and only if each has an equal of everything in the other |
| PlistValues.EqualDicts | RuntimeLoop/CFBasicHash.c:971-1002 | dictionaries are equal if and only if each has every entry of the other, key and value |
| PlistValues.EqualKinds | RuntimeLoop/CFRuntime.c:694-707 | values of different kinds are never equal |
| PlistValues.UnfoldedArray | RuntimeLoop/CFBinaryPList.c:543-585 | an array object stands for the array of what its elements stand for, in order |
| PlistValues.UnfoldedDict | RuntimeLoop/CFBinaryPList.c:543-585 | a dictionary object stands for the first of each group of equal keys, each with its value |
| PlistIdentity.AgreeMeans | RuntimeLoop/CFRuntime.c:694-707 | what it means to be the same but for addresses: UIDs with the same number, containers part by part, everything else the same |
| PlistIdentity.EqualMentions | RuntimeLoop/CFRuntime.c:694-707 | equal values have the same UID objects in them |
| PlistIdentity.ParallelKept | RuntimeLoop/CFDictionary.c:245-249 | where UIDs are made anew a set or dictionary keeps no less, more if an equal pair with a UID in it is merged otherwise, and the same if not |
| PlistIdentity.AgreeIffNoDoubles | RuntimeLoop/CFBinaryPList.c:1063-1073 | for every tree: shared or made anew, UIDs give the same property list but for their addresses if and only if no set or dictionary that is kept merges two values with a UID in them |
| PlistIdentity.DoubledKey | RuntimeLoop/CFBinaryPList.c:120-130 | for the keys of a dictionary that means two references to the same UID |
| PlistIdentity.ParseBothWays | RuntimeLoop/CFBinaryPList.c:1063-1073 | with and without the memo table the same files parse, and to property lists that agree if and only if nothing is merged that way |
| PlistExamples.OneKeyOrTwo | RuntimeLoop/CFBinaryPList.c:120-130 | a file that gives a dictionary with one entry with the memo table and with two without |
| PlistDecode.CyclicFileFails | RuntimeLoop/CFBinaryPList.c:1464-1469 | a file whose top object reaches a cycle does not parse |
| PlistObjects.LeafInverts | RuntimeLoop/CFBinaryPList.c:1083-1298 | every leaf the writer appends is read back as itself, a 128-bit integer as its low 64 bits, a UID at the place where it lies |
| PlistRoundTrip.ContainerInverts | RuntimeLoop/CFBinaryPList.c:1299-1389 | references written by the writer lead the reader to the offsets of the children |
| PlistRoundTrip.TreeComesBack | RuntimeLoop/CFBinaryPList.c:610-707 | the file of every acyclic store passes validation, and the tree below its top object is the tree below the root with 128-bit integers cut to 64 bits and UIDs at their places in the file |
| PlistExact.RoundTrip | RuntimeLoop/CFBinaryPList.c:610-707 | read with a memo table that file gives the value of the root, cut and moved that way; no two objects are moved to one place |
| PlistExact.RoundTripPlain | RuntimeLoop/CFBinaryPList.c:1063-1073 | read without one it gives the same property list but for the addresses of UIDs |
| PlistExact.RoundTripExact | RuntimeLoop/CFBinaryPList.c:1112-1118 | either way it gives the property list that was written, but for those addresses, if and only if no integer below the root uses its high half |
| PlistExact.WriteAndRead | RuntimeLoop/CFBinaryPList.c:1566-1585 | running the writer and then the parser gives that value, memo table or not |
| PlistExamples.WideIntLost | RuntimeLoop/CFBinaryPList.c:1112-1118 | a store that holds the integer 2^64 comes back as 0 |
| HashSlots.EmptyMeansAbsent | RuntimeLoop/CFBasicHashFindBucket.m:106-121 | in a well placed table an empty slot ends the search: the key is nowhere |
| HashSlots.AfterInsert | RuntimeLoop/CFBasicHash.c:1259-1286 | filling a free slot that can be probed to keeps every key findable and adds one entry to the map |
| HashSlots.AfterRemove | RuntimeLoop/CFBasicHash.c:1300-1330 | a tombstone keeps every other key findable and takes one entry from the map |
| HashSlots.MatchedTotals | RuntimeLoop/CFBasicHash.c:971-989 | a one-sided match never has the larger total, and with equal totals the other side has no further keys |
| HashTable.SourceGrowthOk | RuntimeLoop/CFBasicHash.c:225-259 | in the tables of the 64-bit build capacities never exceed sizes and never shrink |
| HashTable.Table.FindBucket | RuntimeLoop/CFBasicHashFindBucket.m:56-192 | finds the key if the map has it, otherwise a free slot that probing for it gets to, or none if all are live |
| HashTable.Table.BumpCounts | RuntimeLoop/CFBasicHash.c:569-626 | widening the counters changes no count |
| HashTable.CounterWidths | RuntimeLoop/CFBasicHash.c:558-626 | counters have 1, 2, 4 or 8 bytes and go up to half of what those hold |
| HashTable.Table.CountUp | RuntimeLoop/CFBasicHash.c:628-676 | one more occurrence through every promotion of the counter width |
| HashTable.Table.IndexForCapacity | RuntimeLoop/CFBasicHash.c:702-708 | the least table size that holds the capacity |
| HashTable.Table.Rehash | RuntimeLoop/CFBasicHash.c:1127-1249 | the same map in a table without tombstones, with room for the entries asked for |
| HashTable.Table.AddAt | RuntimeLoop/CFBasicHash.c:1259-1286 | one new entry, after a rehash if the table is full, with the tombstone count exact |
| HashTable.Table.ReplaceAt | RuntimeLoop/CFBasicHash.c:1288-1298 | the value changes and the count stays |
| HashTable.Table.RemoveAt | RuntimeLoop/CFBasicHash.c:1300-1330 | one entry less; the tombstone count stays exact even where its 16 bits roll over |
| HashTable.Table.AddValue | RuntimeLoop/CFBasicHash.c:1332-1350 | a new key is added with a count of 1; a key that is there keeps its value, and its count goes up by one in a counting table below the limit and stays otherwise; no other key changes, and the result tells if anything did |
| HashTable.Table.ReplaceValue | RuntimeLoop/CFBasicHash.c:1352-1362 | only a key that is there gets the value |
| HashTable.Table.SetValue | RuntimeLoop/CFBasicHash.c:1364-1376 | the key gets the value and keeps its count |
| HashTable.Table.RemoveValue | RuntimeLoop/CFBasicHash.c:1378-1391 | the count before is returned; with more than one the key keeps its value and has one less, unless the count is at the limit, with one it goes; no other key changes, and the words that are never stored are never found |
| HashTable.Table.RemoveAllValues | RuntimeLoop/CFBasicHash.c:1407-1411 | the empty map |
| HashTable.Table.SetCapacity | RuntimeLoop/CFBasicHash.c:1251-1257 | the same map with room for the capacity |
| HashTable.Table.AddIntValueAndInc | RuntimeLoop/CFBasicHash.c:1413-1443 | a new key takes the position and every value from there on goes up by one, also when the table is rebuilt first |
| HashTable.Table.RemoveIntValueAndDec | RuntimeLoop/CFBasicHash.c:1445-1465 | a key with that value goes and every larger value goes down by one, in counting tables and others |
| HashTable.Table.GetCount | RuntimeLoop/CFBasicHash.c:931-941 | the sum of all counts, in counting tables and others |
| HashRuns.Replay | RuntimeLoop/CFBasicHash.c:1332-1411 | every run of add, set, replace, remove, remove all and set capacity, however long, does to the table what it does to the map, up to the operation for which there is neither room nor a size to grow to, where the source halts; a run within the capacities of the growth table is done to its end |
| HashRuns.RunIsBagRun | RuntimeLoop/CFBasicHash.c:558-686 | every run on a counting map gives a key its multiplicity in the multiset, unless that reaches the limit of the counter |
| HashRuns.CountingRun | RuntimeLoop/CFBasicHash.c:558-686 | a counting table, from its creation through every run to its end or to where the source halts, has each key as often as the multiset |
| HashRuns.CountAll | RuntimeLoop/CFBasicHash.c:931-941 | after every run the total that it answers is the size of the multiset, if no counter reaches its limit |
| HashRuns.RunValue | RuntimeLoop/CFBasicHash.c:1332-1411 | after any run a key is there if and only if an operation of the run made it and none cleared it since (in a counting table: its multiplicity is not zero), and its value is the one of the last set, of the last replacement that found it or of the last addition that did not |
| HashRuns.KeyedRun | RuntimeLoop/CFBasicHash.c:1332-1411 | the same for a table, counting or not, from its creation through every run |
| HashRuns.CountSticks | RuntimeLoop/CFBasicHash.c:1378-1391 | a count of LONG_MAX - 1 does not come back after adding and removing |
| HashRuns.MinusUndoesPlus | RuntimeLoop/CFBasicHash.c:1378-1391 | removing takes back an addition if and only if the addition did not bring the counter to its limit |
| HashRuns.SameTotals | RuntimeLoop/CFBasicHash.c:931-941 | equal maps have equal totals, however their slots are laid out |
| HashRuns.AreEqual | RuntimeLoop/CFBasicHash.c:971-1002 | true if and only if both have the same keys equally often, and the same values if the first has keys of its own |
| HashRuns.InsertedNumbers | RuntimeLoop/CFBasicHash.c:1413-1443 | if the values number the keys of a list, inserting at a position renumbers them to the list with the key inserted there |
| HashRuns.WithdrawnNumbers | RuntimeLoop/CFBasicHash.c:1445-1465 | deleting at a position renumbers them to the list without it, and the key that goes is the one there |
| HashRuns.FollowEdits | RuntimeLoop/CFBasicHash.c:1413-1465 | a table that numbers the keys of a list numbers the edited list after every run of insertions and deletions, up to an insertion for which there is no room; a list that stays within the capacities is followed to the end |
| HashRuns.NumberedList | RuntimeLoop/CFBasicHash.c:1413-1465 | a new table with the growth of the 64-bit build follows every run of edits of a list of up to 2003267722 keys |
| HashRuns.NumbersCanShift | RuntimeLoop/CFBasicHash.c:1413-1465 | no position of a list below the sentinels becomes a word that cannot be stored |
| Orders.RoundUpBounds | RuntimeLoop/CFArray.c:46-49 | the capacity is a power of two, always more than asked for and at most twice as much |
| Deque.MutableArray.Reposition | RuntimeLoop/CFArray.c:775-859 | each of the four placements leaves the parts in front of and behind the range unchanged around a gap of the new size, inside the store |
| Deque.MutableArray.Recenter | RuntimeLoop/CFArray.c:836-858 | moving both parts never overwrites one with the other |
| Deque.MutableArray.ReleaseValues | RuntimeLoop/CFArray.c:197-240 | exactly the values of the range are released, and the store goes only if asked for and the range is everything |
| Deque.MutableArray.ReplaceValues | RuntimeLoop/CFArray.c:922-993 | the contents are spliced, new values are retained and old ones released once for each place |
| Deque.MutableArray.AppendValue | RuntimeLoop/CFArray.c:686-693 | one value at the end |
| Deque.MutableArray.SetValueAtIndex | RuntimeLoop/CFArray.c:695-720 | one value changes, or is appended at the end |
| Deque.MutableArray.InsertValueAtIndex | RuntimeLoop/CFArray.c:722-729 | one value inserted at the index |
| Deque.MutableArray.ExchangeValuesAtIndices | RuntimeLoop/CFArray.c:733-751 | two values swapped, nothing retained or released |
| Deque.MutableArray.RemoveValueAtIndex | RuntimeLoop/CFArray.c:753-760 | one value removed |
| Deque.MutableArray.RemoveAllValues | RuntimeLoop/CFArray.c:762-772 | nothing is left and everything retained has been released |
| Deque.MutableArray.SetCapacity | RuntimeLoop/CFArray.c:871-907 | the same contents in a store with the capacity |
| ArrayOrder.BubbleSortSorts | RuntimeLoop/CFArray.c:1006-1018 | putting neighbours in order in shorter and shorter passes gives a sorted permutation of the range that keeps equal values in order, and touches nothing else |
| ArrayOrder.ZSort | RuntimeLoop/CFArray.c:1006-1018 | the range is a sorted permutation that keeps equal values in order; the rest of the array is untouched |
| ArrayOrder.PassPart | RuntimeLoop/CFArray.c:1009-1015 | a pass takes the last of the unsorted values to its end |
| ArrayOrder.Pass | RuntimeLoop/CFArray.c:1009-1015 | the loop over the array puts neighbours in order one after the other |
| ArrayOrder.Halve | RuntimeLoop/CFArray.c:1092-1097 | halving keeps the bound bracketed, probes inside the range only, and shifts no int out of its range |
| ArrayOrder.BSearchValues | RuntimeLoop/CFArray.c:1074-1100 | in any array, exactly the values in front of the result are before the value |
| Utf8.Encode8Inverts | RuntimeLoop/CFBuiltinConverters.c:922-944 | every code point that is not a surrogate is encoded as a sequence of the grammar and decoded from it |
| Utf8.Decode8Inverts | RuntimeLoop/CFBuiltinConverters.c:1048-1056 | every sequence of the grammar is the encoding of what it decodes to |
| Utf8Spec.EncodeText | RuntimeLoop/CFBuiltinConverters.c:946-986 | text is encoded as the standard says, with nothing left over |
| Utf8Spec.EncodeStops | RuntimeLoop/CFBuiltinConverters.c:961-973 | a strict conversion of any units writes the encoding of the longest well-formed part in front and stops at a surrogate without a partner; what it writes is a string of the grammar |
| Utf8Spec.EncodeConsumed | RuntimeLoop/CFBuiltinConverters.c:975-979 | with any limit, what is written is the encoding of what is reported consumed, and it fits |
| Utf8Spec.ChunkedIsOneShot | RuntimeLoop/CFBuiltinConverters.c:946-986 | encoding into buffers one after another gives the same as one shot, for any sizes from 4 to 2^32 - 1 and any others with at least 4 in their low 32 bits |
| Utf8Spec.EncodeLimitIff | RuntimeLoop/CFBuiltinConverters.c:975-978 | a limit is one if and only if no character from U+0080 on begins where the room left is 2^32 or more and its low 32 bits are less than the width of the character |
| Utf8Spec.EncodeLimited | RuntimeLoop/CFBuiltinConverters.c:975-978 | below 2^32 every limit is one |
| Utf8Spec.RoomHidden | RuntimeLoop/CFBuiltinConverters.c:975-978 | U+00E9 into a buffer of 2^32 bytes: nothing is consumed, although it fits |
| Utf8Spec.EncodeDecode | RuntimeLoop/CFBuiltinConverters.c:946-1106 | encoding and then decoding well-formed UTF-16 gives it back |
| Utf8Spec.DecodeEncode | RuntimeLoop/CFBuiltinConverters.c:946-1106 | decoding and then encoding a string of the grammar gives it back |
| Utf8Spec.DecodesAllIffAccepted | RuntimeLoop/CFBuiltinConverters.c:1027-1046 | everything is consumed if and only if every byte belongs to a sequence of the grammar or is a lone 0xA9 |
| Utf8Spec.DecodeStops | RuntimeLoop/CFBuiltinConverters.c:1027-1046 | what is consumed is made of these, and decoding stops where no prefix of the rest is a sequence of the grammar and the first byte is not 0xA9 |
| Utf8Spec.DecodeContinues | RuntimeLoop/CFBuiltinConverters.c:1092-1098 | going on behind a full buffer loses nothing, or exactly one pair if a sequence of four bytes begins where one unit is left |
| Utf8Spec.DecodeChunkIff | RuntimeLoop/CFBuiltinConverters.c:1092-1098 | going on gives the same as one shot if and only if no sequence of four bytes begins where one unit is left |
| Utf8Spec.PairLost | RuntimeLoop/CFBuiltinConverters.c:1092-1098 | U+10000 into a buffer for one unit: four bytes consumed, nothing stored |
| Utf8Spec.StrictIsNotLonger | RuntimeLoop/CFBuiltinConverters.c:1108-1123 | a conversion that is not strict consumes everything and writes no less |
| Utf8Meaning.Utf8Ordered | RuntimeLoop/CFBuiltinConverters.c:922-944 | encodings sort by their bytes as the code points do |
| Utf8Meaning.Utf16Ordered | RuntimeLoop/CFBuiltinConverters.c:1092-1098 | a code point from U+10000 on becomes a high and a low surrogate, and such pairs sort as the code points do |
| Utf8Meaning.SurrogateEncoded | RuntimeLoop/CFBuiltinConverters.c:961-973 | a surrogate without a partner stops a strict conversion and becomes the three bytes of its number otherwise |
| Utf8Meaning.CharDecoded | RuntimeLoop/CFBuiltinConverters.c:1048-1057 | a sequence of the grammar gives its units whatever follows |
| Utf8Meaning.LoneReplaced | RuntimeLoop/CFBuiltinConverters.c:1035-1046 | a byte 0xA9 that begins no sequence gives U+FFFD, and so does any such byte if loss is allowed |
| Utf8Meaning.Copyright | RuntimeLoop/CFBuiltinConverters.c:1035-1046 | a lone 0xA9 decodes to U+FFFD |
| Utf8Meaning.NothingDecoded | RuntimeLoop/CFBuiltinConverters.c:1027-1046 | decoding stops at any other byte that begins no sequence, and where a first byte announces more bytes than there are |
| Utf8Meaning.DecodeFills | RuntimeLoop/CFBuiltinConverters.c:1092-1098 | a buffer is filled with the first units of all, and one unit is left only if a pair would not fit |
| Utf8Convert.ToUTF8Core | RuntimeLoop/CFBuiltinConverters.c:922-944 | the fall-through writes the encoding of the code point, or nothing if it does not fit |
| Utf8Convert.ToUTF8 | RuntimeLoop/CFBuiltinConverters.c:946-986 | consumed, used and the buffer are those of the encoding with that limit, as the 32-bit parameter of the core sees it, and bytes behind are untouched |
| Utf8Convert.IsLegalUTF8 | RuntimeLoop/CFBuiltinConverters.c:999-1014 | true if and only if the bytes are a sequence of the grammar |
| Utf8Convert.Gather | RuntimeLoop/CFBuiltinConverters.c:1048-1057 | adding the bytes up and subtracting one offset decodes a sequence |
| Utf8Convert.FromUTF8 | RuntimeLoop/CFBuiltinConverters.c:1016-1106 | consumed, used and the buffer are those of the decoding with that limit, and units behind are untouched |
| Utf8Convert.ToUTF8Len | RuntimeLoop/CFBuiltinConverters.c:1108-1123 | the length of the encoding that is not strict, modulo 2^32 |
| Utf8Convert.LengthIsEnough | RuntimeLoop/CFBuiltinConverters.c:1108-1123 | below 2^32 a buffer of that length takes all that a conversion without a limit gives, strict or not, and it is the length written if a strict one consumes everything |
| Utf8Convert.LengthIff | RuntimeLoop/CFBuiltinConverters.c:1108-1123 | for every text: a buffer of that length takes all that a strict conversion gives if and only if the bytes it leaves out make up for the multiples of 2^32 that are missing; if everything is converted it is the length written if and only if that is less than 2^32 |
| Utf8Convert.LengthWraps | RuntimeLoop/CFBuiltinConverters.c:1108-1123 | for 2^32 letters a length of 0 is announced |
| Utf8Convert.FromUTF8Len | RuntimeLoop/CFBuiltinConverters.c:1125-1192 | the number of units the decoder gives |
| Heap.RootIsLeast | RuntimeLoop/CFBinaryHeap.c:308-312 | in heap order the first value is a least one |
| Heap.BinaryHeap.constructor | RuntimeLoop/CFBinaryHeap.c:212-249 | a heap of exactly the given values |
| Heap.BinaryHeap.Grow | RuntimeLoop/CFBinaryHeap.c:355-366 | the same values in a larger store |
| Heap.BinaryHeap.AddValue | RuntimeLoop/CFBinaryHeap.c:368-398 | heap order is kept and exactly one value is added |
| Heap.BinaryHeap.RemoveMinimumValue | RuntimeLoop/CFBinaryHeap.c:400-430 | heap order is kept and exactly the first value goes; an empty heap stays empty |
| Heap.BinaryHeap.GetMinimum | RuntimeLoop/CFBinaryHeap.c:308-312 | a least value, or NULL if there is none |
| Heap.BinaryHeap.GetValues | RuntimeLoop/CFBinaryHeap.c:321-337 | an ascending permutation of the values; the heap itself is not changed |
| HeapRuns.Replay | RuntimeLoop/CFBinaryHeap.c:368-430 | every run of additions and removals keeps heap order; each removal takes a least value of those there are, and the values are always exactly those added and not taken |
| HeapRuns.Conserved | RuntimeLoop/CFBinaryHeap.c:368-430 | after every run what is left and what was taken are what was there and what was added |
| HeapRuns.RunsAgree | RuntimeLoop/CFBinaryHeap.c:368-430 | if different values never compare as equal, what a run takes and leaves depends on nothing but the run |
| HeapRuns.RemovalsAscend | RuntimeLoop/CFBinaryHeap.c:400-430 | removals without an addition between them take values in ascending order |
| Bits.BitMasks | RuntimeLoop/CFBitVector.c:115-119 | bit 0 is the highest bit of a bucket and bit 7 the lowest |
| Bits.MaskBits | RuntimeLoop/CFBitVector.c:107-113 | the two shifts leave exactly the bits from bottom to top |
| Bits.AllOnes | RuntimeLoop/CFBitVector.c:323-333 | the two table lookups count all bits of a bucket |
| BitVector.MappedBits | RuntimeLoop/CFBitVector.c:284-319 | after mapping, each bit of the range is the mapped bit and every other bit is as it was |
| BitVector.Vector.InternalMap | RuntimeLoop/CFBitVector.c:284-319 | head, whole buckets and tail map every bucket that way, and a counting mapper counts the bits of the range |
| BitVector.CountBits | RuntimeLoop/CFBitVector.c:323-333 | the bits with the value under the mask |
| BitVector.Vector.GetCountOfBit | RuntimeLoop/CFBitVector.c:335-344 | the multiplicity of the value among the bits of the range; no bit changes |
| BitVector.Vector.BitAtIndex | RuntimeLoop/CFBitVector.c:115-119 | the shifted bit is the bit of that index |
| BitVector.Vector.SetCount | RuntimeLoop/CFBitVector.c:456-473 | shorter or longer, and bits that are added are zero whatever was there before |
| BitVector.Vector.Grow | RuntimeLoop/CFBitVector.c:437-446 | the bits stay and there is room for more |
| BitVector.Vector.FlipBits | RuntimeLoop/CFBitVector.c:482-492 | the bits of the range flip and no others |
| BitVector.Vector.SetBits | RuntimeLoop/CFBitVector.c:501-511 | the bits of the range get the value and no others |
| BitVector.Vector.SetAllBits | RuntimeLoop/CFBitVector.c:513-527 | all bits get the value |
| BitVector.Vector.constructor | RuntimeLoop/CFBitVector.c:230-257 | the bits of the bytes that are given |
| BigNumDigits.AddDigitsValue | RuntimeLoop/CFBigNumber.c:466-482 | digits and carry together are worth the sum |
| BigNumDigits.SubNoBorrow | RuntimeLoop/CFBigNumber.c:483-508 | taking the smaller from the larger leaves no borrow and the exact difference |
| BigNumDigits.HighestDecides | RuntimeLoop/CFBigNumber.c:416-431 | the highest digit that differs decides the order of the values |
| BigNum.AbsoluteLessThan | RuntimeLoop/CFBigNumber.c:435-445 | true if and only if the magnitude is less |
| BigNum.Compare | RuntimeLoop/CFBigNumber.c:416-431 | -1, 0 or 1, and the order of the integers if and only if the two are not zeros with different signs |
| BigNum.ZerosDiffer | RuntimeLoop/CFBigNumber.c:416-431 | zero and negative zero have the same value, and the negative one compares as less |
| BigNum.Neg | RuntimeLoop/CFBigNumber.c:448-464 | the negated value, and a zero keeps its sign |
| BigNum.Add | RuntimeLoop/CFBigNumber.c:466-509 | result plus signed carry times 10^45 is the integer sum, with the sign of the larger operand (of the first if they are equal, so that a zero may be negative), also if the result is one of the operands |
| BigNum.Sub | RuntimeLoop/CFBigNumber.c:511-515 | the same for the difference |
| BigNum.BillionKept | RuntimeLoop/CFBigNumber.c:471-476 | 999999999 + 1 keeps a digit of a billion, with the value of the number that has a carry |
| BigNum.SumInRangeIff | RuntimeLoop/CFBigNumber.c:471-476 | the digits of a sum are in range if and only if no digit sum is exactly a billion |
| BigNumText.TextInverts | RuntimeLoop/CFBigNumber.c:526-527 | 45 characters are worth what the digits are |
| BigNumText.ChunksValue | RuntimeLoop/CFBigNumber.c:560-569 | nine characters at a time from the right give digits in range with the value of the text |
| BigNumText.ChunksValueIff | RuntimeLoop/CFBigNumber.c:560-569 | digits of any number of characters give the value of the text if and only if what is left for the last digit has 32 bits |
| BigNumText.ChunksRangeIff | RuntimeLoop/CFBigNumber.c:560-569 | the digits are in range if and only if the last one is, which gets all that is left |
| BigNumText.ValueLost | RuntimeLoop/CFBigNumber.c:568-569 | 2^32 followed by 36 zeros is read as zero |
| BigNumText.ToCString | RuntimeLoop/CFBigNumber.c:518-538 | sign and decimal digits of the value, with all leading zeros or none |
| BigNumText.TenDigits | RuntimeLoop/CFBigNumber.c:526-527 | the characters 0 to 9 are worth 0 to 9 |
| BigNumText.LongMeans | RuntimeLoop/CFBigNumber.c:560-569 | blanks, a sign, digits and anything behind them are read as the number, or as the end of the range of a long that it is past |
| BigNumText.FromCString | RuntimeLoop/CFBigNumber.c:540-571 | any text is cut into nine characters at a time from the right, each read as C reads a long and cut to 32 bits; a sign and decimal digits give their number if and only if what is in front of the last 36 significant ones has 32 bits, digits in range if and only if the low 32 bits of that, read as a long, are less than a billion, and both if and only if at most 45 are significant |
| BigNumText.PrintAndParse | RuntimeLoop/CFBigNumber.c:518-571 | printing and parsing gives the same digits and sign, with or without plus and zeros |

## Left out

- Allocators, garbage collection barriers, Objective-C dispatch, type registration, descriptions, mutation counters and tracing: runtime plumbing.
- Key-path filtered decoding and the direct lookups by key in the binary property list reader: they rest on string helpers that are not part of this model.
- Cyclic input to the property list writer: the writer does not terminate on it, so an acyclic store is assumed. Keys of a stored dictionary are primitive, as the reader wants them. Null and set values are read but never written.
- PlistDecode.TryParse: byte strings of 2^64 bytes and more are excluded, as no address could reach them. That the source halts on files with more objects than the largest hash table holds, 3241355160, is not modelled.
- PlistWriter.Write: a result whose size does not fit the 64-bit offsets of the trailer is excluded. The list of objects is not limited to the 2^30 that the mutable array of the source can hold.
- PlistDecode.CreateObject: the memo table and the path set take any offset. Those of the source are hash tables, which halt on the offsets 0xa7baadb1 and 0xa5baadb9, the two words they cannot store.
- Hash table options: double and exponential probing, the hash cache, indirect keys, weak references, and equality callbacks other than identity. Fast enumeration and copying.
- HashTable.Table.GetCount: the total is an unbounded number; the source adds in a signed word, for which C leaves open what happens past 2^63.
- HashTable.Table.RemoveIntValueAndDec: requires that a key has the value, as the source would write outside its stores otherwise, and that it counts once, as the source would leave the rest of a larger count behind on the tombstone.
- HashTable.Table.AddValue: requires that the growth table has a size for one more entry; the source halts otherwise.
- Deque.MutableArray.ReplaceValues: the new values are passed by value, so a caller passing a pointer into the array's own store is not modelled; retain is taken to return its argument.
- Deque.MutableArray.SetCapacity: requires that the rounded capacity is not below the present one; the source would copy past its new store.
- CFQSortArray, used for larger sorts, is not part of this model.
- Utf8Convert.ToUTF8Core: code points above U+10FFFF, which no UTF-16 input has, are excluded; bits are written with division and remainder.
- Decomposing and lenient flags of the UTF-8 converter.
- Heap.BinaryHeap.constructor: fewer than 2^30 values; retain and release of heap values are not counted.
- Comparing heaps, comparing bit vectors and copying bits that are not aligned: they compare with a comparator, compare bits past the count, and do not write what is asked for.
- BigNumText.ToCString: buffers of fewer than 47 characters, into which the text is cut off, are excluded.
- BigNumText.FromCString: numbers past the range of a long are taken to be read as its largest or smallest value; C leaves that open.
- HashRuns.FollowEdits: requires that a list has fewer than 0xa5baadb9 keys, and stops in front of an insertion that would make it longer, because that position is a word the table cannot store.
- Heaps without a comparator, which compare addresses, and comparators whose greater is not 1.
- BigNum.Add: digits above 999999999 are excluded, as the header documents them.
- Conversions between big numbers and integers of 8 to 128 bits: they are separate from the arithmetic, order and text modelled here.
- Plist.ClassOf: integers of any width compare by their number, but reals and dates by their bytes; the source compares reals with integers, and zeros of different sign, as numbers.
