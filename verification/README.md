# Verified models of six CoreFoundation components

This project models, in Dafny, six components of CoreFoundation whose concrete
state has to agree with a simple abstract value over every run, and proves that
it does.

- **CFBag** (`BagTable.dfy`, `Bag.dfy`): an open-addressing hash table with
  linear probing, deleted slots, a pair of sentinel words that is renamed when a
  client stores one of them, reclamation of deleted runs, and rehashing. It
  refines a multiset of key classes over all runs of its operations.
- **CFBinaryPList** (`Plist*.dfy`): the writer and the reader of "bplist00"
  documents. A flattening pass with uniquing, variable-width references, an
  offset table and a trailer; a recursive reader with a memo table and a path set
  against cycles. The reader computes a declarative meaning on every accepted
  document, and what is written is read back as the same list.
- **CFArray** (`MutableArray.dfy`, `ArraySearch.dfy`): a centred deque with four
  ways to reposition its items and a large store, with exact thresholds in between.
  Every edit equals a sequence splice. The binary search is characterised exactly.
- **UTF-8 converters** (`Utf8*.dfy`): the encode, decode and length loops, against
  RFC 3629 and RFC 2781, with round trips both ways.
- **CFBinaryHeap** (`HeapOrder.dfy`, `BinaryHeap.dfy`): sift-up and sift-down
  with a hole, and sorted extraction.
- **CFBitVector** (`BitBucket.dfy`, `BitVector.dfy`): the ramp-up, whole-bucket,
  ramp-down mapper as a per-bit map.

Code that updates state in place is modelled as classes and methods with loops,
each proved against functions and predicates on values. `Bits.dfy` holds powers
of two and `flsl`, `Items.dfy` what arrays and heaps hold.

## Conventions

- Machine words are integers below 2^64 and pointers are words or numbers, with
  the null pointer 0. Bit operations are written as the arithmetic they compute,
  except in the bit vector, where buckets are `bv8`.
- A bag's equality callback is an equivalence, given by a representative of each
  class; its hash respects it and its retain callback returns an equal key.
- A heap's comparator is a total preorder that answers -1, 0 or 1 and ignores its
  context. The search's comparator is an order of any sign convention.
- Memory handed out by an allocator is new; deque buckets are handed out zeroed,
  bit-vector buckets with any content.
- The converters between UTF-16 and UTF-8 share one scheme: `Utf8Steps.dfy` takes
  a text apart into characters, and `Utf8Buffer.dfy` runs a converter, given by
  how it takes characters, what it writes and when, over them.
- Where the code does not do what its callers are promised, the code is followed,
  an input that shows it is given, and the exact condition is proved:
  - `ArraySearch.Finds` for the search at a nonzero location (the conditional
    operator takes the location into its condition at line 1155 of
    `source/apple/CF/CFArray.c`),
  - `Utf8Buffer.Stumbles`, spelt out by `Utf8Encode.StumblesIff`, for output buffers
    of 4 gigabytes and more (the room is a 32-bit parameter),
  - `EncodedLength(chars) < WIDE` for the length pass of the encoder, which counts
    in 32 bits,
  - `Utf8Decode.Overruns` for a pair that finds room for one unit (the input has
    moved on before the room is looked at),
  - `PlistExact.NoWideListed` for integers wider than 64 bits, which also spoil
    narrower ones that share their entry,
  - `PlistRoundTrip.ScalarKeys` for dictionary keys that are containers.

## Model

| member | source | states |
|---|---|---|
| `Bag.Bag.Run` | source/apple/CF/CFBag.c:1162-1463 | Every run of add, set, replace, remove and remove-all on a new bag ends in a valid bag whose multiset is the one the abstract machine reaches, as long as a store for twice the classes of keys held fits in the address space. |
| `Bag.UsedIsClasses` | source/apple/CF/CFBag.c:1189-1213 | The used slots are exactly as many as the classes of keys held. |
| `Bag.Bag.GetCountOfValue` | source/apple/CF/CFBag.c:943-951 | The answer is the key's multiplicity in the abstract multiset, 0 when it is absent or the bag is empty. |
| `Bag.Bag.AddValue` | source/apple/CF/CFBag.c:1162-1214 | Adds one occurrence; afterwards probe chains, key uniqueness, all counters and the bound on deleted slots hold again. |
| `Bag.Bag.SetValue` | source/apple/CF/CFBag.c:1272-1347 | Leaves an existing multiplicity alone, adds the key otherwise; the retained word itself is stored either way. |
| `Bag.Bag.ReplaceValue` | source/apple/CF/CFBag.c:1220-1266 | The multiset does not change; if the key is present, its retained word is the one stored. |
| `Bag.Bag.RemoveValue` | source/apple/CF/CFBag.c:1349-1408 | Takes away one occurrence if there is one, and nothing otherwise, keeping every invariant. |
| `Bag.Bag.RemoveAllValues` | source/apple/CF/CFBag.c:1410-1463 | Ends with the empty multiset, no used slot, and a store that is not due to shrink. |
| `Bag.Bag.constructor` | source/apple/CF/CFBag.c:669-752 | A new bag is valid and empty, with no store yet. |
| `Bag.Bag.FindBuckets1` | source/apple/CF/CFBag.c:362-428 | The lookup probe finds a slot if and only if some live slot holds an equal key, and then it is such a slot. |
| `Bag.Bag.FindBuckets2` | source/apple/CF/CFBag.c:430-466 | The insertion probe finds the key if and only if it is present; otherwise it gives the first free slot of the key's path, or none only if all slots are live. |
| `Bag.Bag.Probe` | source/apple/CF/CFBag.c:430-466 | Below capacity an insertion probe always ends at the key or at a usable slot, even when no slot is empty. |
| `Bag.Bag.FindNewMarker` | source/apple/CF/CFBag.c:468-494 | Terminates with a marker whose pair no slot held and which is not in the old pair; every slot is renamed from the old pair to the new and no other changes. |
| `Bag.FreePairExists` | source/apple/CF/CFBag.c:474-485 | Fewer than 2^63 stored words always leave some pair of complementary words unused, which is why the search ends. |
| `BagTable.SimilarKeepsTable` | source/apple/CF/CFBag.c:468-494 | Renaming sentinels keeps chains, uniqueness, contents and the numbers of empty and deleted slots. |
| `Bag.Bag.DodgeMarker` | source/apple/CF/CFBag.c:1194-1196 | After it the word about to be stored is neither sentinel, and the table is otherwise as before. |
| `Bag.FreeAfterRename` | source/apple/CF/CFBag.c:1189-1210 | The slot found before a renaming is still the first free slot of the key's path after it. |
| `Bag.Bag.InsertAt` | source/apple/CF/CFBag.c:1189-1213 | Storing an absent key in the slot its probe gave adds exactly that key, with every counter exact. |
| `BagTable.InsertEffect` | source/apple/CF/CFBag.c:1197-1211 | The whole effect of storing an absent key: chains and uniqueness kept, one occurrence more, one used slot more, one deleted slot fewer if one was reused. |
| `BagTable.InsertKeepsTable` | source/apple/CF/CFBag.c:1197-1211 | Putting an absent key in the first free slot of its path breaks no other key's chain. |
| `BagTable.DeleteKeepsTable` | source/apple/CF/CFBag.c:1371-1387 | Turning a live slot into a deleted one leaves every other key reachable. |
| `BagTable.DeleteEffect` | source/apple/CF/CFBag.c:1371-1387 | The whole effect of deleting a key that occurs once. |
| `BagTable.ContentsAt` | source/apple/CF/CFBag.c:943-951 | In a well-formed table the one slot that holds a key carries its whole multiplicity. |
| `BagTable.ReclaimKeepsTable` | source/apple/CF/CFBag.c:1396-1406 | A deleted slot just below an empty one may become empty: chains, uniqueness and contents stay. |
| `Bag.Bag.Reclaim` | source/apple/CF/CFBag.c:1396-1406 | Empties exactly the run of deleted slots that ends just below an empty slot, keeping the multiset and all invariants. |
| `Bag.Bag.RekeyAt` | source/apple/CF/CFBag.c:1237-1252 | Exchanging the key of an occupied slot for an equal one, sentinels renamed in between if need be, keeps the multiset. |
| `Bag.Bag.Discard` | source/apple/CF/CFBag.c:1371-1407 | Removing the last occurrence of a key leaves a valid bag that is not due to shrink. |
| `Bag.RoundUpIsLeast` | source/apple/CF/CFBag.c:131-139 | Rounding up gives 4*2^k buckets with capacity 3*2^k, the least such size for the load. |
| `Bag.LeastIsNotSparse` | source/apple/CF/CFBag.c:294-298 | A table of the least size for its load is never due to shrink. |
| `Bag.Bag.Grow` | source/apple/CF/CFBag.c:1095-1146 | Rehashing, to more or fewer buckets, keeps every multiplicity and ends with the least size for the load and nothing deleted. |
| `Bag.Bag.Rehash` | source/apple/CF/CFBag.c:1121-1146 | Reinserting all live entries gives a table with the same contents and as many used slots. |
| `Bag.Bag.Reinsert` | source/apple/CF/CFBag.c:1128-1142 | Each reinsertion finds no equal key and a free slot, and carries the entry over. |
| `Bag.Bag.Shrink` | source/apple/CF/CFBag.c:1393-1394 | A rehash after removals never needs a larger store. |
| `Bag.Bag.MakeRoom` | source/apple/CF/CFBag.c:1168-1177 | After it there is a free slot within capacity and the multiset is as before. |
| `Bag.Bag.ClearSlots` | source/apple/CF/CFBag.c:1425-1456 | The two clearing passes leave only empty slots. |
| `Bag.Bag.Equals` | source/apple/CF/CFBag.c:496-534 | Two bags with the same equality callback compare equal if and only if they hold the same multiset. |
| `PlistStream.WriteAndParse` | source/apple/CF/CFBinaryPList.c:358-618 | For every finite property list and every equality of scalars, whatever can be stored is accepted; it is read back if and only if all dictionary keys are scalars, each scalar as its own entry is, and equal to what was written if no wide integer is listed. |
| `PlistRoundTrip.RoundTrip` | source/apple/CF/CFBinaryPList.c:197-238 | The document of a flattened list is acceptable, and its top object means, exactly when all dictionary keys are scalars, the list with each scalar as its own entry is read back. |
| `PlistExact.EqualIff` | source/apple/CF/CFBinaryPList.c:288-355 | For every equality that tells a wide integer from its low half, what is read back is equal to what was written, scalar by scalar, if and only if no listed entry is a wide integer with a nonzero high half. |
| `PlistExact.NarrowIsEqual` | source/apple/CF/CFBinaryPList.c:288-355 | For every equality, with no such entry each scalar read back is identical or equal to the one written. |
| `PlistExact.LosslessIsEqual` | source/apple/CF/CFBinaryPList.c:925-932 | A list without such integers is always read back equal. |
| `PlistExact.IdenticalIff` | source/apple/CF/CFBinaryPList.c:925-932 | Where only identical scalars are unified, the very value comes back if and only if it has no such integer. |
| `PlistExact.OrderMatters` | source/apple/CF/CFBinaryPList.c:321-334 | With integers compared by value, -1 in 64 and in 128 bits: behind the narrow one the wide one comes back equal, behind the wide one both are lost. |
| `PlistExact.WideIntegerIsLost` | source/apple/CF/CFBinaryPList.c:928-932 | A concrete integer wider than 64 bits comes back as its low half, whatever the equality. |
| `PlistStream.ContainerKeyIsRefused` | source/apple/CF/CFBinaryPList.c:1212 | A concrete dictionary with an array for a key is stored and accepted, and its top object is not read back. |
| `PlistRoundTrip.MirrorIsFaithful` | source/apple/CF/CFBinaryPList.c:1115-1243 | Reading any entry of a graph that mirrors a flattened heap gives each object whose index leads there, with every scalar as its entry is read back, sharing included. |
| `PlistStream.DocumentReadsBack` | source/apple/CF/CFBinaryPList.c:358-618 | The document of any list that can be stored fits in the address space, passes the trailer check and reads back as stated above. |
| `PlistRoundTrip.WrittenMirrors` | source/apple/CF/CFBinaryPList.c:442-588 | The objects of a written document mirror the flattened heap, references and all. |
| `PlistReader.TryParse` | source/apple/CF/CFBinaryPList.c:1250-1277 | A file is accepted if and only if its trailer is; the result is then the meaning of its top object. |
| `PlistReader.ObjectReader.CreateObject` | source/apple/CF/CFBinaryPList.c:872-1243 | On every accepted trailer, cyclic references included, the recursion ends and gives the object's meaning: a value if and only if the unfolding is finite and well formed, whatever the memo table, the path set and the depth are. |
| `PlistReader.ObjectReader.CreateContainer` | source/apple/CF/CFBinaryPList.c:1138-1177 | A container is read as its meaning with its offset on the path set in the meantime; on success the path set is as before. |
| `PlistReader.ObjectReader.CreateKids` | source/apple/CF/CFBinaryPList.c:1144-1163 | The objects of a container are read in order, and the list exists if and only if each of them has a proper meaning. |
| `PlistReader.ObjectReader.Remember` | source/apple/CF/CFBinaryPList.c:1173-1175 | Only what the mutability option allows to share is remembered, and only as its own meaning. |
| `PlistGraph.CycleHasNoMeaning` | source/apple/CF/CFBinaryPList.c:874-884 | An object that is reached from itself has no finite unfolding, so failing on a repeated offset of the path is right. |
| `PlistGraph.MeaningOfObject` | source/apple/CF/CFBinaryPList.c:872-1243 | The meaning of an object is determined by its shape and the meanings of what it refers to. |
| `PlistGraph.KidMeaningsEach` | source/apple/CF/CFBinaryPList.c:1203-1240 | A container's members exist if and only if each reference has a meaning and, in a dictionary, each key is a scalar. |
| `PlistReader.GetTopLevelInfo` | source/apple/CF/CFBinaryPList.c:624-713 | The trailer check accepts exactly the documents whose objects, offset table and trailer tile the data, whose field widths suffice and whose offsets stay below the table; it returns the top object's offset. |
| `PlistReader.CheckTable` | source/apple/CF/CFBinaryPList.c:692-701 | The table is accepted if and only if every entry is below the offset table. |
| `PlistReader.CheckNumbers` | source/apple/CF/CFBinaryPList.c:662-682 | The trailer's numbers are accepted if and only if they tile the data and the widths suffice. |
| `PlistFormat.RefsStayInside` | source/apple/CF/CFBinaryPList.c:740-760 | In an accepted document reading a reference stays inside the data and gives the failure value or an offset below the offset table. |
| `PlistReader.GetOffsetOfRefAt` | source/apple/CF/CFBinaryPList.c:740-760 | The offset read is the table entry of the reference read, or the failure value when the reference is out of range. |
| `PlistReader.ReadEmbedded` | source/apple/CF/CFBinaryPList.c:721-737 | An embedded integer is read big-endian within bounds, or refused. |
| `PlistReader.ReadObject` | source/apple/CF/CFBinaryPList.c:895-1200 | One object's marker and content are decoded, with every bounds check, as the format describes them. |
| `PlistReader.SwapUnits` | source/apple/CF/CFBinaryPList.c:1057-1092 | UTF-16 content is swapped unit by unit. |
| `PlistBytes.Accumulate` | source/apple/CF/CFBinaryPList.c:925-927 | The accumulating loop gives the last 64 bits of the big-endian value. |
| `PlistBytes.CountBytes` | source/apple/CF/CFBinaryPList.c:436-440 | The mask-shifting loop gives the number of bytes the value needs. |
| `PlistBytes.BigEndianRoundTrip` | source/apple/CF/CFBinaryPList.c:244-265 | A field wide enough for its value is read back exactly. |
| `PlistBytes.ReadsBack64` | source/apple/CF/CFBinaryPList.c:749-751 | A field of any width that can hold a 64-bit value is read back exactly. |
| `PlistHeap.Flattener.Flatten` | source/apple/CF/CFBinaryPList.c:301-355 | The state becomes the one that Flattened gives, in the order objects are met; everything reachable is indexed by an entry equal to it, each distinct uniqued scalar is listed once, and what was listed before stays. |
| `PlistHeap.FlattenedOK` | source/apple/CF/CFBinaryPList.c:301-355 | Flattening keeps indices and uniqueness, lists its object first of all it adds, and adds nothing just for a scalar equal to a member. |
| `PlistHeap.FlatteningOK` | source/apple/CF/CFBinaryPList.c:301-355 | The root is object 0, everything it reaches is indexed, and nothing else is listed. |
| `PlistHeap.FlattenedReaches` | source/apple/CF/CFBinaryPList.c:301-355 | Only what an object reaches is listed for it. |
| `PlistHeap.Flattener.Share` | source/apple/CF/CFBinaryPList.c:321-334 | A scalar gets the index of the first equal member, if there is one. |
| `PlistHeap.Flattener.FlattenAll` | source/apple/CF/CFBinaryPList.c:338-354 | All that a container refers to is flattened in order, one step after the other. |
| `PlistHeap.AppendKeeps` | source/apple/CF/CFBinaryPList.c:335-337 | Listing an object that is not yet listed keeps indices, uniqueness and closure. |
| `PlistHeap.ShareKeeps` | source/apple/CF/CFBinaryPList.c:321-334 | Giving a scalar an equal one's index keeps indices, uniqueness and closure. |
| `PlistStream.WriteToStream` | source/apple/CF/CFBinaryPList.c:358-618 | The result is the document of the flattened list, with its length, if and only if the list can be stored. |
| `PlistStream.WriteFlat` | source/apple/CF/CFBinaryPList.c:425-618 | Header, objects, offset table and trailer are written as laid out, with the exact length returned. |
| `PlistStream.WriteEntries` | source/apple/CF/CFBinaryPList.c:442-588 | Each recorded offset is the exact position of its object's marker byte. |
| `PlistStream.WriteNode` | source/apple/CF/CFBinaryPList.c:542-579 | A container is written as marker, count and references of the chosen width. |
| `PlistStream.WriteAtom` | source/apple/CF/CFBinaryPList.c:446-541 | A scalar is written in the form the format gives for its type. |
| `PlistStream.WriteInt` | source/apple/CF/CFBinaryPList.c:244-265 | An integer is written in the fewest of 1, 2, 4 or 8 bytes that its value calls for. |
| `PlistStream.WriteFields` | source/apple/CF/CFBinaryPList.c:601-605 | Fields of one width are written one after the other, big-endian. |
| `PlistStream.SwapOut` | source/apple/CF/CFBinaryPList.c:470-472 | Units are put high byte first. |
| `PlistStream.WriteBuffer.Write` | source/apple/CF/CFBinaryPList.c:174-190 | Whatever the sizes of the writes, stream and buffer together hold everything written, in order. |
| `PlistStream.WriteBuffer.Position` | source/apple/CF/CFBinaryPList.c:445 | `written + used` is the length of everything written so far. |
| `PlistStream.WriteBuffer.Flush` | source/apple/CF/CFBinaryPList.c:192-195 | After it the stream alone holds everything written. |
| `PlistStream.WriteBuffer.Append` | source/apple/CF/CFBinaryPList.c:163-172 | Bytes go to the end of the stream and are counted. |
| `PlistParse.AtomReadsBack` | source/apple/CF/CFBinaryPList.c:895-1114 | Every scalar the writer emits is decoded to itself, an integer wider than 64 bits to its low half. |
| `PlistParse.ReadBackExact` | source/apple/CF/CFBinaryPList.c:928-932 | Decoding is exact if and only if the scalar is not a wide integer with a nonzero high half. |
| `PlistParse.ReadIntPlaced` | source/apple/CF/CFBinaryPList.c:721-737 | An integer written by the writer is read back, and the reader ends just behind it. |
| `PlistParse.CountPlaced` | source/apple/CF/CFBinaryPList.c:1004-1015 | A count in the marker or after it is read back. |
| `PlistParse.RowReadsBack` | source/apple/CF/CFBinaryPList.c:740-760 | A row of references is read back as the offsets of the objects referred to. |
| `PlistParse.ContainerReadsBack` | source/apple/CF/CFBinaryPList.c:1115-1137 | A container is read back as references to its members' offsets. |
| `PlistLayout.LaidIsAcceptable` | source/apple/CF/CFBinaryPList.c:655-713 | Every document so laid out passes the trailer check, with the first object on top. |
| `PlistLayout.LaidEntry` | source/apple/CF/CFBinaryPList.c:601-605 | Entry i of the offset table is the offset of object i. |
| `PlistLayout.LaidObject` | source/apple/CF/CFBinaryPList.c:445 | Object i stands at its recorded offset. |
| `PlistLayout.TrailerReadsBack` | source/apple/CF/CFBinaryPList.c:589-611 | The trailer's fields are read back as written, its unused bytes being zero. |
| `MutableArray.CFArray.Run` | source/apple/CF/CFArray.c:721-1080 | Every run of in-bounds edits on a new array gives the sequence that plain splicing gives, whatever representations it passes through. |
| `MutableArray.CFArray.ReplaceValues` | source/apple/CF/CFArray.c:982-1080 | Turns s into s[..loc] + the retained new values + s[loc+len..] in every representation; the result is in the store if and only if it reaches the deque limit or was in the store and is above half of it. |
| `MutableArray.CFArray.RepositionDequeRegions` | source/apple/CF/CFArray.c:835-923 | Whichever strategy is taken, the items before and after the range are unchanged around room for the new ones, and no stale pointer is left outside them. |
| `MutableArray.CFArray.Reallocate` | source/apple/CF/CFArray.c:855-875 | A new deque of the rounded size with the items centred and no bias. |
| `MutableArray.CFArray.Shift` | source/apple/CF/CFArray.c:877-922 | Moving C, moving A or recentring keeps both regions in bounds and whole. |
| `MutableArray.CFArray.Recentre` | source/apple/CF/CFArray.c:894-922 | Recentring, with either bias, keeps both regions and stays in bounds. |
| `MutableArray.RecentredLeft` | source/apple/CF/CFArray.c:899-906 | The recentred start leaves all free buckets to either side, halved without bias and leaning to one side with it. |
| `MutableArray.MoveC` | source/apple/CF/CFArray.c:877-884 | Region C closes or opens the gap, overlapping or not, and what it leaves is cleared. |
| `MutableArray.MoveA` | source/apple/CF/CFArray.c:885-893 | Region A closes or opens the gap, overlapping or not, and what it leaves is cleared. |
| `MutableArray.LowerFirst` | source/apple/CF/CFArray.c:911-913 | Two overlapping moves, the lower first, are two moves of the original buckets if the first ends below the second's source. |
| `MutableArray.UpperFirst` | source/apple/CF/CFArray.c:916-918 | Two overlapping moves, the upper first, are two moves of the original buckets if the first starts above the second's source and target. |
| `MutableArray.MoveLowerFirst` | source/apple/CF/CFArray.c:911-913 | Going down, A before C: C is not overwritten before it moves. |
| `MutableArray.MoveUpperFirst` | source/apple/CF/CFArray.c:916-918 | Going up, C before A: A is not overwritten before it moves. |
| `MutableArray.MoveDown` | source/apple/CF/CFArray.c:910-915 | After the moves down both regions stand around the new gap, with only null pointers outside. |
| `MutableArray.MoveUp` | source/apple/CF/CFArray.c:915-920 | After the moves up both regions stand around the new gap, with only null pointers outside. |
| `MutableArray.MoveBoth` | source/apple/CF/CFArray.c:908-921 | After either move both regions stand around the new gap, with only null pointers outside. |
| `MutableArray.CopyBoth` | source/apple/CF/CFArray.c:866-872 | Both regions are copied to a new deque around the new gap. |
| `MutableArray.CFArray.ReleaseRange` | source/apple/CF/CFArray.c:202-262 | Releasing a range leaves the items before and after it as they were. |
| `MutableArray.CFArray.ConvertDequeToStore` | source/apple/CF/CFArray.c:798-811 | The store holds what the deque held. |
| `MutableArray.CFArray.ConvertStoreToDeque` | source/apple/CF/CFArray.c:813-832 | The deque holds what the store held, centred, with room to spare. |
| `MutableArray.CFArray.MakeGap` | source/apple/CF/CFArray.c:1014-1062 | Room for the new items is made; the representation is the store if and only if the new count reaches the deque limit or the array was in the store and stays above half of it. |
| `MutableArray.CFArray.MakeGapInStore` | source/apple/CF/CFArray.c:1019-1028 | Resizing in the store; it stays a store if and only if the new count is above half the deque limit. |
| `MutableArray.CFArray.MakeGapInDeque` | source/apple/CF/CFArray.c:1047-1061 | Repositioning in the deque; it becomes a store if and only if the new count reaches the deque limit. |
| `MutableArray.CFArray.MakeGapFromNothing` | source/apple/CF/CFArray.c:1029-1046 | A first store if and only if the new items reach the deque limit, a first deque otherwise. |
| `MutableArray.CFArray.Refill` | source/apple/CF/CFArray.c:1014-1078 | Making room and filling it gives the items before, the new ones and the items after, in the representation the thresholds call for. |
| `MutableArray.CFArray.FillGap` | source/apple/CF/CFArray.c:1063-1078 | Filling the room completes the splice. |
| `MutableArray.RoundUpEnough` | source/apple/CF/CFArray.c:47-50 | Rounding up gives room for the items, or as many buckets as a deque may have. |
| `MutableArray.CFArray.RemoveAllValues` | source/apple/CF/CFArray.c:789-796 | Ends with no items and no storage. |
| `MutableArray.CFArray.SetValueAtIndex` | source/apple/CF/CFArray.c:728-751 | Replaces one item, or appends at the index just past the end. |
| `MutableArray.CFArray.ExchangeValuesAtIndices` | source/apple/CF/CFArray.c:761-779 | Exchanges two items and nothing else. |
| `MutableArray.CFArray.GetValueAtIndex` | source/apple/CF/CFArray.c:614-619 | Reads the item of the represented sequence. |
| `MutableArray.CFArray.constructor` | source/apple/CF/CFArray.c:386-440 | A new mutable array has no store and no items. |
| `ArraySearch.BSearchValues` | source/apple/CF/CFArray.c:1134-1170 | On a sorted range the result is the least index whose item is not less than the value if and only if Finds holds, which it always does at location 0; every probe is in range. Otherwise the result is the one stated, beyond the insertion point. |
| `ArraySearch.Narrow` | source/apple/CF/CFArray.c:1156-1161 | The halving loop ends at the insertion point if that lies beyond where it starts, and at its start otherwise. |
| `ArraySearch.SearchRange` | source/apple/CF/CFArray.c:1141-1162 | The early answers and the search together give the insertion point exactly when Finds holds. |
| `ArraySearch.MisplacedValue` | source/apple/CF/CFArray.c:1155 | In every store-backed array, searching the one-item range at location 1 for its own item gives 2 where 1 is the insertion point. |
| `ArraySearch.Stride` | source/apple/CF/CFArray.c:1153-1154 | The first stride is a power of two, the largest within the length. |
| `ArraySearch.InsertionPointExists` | source/apple/CF/CFArray.c:1134-1170 | Every sorted range has an insertion point for every value. |
| `ArraySearch.InsertionPointUnique` | source/apple/CF/CFArray.c:1134-1170 | There is only one insertion point. |
| `Utf8RoundTrip.UnitsRoundTrip` | source/apple/CF/CFBuiltinConverters.c:945-1105 | Decoding the encoding gives back every well-formed UTF-16 text, and of any text the part before its first unpaired surrogate. |
| `Utf8RoundTrip.BytesRoundTrip` | source/apple/CF/CFBuiltinConverters.c:945-1105 | Encoding the decoding gives back every byte string legal under section 4 of RFC 3629. |
| `Utf8RoundTrip.EncodeThenDecode` | source/apple/CF/CFBuiltinConverters.c:945-1105 | The two converters one after the other, with buffers of the sizes counted, return a prefix of the text, and all of it if and only if it is well formed and the 32-bit room never misleads; otherwise the prefix ends at the first unpaired surrogate unless the room misled. |
| `Utf8RoundTrip.DecodeThenEncode` | source/apple/CF/CFBuiltinConverters.c:945-1105 | The two converters the other way round return the bytes if and only if they are legal and the 32-bit room never misleads. |
| `Utf8RoundTrip.Encode` | source/apple/CF/CFBuiltinConverters.c:945-985 | A buffer of the size counted takes the whole encoding if and only if the 32-bit room never misleads. |
| `Utf8RoundTrip.ExactRoomIff` | source/apple/CF/CFBuiltinConverters.c:945-985 | A buffer of exactly the size needed takes everything if and only if the room never looks too small; bytes or units alone tell which. |
| `Utf8RoundTrip.EncodeSized` | source/apple/CF/CFBuiltinConverters.c:945-1122 | A buffer of the size that the length pass gives takes the whole encoding if the text's size is below 2^32, and for well-formed text only then. |
| `Utf8RoundTrip.DecodesWhatWasEncoded` | source/apple/CF/CFBuiltinConverters.c:945-1105 | Whatever the room, what was encoded decodes to exactly the units taken. |
| `Utf8RoundTrip.Decode` | source/apple/CF/CFBuiltinConverters.c:1012-1191 | A buffer of the size that the length pass gives takes the whole decoding and is never overrun. |
| `Utf8Encode.ToUTF8` | source/apple/CF/CFBuiltinConverters.c:945-985 | Encodes as many characters as fit, in counting mode all of them; output and both lengths are exact and the rest of the buffer is untouched. |
| `Utf8Encode.ToUTF8Core` | source/apple/CF/CFBuiltinConverters.c:922-943 | Writes one character's encoding of 1 to 6 bytes if it fits and nothing otherwise. |
| `Utf8Encode.BytesToWrite` | source/apple/CF/CFBuiltinConverters.c:912-920 | The number of bytes of the character's encoding. |
| `Utf8Encode.ReadScalar` | source/apple/CF/CFBuiltinConverters.c:954-972 | Takes a unit or a pair; stops exactly at an unpaired surrogate. |
| `Utf8Encode.RunIsFitting` | source/apple/CF/CFBuiltinConverters.c:945-985 | A run encodes a prefix of the characters of the longest well-formed prefix and takes just their units. |
| `Utf8Encode.CountsEncoding` | source/apple/CF/CFBuiltinConverters.c:974 | Counting mode counts all of the longest well-formed prefix. |
| `Utf8Encode.StopsAtUnpaired` | source/apple/CF/CFBuiltinConverters.c:959-972 | With room enough, encoding stops at the end or exactly at the first unpaired surrogate. |
| `Utf8Encode.EncodesLongestIff` | source/apple/CF/CFBuiltinConverters.c:954-979 | What is encoded is the longest prefix the buffer can hold if and only if the room, passed on in 32 bits, never looks too small. |
| `Utf8Encode.StumblesIff` | source/apple/CF/CFBuiltinConverters.c:922-975 | That is just when some character outside ASCII fits, but what is left of the room modulo 2^32 is too small for it. |
| `Utf8Encode.NarrowNeverStumbles` | source/apple/CF/CFBuiltinConverters.c:974-978 | Below 4 gigabytes the room never looks too small. |
| `Utf8Encode.WideBufferStumbles` | source/apple/CF/CFBuiltinConverters.c:922-975 | A buffer of exactly 4 gigabytes takes nothing of a text that starts outside ASCII. |
| `Utf8Encode.ResumeEncoding` | source/apple/CF/CFBuiltinConverters.c:945-985 | Encoding piece by piece, going on after what was taken, gives what one call gives, whatever the sizes of the buffers. |
| `Utf8Encode.ToUTF8Len` | source/apple/CF/CFBuiltinConverters.c:1107-1122 | The length pass gives the encoded size modulo 2^32. Its result is that size if and only if the size is below 2^32; then it bounds what is encoded of any text and equals it if and only if the text is well formed; for well-formed text it is a bound only then. |
| `Utf8Encode.WideTextCountsZero` | source/apple/CF/CFBuiltinConverters.c:1108-1118 | Every text of 2^32 ASCII characters is counted as 0 bytes. |
| `Utf8Encode.LengthBounds` | source/apple/CF/CFBuiltinConverters.c:1107-1122 | The size, an unpaired surrogate counting three bytes, bounds what is encoded of any text and equals it if and only if the text is well formed. |
| `Utf8Decode.FromUTF8` | source/apple/CF/CFBuiltinConverters.c:1012-1105 | Decodes as many characters as fit, in counting mode all of them; output and both lengths are exact and the rest of the buffer is untouched. |
| `Utf8Decode.IsLegalUTF8` | source/apple/CF/CFBuiltinConverters.c:998-1010 | Holds of exactly the sequences of the grammar in section 4 of RFC 3629. |
| `Utf8Decode.Combine` | source/apple/CF/CFBuiltinConverters.c:1042-1050 | Adding, shifting and subtracting the offset gives the character's number. |
| `Utf8Decode.ReadChar` | source/apple/CF/CFBuiltinConverters.c:1023-1050 | Takes a legal character, or a lone 0xA9 as a replacement character; stops at anything else. |
| `Utf8Decode.WriteUnits` | source/apple/CF/CFBuiltinConverters.c:1065-1097 | Writes one unit or a pair, if it fits. |
| `Utf8Decode.FromUTF8Len` | source/apple/CF/CFBuiltinConverters.c:1124-1191 | The length pass gives the number of units that counting mode reports, on every byte string. |
| `Utf8Buffer.DriveIs` | source/apple/CF/CFBuiltinConverters.c:945-1105 | A run of either converter writes the characters it can and takes their input, and that of one it loses. |
| `Utf8Buffer.LongestIff` | source/apple/CF/CFBuiltinConverters.c:945-1105 | Either converter writes as much as there is room for if and only if it never passes over a character that fits. |
| `Utf8Buffer.ResumeIff` | source/apple/CF/CFBuiltinConverters.c:945-1105 | Either converter accounts for all input piece by piece, and gives what one call gives if and only if it loses no character. |
| `Utf8Decode.CountsDecoding` | source/apple/CF/CFBuiltinConverters.c:1052-1097 | Counting mode counts the units of every character up to the first illegal one. |
| `Utf8Decode.OverrunsIff` | source/apple/CF/CFBuiltinConverters.c:1090-1097 | A character is lost if and only if one unit of room is left when there is another character. |
| `Utf8Decode.DecodesLongest` | source/apple/CF/CFBuiltinConverters.c:1023-1097 | What is written is the longest prefix that fits. |
| `Utf8Decode.DecodesWhatItTakesIff` | source/apple/CF/CFBuiltinConverters.c:1090-1097 | The bytes taken stand for exactly what was written if and only if no pair finds room for just one unit. |
| `Utf8Decode.ResumeDecodingIff` | source/apple/CF/CFBuiltinConverters.c:1012-1105 | Decoding piece by piece accounts for every byte, and gives what one call gives if and only if no pair finds room for just one unit. |
| `Utf8Decode.LosesLastPair` | source/apple/CF/CFBuiltinConverters.c:1092 | Every character outside the basic plane is taken and lost in a buffer of one unit. |
| `Utf8Format.DecodeEncode` | source/apple/CF/CFBuiltinConverters.c:900-1105 | Decoding the encoding of any scalars gives them back and takes every byte. |
| `Utf8Format.EncodeDecode` | source/apple/CF/CFBuiltinConverters.c:900-1105 | Encoding what legal bytes decode to gives them back. |
| `Utf8Format.LegalIff` | source/apple/CF/CFBuiltinConverters.c:998-1010 | Legal byte strings are exactly the encodings of scalars. |
| `Utf8Format.LegalIsEncoding` | source/apple/CF/CFBuiltinConverters.c:998-1010 | Each legal sequence is the encoding of the character it stands for. |
| `Utf8Format.EncodingIsLegal` | source/apple/CF/CFBuiltinConverters.c:912-943 | Each scalar's encoding is legal and stands for it. |
| `Utf8Format.PairedIff` | source/apple/CF/CFBuiltinConverters.c:959-972 | A text is well formed if and only if the scalars found in it make it up. |
| `Utf8Format.ScalarsCover` | source/apple/CF/CFBuiltinConverters.c:959-972 | The scalars found make up the text up to its first unpaired surrogate. |
| `BinaryHeap.BinaryHeap.GetValues` | source/apple/CF/CFBinaryHeap.c:325-345 | The output is an ascending permutation of the items; heap and the rest of the output are unchanged. |
| `BinaryHeap.BinaryHeap.AddValue` | source/apple/CF/CFBinaryHeap.c:375-403 | Keeps the heap order and adds exactly the value. |
| `BinaryHeap.BinaryHeap.RemoveMinimumValue` | source/apple/CF/CFBinaryHeap.c:405-436 | Keeps the heap order and removes exactly one least item; an empty heap stays empty. |
| `BinaryHeap.BinaryHeap.GetMinimum` | source/apple/CF/CFBinaryHeap.c:312-316 | The first item, not greater than any; the null item of an empty heap. |
| `BinaryHeap.BinaryHeap.CreateCopy` | source/apple/CF/CFBinaryHeap.c:270-273 | A heap of its own with the same items. |
| `BinaryHeap.BinaryHeap.Drain` | source/apple/CF/CFBinaryHeap.c:337-343 | Emptying a heap gives its items in ascending order. |
| `BinaryHeap.BinaryHeap.Grow` | source/apple/CF/CFBinaryHeap.c:363-373 | Room for the new values, the items where they were. |
| `BinaryHeap.BinaryHeap.RemoveAllValues` | source/apple/CF/CFBinaryHeap.c:438-448 | Ends with no items. |
| `BinaryHeap.SiftUp` | source/apple/CF/CFBinaryHeap.c:388-402 | Moving the hole up past greater parents and filling it restores the order with the same items. |
| `BinaryHeap.SiftDown` | source/apple/CF/CFBinaryHeap.c:420-435 | Moving the hole down past children that are not greater and filling it restores the order with the same items. |
| `BinaryHeap.ChooseChild` | source/apple/CF/CFBinaryHeap.c:422-429 | Chooses a child that is not greater than the other. |
| `BinaryHeap.RoundUpEnough` | source/apple/CF/CFBinaryHeap.c:38-41 | Rounding up, by an exact power of two, never gives less than asked for. |
| `HeapOrder.SiftUpStep` | source/apple/CF/CFBinaryHeap.c:392-397 | One step up leaves only the hole out of order. |
| `HeapOrder.SiftDownStep` | source/apple/CF/CFBinaryHeap.c:421-433 | One step down leaves only the hole out of order. |
| `HeapOrder.RootIsLeast` | source/apple/CF/CFBinaryHeap.c:312-316 | The first item of a heap is not greater than any other. |
| `BitVector.InternalMap` | source/apple/CF/CFBitVector.c:300-332 | For every range the mapper acts bit by bit inside it and changes no bit outside, and what it counts is exact. |
| `BitVector.MapPart` | source/apple/CF/CFBitVector.c:313-318 | Some bits of one bucket are mapped under a mask. |
| `BitVector.MapBuckets` | source/apple/CF/CFBitVector.c:320-325 | Whole buckets are mapped. |
| `BitVector.MapAligned` | source/apple/CF/CFBitVector.c:320-331 | Whole buckets and the last fragment are mapped. |
| `BitVector.MapsBits` | source/apple/CF/CFBitVector.c:460-499 | The zero, one, flip and count mappers act on each bit alike. |
| `BitVector.MapsJoin` | source/apple/CF/CFBitVector.c:300-332 | Mapping one range and then the next is mapping both, counts included. |
| `BitVector.BitVector.MapBits` | source/apple/CF/CFBitVector.c:300-332 | The counted bits of a range are mapped one by one, no other bit changes, and what is counted is exact. |
| `BitVector.BitVector.SetBits` | source/apple/CF/CFBitVector.c:516-526 | Every bit of the range has the value, every other bit, counted or not, is unchanged. |
| `BitVector.BitVector.FlipBits` | source/apple/CF/CFBitVector.c:501-507 | Every bit of the range is inverted, every other bit is unchanged. |
| `BitVector.FlipTwice` | source/apple/CF/CFBitVector.c:501-507 | Flipping a range twice changes nothing. |
| `BitVector.FlipSwapsCounts` | source/apple/CF/CFBitVector.c:497-507 | After flipping, the range has as many ones as it had zeroes. |
| `BitVector.BitVector.SetAllBits` | source/apple/CF/CFBitVector.c:528-543 | All counted bits have the value and no bit beyond them changes. |
| `BitVector.BitVector.SetCount` | source/apple/CF/CFBitVector.c:468-488 | Shortening keeps a prefix; lengthening appends zeroes whatever the new memory holds. |
| `BitVector.BitVector.Grow` | source/apple/CF/CFBitVector.c:449-458 | Room for the new bits, the counted bits unchanged. |
| `BitVector.BitVector.GetCountOfBit` | source/apple/CF/CFBitVector.c:351-360 | The number of bits of the range with the value; not a bit of the vector changes. |
| `BitVector.BitVector.GetBitAtIndex` | source/apple/CF/CFBitVector.c:113-117 | Reads the bit of the represented vector. |
| `BitVector.CountsAddUp` | source/apple/CF/CFBitVector.c:351-360 | Ones and zeroes of a range add up to its length. |
| `BitBucket.MaskBit` | source/apple/CF/CFBitVector.c:105-111 | A mask has exactly the bits from bottom to top. |
| `BitBucket.BitByShift` | source/apple/CF/CFBitVector.c:113-117 | Reading a bit by shifting is reading it by its weight. |
| `BitBucket.CountOnes` | source/apple/CF/CFBitVector.c:344-347 | Two table lookups give the number of bits set in a bucket. |
| `BitBucket.MaskedOnes` | source/apple/CF/CFBitVector.c:339-349 | Counting the masked bucket, or its complement, counts the bits with the value among those masked. |

## Left out

- Garbage-collector barriers and finalization, Objective-C dispatch, key-value observing, allocator choice and out-of-memory handling: foreign runtime with no effect on the abstract values.
- Threads and callbacks that call back into the same object.
- Bag.Bag.AddValue: asks that a full table can still double within 2^60 buckets, because more key words do not fit in the address space.
- Bag.Bag.SetValue: the same bound on the address space.
- Bag.Bag.MakeRoom: the same bound on the address space.
- Bag.Bag.Run: the same bound, on the classes of keys held at any time.
- Bag.Bag.GetCountOfValue: occurrence counts are unbounded, not 64-bit words that could wrap after 2^64 additions.
- CFBag enumeration, creation from a list of values, descriptions, the mutation counter and the immutable variety: they would only add easy members.
- The dictionary and set that share CFBag's source text.
- PlistStream.WriteToStream: more than 2^32 - 1 objects or more than LONG_MAX bytes give no result instead of the truncated references the code would write.
- PlistReader.CheckNumbers: the overflow-checked 64-bit arithmetic is exact integer arithmetic with the same limits; data is shorter than 2^64 bytes.
- PlistHeap.Flattener.Flatten: the hash sets used for uniquing are sequences of members, and the library's equality of scalars is a parameter; only its part on integers is written out, in PlistExact.IntegersEqual.
- Dictionaries are lists of keys and values in file order; what creating one with equal keys does is not modelled.
- Sets and null, which the writer does not emit; lookups of a single array element or dictionary value without parsing; conversion of numbers and dates between host and file, whose bytes are taken as they are.
- MutableArray.CFArray.ReplaceValues: release callbacks are not modelled beyond the slots they clear, and the large store is a sequence.
- `_CFArraySetCapacity`, sorting, enumeration and equality of arrays, and immutable arrays.
- ArraySearch.BSearchValues: strides are exact powers of two, where the code shifts a 32-bit 1; deque-backed arrays are searched by CFBSearch, which is not part of this model.
- Utf8Encode.ToUTF8Core: characters above 0x7FFFFFFF, which no UTF-16 text gives.
- Decomposition, the HFS+ variant, the lenient and the lossy mode of the UTF-8 converters, and the eight-bit encodings.
- BinaryHeap.RoundUpEnough: the code shifts a 32-bit 1, so that a heap cannot grow past 2^30 items; the model's capacities are exact.
- BinaryHeap.BinaryHeap.Grow: the same shift.
- BinaryHeap.BinaryHeap.AddValue: the retain callback is the identity; the compare context is not modelled.
- `__CFBinaryHeapEqual`, counting and applying a function to a heap's values.
- `CFBitVectorGetBits`, `__CFBitVectorEqual`, index searches, single-bit setters, and immutable and fixed-capacity bit vectors.
- Bundles, preferences, byte-order macros and base types.
