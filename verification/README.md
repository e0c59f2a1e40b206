# A verified model of the VD runtime library

The engine stands on a small C runtime in `lib/`: a buddy allocator, a JSON printer and parser that
work from a registry of types, an integer map with coalesced chains, a map of reference-counted
handles, a bounded formatter, an arena that threads allocate from, and a growable array. This project
models that runtime in Dafny and proves what its callers rely on. `dafny verify dfyconfig.toml` checks
all of it.

Code that updates memory in place is modelled as classes and methods with loops over arrays. Every such
method is proved against functions and predicates on plain values, and lemmas about those functions say
what the whole is for.

* `BuddyTiling.dfy` holds the invariants of the buddy allocator and `BuddyAlloc.dfy` the allocator
  itself. Offsets are byte offsets from `head`. `size` and `isFree` give the header fields at every
  offset, and stale headers of merged blocks stay in memory as they do in the C. Ghost state records
  where blocks begin (`starts`) and which allocations are live, with the size each was asked for (`live`).
* `IntMap.dfy` and `HandleMap.dfy` hold the two maps. Pointers into the table are indices. The ghost
  state is the insertion stamp and the slot of each key, and for handles the multiset of live handles,
  the objects registered and the objects freed.
* `MetaRegistry.dfy` holds the type registry. `MetaJson.dfy` says which text the printer produces and
  what the parser makes of any text, and proves that the second undoes the first.
  `MetaJsonPrinted.dfy` gives the printed text in full, minified and in lines, and `MetaJsonText.dfy` says
  what the parser makes of documents that others have written, with any layout, any order of fields, other
  members among them, and escapes. `MetaJsonWriter.dfy` and `MetaJsonReader.dfy` hold the growing buffer,
  the slices and the methods that print and parse.
* `Fmt.dfy` is the formatter, `Arena.dfy` the arena as threads that take steps and as a class whose
  methods are those steps, and `GrowArray.dfy` the array. `Bits.dfy`, `Decimal.dfy` and
  `Strings.dfy` define the bitwise operators, decimal numerals, C strings and integer widths that the
  others use.

Some properties that one might expect do not hold. For those, the model keeps what the code does, and a
member states exactly when the property holds or gives an input on which it fails:

* The payload of a buddy block fits its block for every request if and only if the alignment is the
  header size (`PayloadFitsIff`).
* `vd_buddy_alloc__find` can miss a last block that would fit (`UnseenBlock`). `AnswersNoneIff` says
  exactly when it answers with nothing.
* `vd_intmap_tryget` answers 1 for an unbound key if and only if the home slot of the key is empty
  (`TryGet`), as it does for every key of a new map (`NewMapAnswers`). A handle whose id was never issued,
  0 included, then resolves to slot 0 (`Use`).
* A string is read back as it was written if and only if it has no quote and no backslash
  (`StringRoundTripIff`). A type name is skipped as a whole if and only if its brackets and braces balance
  in number and no comma stands outside them (`NameSkippedIff`). No text whatever is accepted as an object
  of a type without fields (`EmptyObjectRejected`).
* Threads that allocate at the same time can be given unaligned pointers. When every request is for `n`
  bytes at one alignment, which the base of the arena has, all pointers are aligned in every run without a
  reset if and only if `n` is a multiple of the alignment or the arena has no room for two requests
  (`AllRunsAlignedIff`). With several alignments it is enough that all sizes are multiples of the largest
  (`RegionsAligned`).
* `lib/handlemap.h:22-24` says that objects in the mode ALWAYS are never freed. `vd_handlemap__deinit`
  frees them, and the model follows the code.

## Model

| member | source | states |
|---|---|---|
| Bits.RoundUp | lib/vd_buddy_alloc.h:54-76 | for every 64-bit input up to 2^63, the bit-smearing round-up gives the least power of two not below it; past that it wraps to 0 |
| Bits.SmearFills | lib/vd_buddy_alloc.h:64-73 | the six shift-and-or steps set every bit below the top one |
| Bits.ClearLowestBit | lib/vd_buddy_alloc.h:60-62 | `x & (x - 1)` is 0 exactly for the powers of two |
| Bits.MaskIsMod | lib/vd_buddy_alloc.h:92-93 | masking with a power of two less one takes the remainder |
| BuddyAllocator.BuddyAlloc.AlignForward | lib/vd_buddy_alloc.h:84-101 | the one multiple of the alignment in [p, p + align) |
| BuddyAllocator.BuddyAlloc.SizeReq | lib/vd_buddy_alloc.h:186-196 | the least power of two that is no smaller than the alignment and holds request and header |
| BuddyTiling.MergeKeepsTiling | lib/vd_buddy_alloc.h:140-141 | merging two neighbours of equal size keeps the tiling by blocks of power-of-two size, the least size included |
| BuddyTiling.SplitKeepsTiling | lib/vd_buddy_alloc.h:114-120 | halving a block keeps the tiling, and the new block begins where none began |
| BuddyTiling.Covered | lib/vd_buddy_alloc.h:103-106 | in a tiling every byte of the region lies in a block, so a walk over headers leaves nothing out |
| BuddyTiling.SameUsedTransitive | lib/vd_buddy_alloc.h:246-261 | steps that leave the blocks in use as they were, compose |
| BuddyScan.MergeBest | lib/vd_buddy_alloc.h:140-153 | the best fit stays a best fit when the pair at the scan merges, even when the best fit itself is the block that doubles |
| BuddyScan.CompareBest | lib/vd_buddy_alloc.h:155-176 | the two comparisons keep a best fit of everything looked at so far |
| BuddyScan.ScanDone | lib/vd_buddy_alloc.h:139-181 | when the scan ends, the choice is free and fits, and no other free fitting block is smaller except the block that the scan leaves unseen |
| BuddyScan.LeftOverIsLast | lib/vd_buddy_alloc.h:139-176 | the block that a scan leaves unseen is the last one of the region |
| BuddyScan.ScanKeepsUsed | lib/vd_buddy_alloc.h:139-176 | a scan changes no header cell inside a block in use |
| BuddySplit.SplitStep | lib/vd_buddy_alloc.h:114-120 | one halving: the pieces cut off so far are free and each has half of what was left, and nothing outside the block has changed |
| BuddySplit.SplitDone | lib/vd_buddy_alloc.h:108-127 | a cut that has reached the requested size leaves every block in use as it was |
| BuddyAllocator.BuddyAlloc.Split | lib/vd_buddy_alloc.h:108-127 | fails without a change exactly when the block is too small; otherwise yields the rightmost piece, of exactly the requested size, and keeps the tiling and the blocks in use |
| BuddyAllocator.BuddyAlloc.Scan | lib/vd_buddy_alloc.h:131-176 | the loop keeps the tiling, leaves exactly the sizes of the specification, and yields a best fit |
| BuddyAllocator.BuddyAlloc.Find | lib/vd_buddy_alloc.h:129-184 | the answer is a piece of the requested size cut out of the best fit of the scan, or nothing; the blocks in use stay as they were |
| BuddyAnswer.AnswersNoneIff | lib/vd_buddy_alloc.h:155-183 | nothing is found exactly when, after the scan, no free block but the unseen one fits |
| BuddyCoalescing.PassMerge | lib/vd_buddy_alloc.h:206-212 | a merge in a pass keeps the tiling and leaves fewer blocks |
| BuddyCoalescing.PassDone | lib/vd_buddy_alloc.h:199-227 | a pass that did not set the flag leaves memory in which a pass merges nothing; one that did leaves strictly fewer blocks |
| BuddyCoalescing.SettledStays | lib/vd_buddy_alloc.h:203-226 | another pass over memory in which nothing is left to merge changes nothing, so it is right to stop |
| BuddyCoalescing.ReachesGrown | lib/vd_buddy_alloc.h:206-212 | the way of a pass to a block is the same after that block has doubled |
| BuddyAllocator.BuddyAlloc.Pass | lib/vd_buddy_alloc.h:200-221 | the loop over headers: leaves exactly the sizes of one pass of the specification, and the flag says whether another is needed |
| BuddyAllocator.BuddyAlloc.Coalescence | lib/vd_buddy_alloc.h:198-228 | terminates, keeps the tiling and the blocks in use, and leaves the sizes that the passes of the specification leave, with nothing that another pass would merge |
| BuddyAllocator.BuddyAlloc.constructor | lib/vd_buddy_alloc.h:230-244 | the region is the least power of two not below the size asked for, it is one free block, the alignment is rounded up and at least the header size, which it is when the rounding wraps, and the invariant holds |
| BuddyAllocator.BuddyAlloc.Realloc | lib/vd_buddy_alloc.h:246-274 | keeps the invariant of every run; an allocation adds one live block of exactly the required size, cut out of a best fit, changes no cell of the others, and fails only when no block but the last can serve; a release changes one flag; resizing changes nothing |
| BuddyAllocator.BuddyAlloc.FindOrCoalesce | lib/vd_buddy_alloc.h:250-254 | coalesces only if the first search found nothing, and then answers for the memory that coalescing leaves |
| BuddyAllocator.BuddyAlloc.Take | lib/vd_buddy_alloc.h:256-259 | marking the block as in use makes it live and changes no cell of another live block |
| BuddyAllocator.BuddyAlloc.Free | lib/vd_buddy_alloc.h:262-269 | a release removes the one allocation from the live ones, writes nothing but its flag, and keeps the invariant |
| BuddyLive.LiveKept | lib/vd_buddy_alloc.h:246-274 | whatever keeps the blocks in use keeps the live allocations, with their offsets and sizes |
| BuddyLive.FailedFind | lib/vd_buddy_alloc.h:250-261 | after a failed search the last block is the only one that may be free and large enough |
| BuddyLive.PayloadsDisjoint | lib/vd_buddy_alloc.h:256-259 | the bytes handed out for live allocations are pairwise disjoint and inside the region, and no header lies among them |
| BuddyAllocator.BuddyAlloc.LivePayloads | lib/vd_buddy_alloc.h:246-274 | the same of every reachable state |
| BuddyLive.PayloadFitsIff | lib/vd_buddy_alloc.h:188-259 | every request fits its block, behind the alignment, if and only if the alignment is the header size |
| BuddyLive.UnseenBlock | lib/vd_buddy_alloc.h:139-181 | a concrete region, with live allocations as the invariant asks, whose last block is free and fits and is missed |
| BuddyAllocator.BuddyAlloc.GetStats | lib/vd_buddy_alloc.h:281-324 | total is the size of the region, used the sum of the live blocks, and the counts are those of the blocks and of the free blocks |
| IntMaps.HomeRegion | lib/intmap.c:12 | keys hash to four fifths of the table, rounded up, which is neither nothing nor more than all of it |
| IntChains.LinksAcyclic | lib/intmap.c:41-79 | links stay in the table, lead from used slots to used slots, and never back |
| IntChains.UsedReachable | lib/intmap.c:41-79 | every used slot is reached from the home slot of its key |
| IntChains.CountBounds | lib/intmap.c:76-84 | the use count is at most the table size and reaches it exactly when every slot is used |
| IntChains.Insert | lib/intmap.c:45-76 | linking an unused slot behind the end of a chain, or filling an empty home slot, keeps the whole invariant |
| IntChains.InsertBinding | lib/intmap.c:45-76 | it adds the one binding and changes no other |
| IntMaps.IntMap.constructor | lib/intmap.c:6-20 | the empty map, with every slot unused |
| IntMaps.IntMap.TryGet | lib/intmap.c:22-39 | a bound key is found with its value; the answer is 1 exactly for bound keys and for keys whose home slot is empty, with value 0 then; the walk terminates |
| IntMaps.IntMap.NewMapAnswers | lib/intmap.c:6-39 | a new map binds nothing and answers 1, with value 0, for every key |
| IntMaps.IntMap.FreeSlot | lib/intmap.c:51-62 | the highest unused slot, and none exactly when all are used |
| IntMaps.IntMap.ChainEnd | lib/intmap.c:64-70 | the walk ends at the end of the chain |
| IntMaps.IntMap.Set | lib/intmap.c:41-79 | a fresh key is added to the mathematical map; an auto-growing set always succeeds, any other fails exactly when the table is full and then changes nothing |
| IntMaps.IntMap.CheckGrow | lib/intmap.c:81-105 | doubles the table exactly when it is full and changes no binding; the recursion stops after one level |
| IntMaps.IntMap.Rehash | lib/intmap.c:91-99 | the loop carries every binding into the new table, which is never found full |
| HandleMaps.HandleMap.constructor | lib/handlemap.c:39-67 | no object, no handle, nothing freed |
| HandleMaps.HandleMap.AllocateSlot | lib/handlemap.c:69-82 | the next slot, doubling the array exactly when it is full and keeping its contents |
| HandleMaps.HandleMap.Register | lib/handlemap.c:84-105 | a handle with a new id, one live handle more, the object appended with count 1, and all other objects as they were, through array growth and rehashing |
| HandleMaps.HandleMap.Use | lib/handlemap.c:107-117 | an issued id resolves to its own slot and the object that was registered there; every live handle has an issued id; an id that was not issued resolves to slot 0 if its home slot is empty, and to nothing otherwise |
| HandleMaps.HandleMap.Copy | lib/handlemap.c:119-137 | one more live handle to the same object; an unknown id yields the null handle and changes nothing |
| HandleMaps.HandleMap.Drop | lib/handlemap.c:139-159 | one live handle fewer; the object is freed exactly when this was the last handle to a counted slot; an unknown id changes nothing |
| HandleMaps.HandleMap.Release | lib/handlemap.c:148-157 | the count falls by one, its assertion never fires, and at 0 the object is freed and the slot cleared |
| HandleMaps.HandleMap.Deinit | lib/handlemap.c:161-174 | by the end every registered object has been freed exactly once |
| HandleMaps.Registering | lib/handlemap.c:92-98 | a new slot keeps the invariant that a counted slot counts its undropped handles |
| HandleMaps.Copying | lib/handlemap.c:131-136 | a copy keeps that invariant, and so does one in the other mode |
| HandleMaps.Dropping | lib/handlemap.c:147-158 | the count of a live handle is positive, it is 1 exactly for the last handle, and the drop keeps the invariant |
| HandleMaps.HandleMap.FreedHasNoHandle | lib/handlemap.c:139-159 | before the end, whatever has been freed was freed once, was counted and has no live handle |
| HandleMaps.NextId | lib/handlemap.c:86-90 | ids and slots are issued in step, so that each new id is a fresh key of the integer map |
| HandleMaps.OnceEach | lib/handlemap.c:165-173 | as many callbacks as objects |
| MetaTypes.FindsFirstId | lib/vd_meta.h:800-813 | a name is found exactly when some type has it, and then the id of the first such is found |
| MetaTypes.FindsFirstDescriptor | lib/vd_meta.h:815-828 | the same for the descriptor with an id |
| MetaTypes.AnswersStay | lib/vd_meta.h:741-828 | later registrations change no earlier answer |
| MetaTypes.RegisteredIsFound | lib/vd_meta.h:741-828 | a new name with a new id is found by both, whatever is registered before and after |
| MetaTypes.IndexesAppend | lib/vd_meta.h:779-795 | appending a descriptor to its one bucket keeps every bucket in step with the list |
| MetaTypes.BucketFindsId | lib/vd_meta.h:800-813 | the bucket of a name answers for the whole list, for any hash function |
| MetaTypes.BucketFindsDescriptor | lib/vd_meta.h:815-828 | the bucket of an id answers for the whole list |
| MetaRegistry.Registry.constructor | lib/vd_meta.h:631-660 | an empty registry |
| MetaRegistry.Registry.Register | lib/vd_meta.h:741-798 | the registry is a list in the order of registration; ids issued automatically are distinct |
| MetaRegistry.Registry.GetId | lib/vd_meta.h:800-813 | the id of the first type in order of registration that has the name, and 0 if none has |
| MetaRegistry.Registry.GetDescriptor | lib/vd_meta.h:815-828 | the first descriptor in order of registration that has the id, and nothing exactly if none has |
| JsonBuffer.Buffer.EnsureAdd | lib/vd_meta.h:503-513 | makes room and keeps the contents |
| JsonBuffer.Buffer.PushStr | lib/vd_meta.h:515-521 | appends |
| JsonBuffer.Buffer.Terminate | lib/vd_meta.h:559-563 | puts a NUL behind the contents without changing them |
| JsonWriter.WriteDescriptor | lib/vd_meta.h:966-1070 | appends exactly the text of the value |
| JsonWriter.WriteObjectTo | lib/vd_meta.h:1072-1144 | appends exactly the text of the object, at any indentation |
| JsonWriter.WriteField | lib/vd_meta.h:1105-1130 | appends the text of one field: indentation, key, value, comma and newline |
| JsonWriter.ObjectBehind | lib/vd_meta.h:1072-1144 | what is written later does not change the text of an object |
| JsonWriter.WriteJson | lib/vd_meta.h:1146-1174 | the text of the object from an empty buffer, which is its minified text at a negative indentation and its lines, joined by newlines, at any other |
| JsonPrinted.MinifiedText | lib/vd_meta.h:966-1144 | at a negative indentation the type name and the fields in order, separated by commas only |
| JsonPrinted.MinifiedObject | lib/vd_meta.h:1072-1144 | the same for objects, the trailing comma of an object without fields included |
| JsonPrinted.IndentedText | lib/vd_meta.h:966-1144 | at any other indentation each entry stands on a line of its own, four columns further in than the braces around it, with one space behind its colon |
| JsonPrinted.IndentedObject | lib/vd_meta.h:1072-1144 | the same for objects |
| JsonPrinted.StrippedIsMinified | lib/vd_meta.h:966-1144 | without the space outside string literals, the text at any indentation is the minified text |
| JsonPrinted.MinifiedHasNoSpace | lib/vd_meta.h:1072-1144 | the minified text has no space outside its literals |
| JsonPrinted.MinifiedVector | lib/vd_meta.h:1072-1144 | an object of one integer field, to the character |
| JsonSlice.Slice.SkipJsonValue | lib/vd_meta.h:1309-1331 | stops behind the first comma outside brackets and braces, and terminates on every text |
| JsonSlice.Slice.Apply | lib/vd_meta.h:1245-1248 | what a copy of a slice has consumed is consumed in the original |
| JsonSlice.ReadContent | lib/vd_meta.h:1274-1297 | pushes the content of the literal, with its escapes resolved |
| JsonSlice.ParseString | lib/vd_meta.h:1261-1307 | the literal ahead, taken as a C string; without one the position does not move |
| JsonLex.StringRoundTripIff | lib/vd_meta.h:985-1307 | a C string comes back from between its quotes, with just its literal consumed, if and only if it has no quote and no backslash |
| JsonLex.NameSkippedIff | lib/vd_meta.h:1309-1331 | a quoted name with a comma behind it is skipped just up to that comma if and only if its bracket and brace depths end at 0 and no comma stands where both are 0 |
| JsonLex.ReadDecInt | lib/vd_meta.h:1454-1511 | reading a printed integer yields its sign and magnitude and consumes just its numeral |
| JsonRoundTrip.StoreWraps | lib/vd_meta.h:1454-1511 | any other 64-bit number is stored modulo the width of the field |
| JsonRoundTrip.StoreInRange | lib/vd_meta.h:1454-1511 | the conversions to the width of the field change no value in its range |
| JsonRead.FindField | lib/vd_meta.h:1250-1259 | the first field with the name, or none |
| JsonRead.ParseDescriptor | lib/vd_meta.h:1437-1569 | never moves back, and on an error does not move |
| JsonRead.ParseObject | lib/vd_meta.h:1683-1759 | never moves back, and on an error does not move, however deep the text nests |
| JsonReader.ParseDescriptorAt | lib/vd_meta.h:1437-1569 | in place the value that the specification reads; an error leaves the position of the caller unchanged |
| JsonReader.ParseFieldAt | lib/vd_meta.h:1571-1681 | the same for a field without array flags |
| JsonReader.ParseObjectAt | lib/vd_meta.h:1683-1759 | the same for an object; it terminates on every text, well formed or not |
| JsonReader.ParseMember | lib/vd_meta.h:1707-1754 | every turn of the loop that goes on moves on by at least one character |
| JsonReader.ParseMemberValue | lib/vd_meta.h:1719-1753 | the value of a field is stored in that field alone; the text of an unknown field is skipped |
| JsonReader.ObjectTypeOf | lib/vd_meta.h:1761-1830 | the type that the specification reads, or its error code; it terminates on every text |
| JsonReader.TypeMember | lib/vd_meta.h:1776-1823 | every turn of that loop that goes on moves on |
| JsonReader.Parse | lib/vd_meta.h:1832-1904 | error code, actual type and object as the specification reads them |
| JsonRoundTrip.ValueRoundTrip | lib/vd_meta.h:966-1569 | reading a printed value yields the value and consumes exactly its text |
| JsonRoundTrip.FieldsRoundTrip | lib/vd_meta.h:1105-1754 | reading the printed fields from any one on yields the object, when the fields before it have been read |
| JsonRoundTrip.ObjectRoundTrip | lib/vd_meta.h:1072-1759 | reading a printed object yields the object and consumes exactly its text, nested to any depth, at any indentation or minified |
| JsonRoundTrip.NoFieldsNoEnd | lib/vd_meta.h:1707-1754 | the loop over fields comes to no successful end on any text when the type has no fields |
| JsonRoundTrip.EmptyObjectRejected | lib/vd_meta.h:1683-1759 | no text is accepted as an object of a type without fields, what is printed for one included |
| JsonRoundTrip.ReadsBack | lib/vd_meta.h:1146-1904 | printing and then parsing yields success, the same type id and an equal object |
| JsonReader.WriteAndParse | lib/vd_meta.h:1146-1904 | the same of the methods, through one registry |
| JsonDocRead.SkipBlank | lib/vd_meta.h:1224-1239 | space, tab, newline and carriage return are skipped before any text |
| JsonDocRead.PieceRead | lib/vd_meta.h:1277-1293 | each escape is read as its own character, and any other character behind a backslash as itself |
| JsonDocRead.DocRead | lib/vd_meta.h:1437-1569 | a document that fits a type is read as the value it stands for, to just its end |
| JsonDocRead.MembersRead | lib/vd_meta.h:1707-1754 | members in any order and with any space between their tokens are assigned by their keys, and keys that the type does not have are skipped |
| JsonDocRead.FieldAssigned | lib/vd_meta.h:1723-1739 | a field gets the value of the one member with its key, wherever that stands, and stays zero without one |
| JsonDocRead.TypeFound | lib/vd_meta.h:1776-1823 | the type name is found behind any members that can be skipped, and answers with the id, TYPE_MISMATCH or INVALID_TYPE |
| JsonDocRead.ReadsDocument | lib/vd_meta.h:1832-1904 | any document that names its type and fits it is parsed as what it stands for; a name that is not registered answers -3, and one other than the expected answers -5 |
| JsonDocRead.NoBraceRejected | lib/vd_meta.h:1768-1774 | text whose first token is no brace answers -2 |
| JsonLayouts.ReadsAnyLayout | lib/vd_meta.h:1832-1904 | an object printed with any run of space, tab, newline and carriage return at every place between its tokens is read back |
| Decimal.ScanDec | lib/vd_fmt.h:141-181 | reading a numeral gives back the number |
| Decimal.DecLength | lib/vd_fmt.h:111-120 | a numeral has at most k digits exactly for numbers below 10^k |
| Decimal.DecLengthIff | lib/vd_fmt.h:111-120 | its length is the number of digits |
| Decimal.Canonical | lib/vd_fmt.h:141-181 | a digit string without a leading zero is the numeral of the number it reads as |
| Decimal.DecIntForm | lib/vd_fmt.h:141-181 | a printed integer has a minus sign exactly when negative, no leading zero, and reads back |
| FmtDigits.LutDigits | lib/vd_fmt.h:141-146 | entry i of the table of pairs is i in two digits |
| FmtInt.NumeralFits | lib/vd_fmt.h:126-134 | the longest numeral of each type, sign included, fits its length and the 21 characters of scratch |
| FmtInt.WriteDigits | lib/vd_fmt.h:151-177 | two digits at a time, the loop leaves exactly the canonical numeral at the end of the scratch, with every index inside it |
| Formatter.IntToStr | lib/vd_fmt.h:148-181 | the numeral of the argument if it fits; too little room for the longest numeral takes no argument and writes nothing |
| Formatter.TextToStr | lib/vd_fmt.h:196-256 | slices, and C strings up to their NUL: the text if it fits, else nothing |
| Formatter.PathToStr | lib/vd_fmt.h:224-238 | the path with its backslashes turned, if it fits |
| Formatter.NullToStr | lib/vd_fmt.h:240-247 | one NUL, if it fits |
| Formatter.FindClose | lib/vd_fmt.h:314-322 | the next closing brace, or the end |
| Formatter.FindDirective | lib/vd_fmt.h:324-347 | the first table entry with the name |
| Formatter.NextStep | lib/vd_fmt.h:302-349 | a literal character, a directive with where it ends, or an ill-formed one |
| FmtInt.MaxDigitsIs | lib/vd_fmt.h:126-134 | the length that each type asks for is that of its largest unsigned value, and one more for a sign |
| FmtDirectives.PathDirective | lib/vd_fmt.h:224-279 | `%{pathu32}`, anywhere in a format, prints its argument with every backslash turned into a slash |
| FmtDirectives.SliceDirective | lib/vd_fmt.h:196-270 | `%{stru32}` and `%{stru64}` print their argument as it is |
| FmtDirectives.CStringDirective | lib/vd_fmt.h:249-271 | `%{cstr}` prints its argument up to the first NUL |
| FmtDirectives.NullDirective | lib/vd_fmt.h:240-280 | `%{null}` prints a NUL and takes no argument |
| FmtDirectives.UnsignedDirective | lib/vd_fmt.h:148-266 | `%{u8}` to `%{u64}` print every value of that many bits so that it reads back |
| FmtDirectives.SignedDirective | lib/vd_fmt.h:148-262 | `%{i16}` to `%{i64}` do so with a sign, for every value but the most negative |
| FmtDirectives.CharacterCopied | lib/vd_fmt.h:303-311 | every other character is copied, a per cent sign without a brace behind it too |
| FmtDirectives.TextCopied | lib/vd_fmt.h:303-311 | text without per cent signs is copied |
| FmtDirectives.UnknownName | lib/vd_fmt.h:324-349 | a format that comes to a name outside the table is ill-formed as a whole |
| FmtDirectives.UnclosedBrace | lib/vd_fmt.h:314-322 | so is one that comes to a brace that is not closed |
| FmtDirectives.BuiltinPath | cli/cli.c:35 | the expansion of one format of the repository |
| FmtSpec.CountGrows | lib/vd_fmt.h:297-361 | the count never falls |
| FmtSpec.CountFitsIff | lib/vd_fmt.h:297-361 | the count is within the buffer exactly when every directive finds its room, and it is the length of the text then |
| Formatter.ExpandStep | lib/vd_fmt.h:331-358 | a directive keeps the invariant that a count within the buffer means the text so far is there |
| Formatter.Vsnfmt | lib/vd_fmt.h:297-361 | an answer within n certifies that the buffer begins with literal text and rendered arguments in full; nothing at or beyond n is ever written; an ill-formed format answers 0 |
| ArenaPadding.PaddingAligns | lib/arena.h:43 | negating and masking gives the padding, less than the alignment, that takes an address to a multiple, and 0 if it is one |
| ArenaAlloc.StepKeepsInv | lib/arena.h:41-65 | every step of every thread keeps the regions returned inside the arena and one behind the other |
| ArenaAlloc.RunKeepsInv | lib/arena.h:41-65 | so does every run |
| ArenaAlloc.RegionsDisjoint | lib/arena.h:41-65 | in every interleaving of any number of threads, regions returned since the last reset are pairwise disjoint and inside the arena |
| ArenaAlloc.ExhaustedForGood | lib/arena.h:50-57 | once `begin` has passed the end, no call succeeds until a reset |
| ArenaAlloc.StepKeepsAligned | lib/arena.h:41-65 | every step keeps `begin` a multiple of the largest alignment, when all sizes are, and so no call has padding |
| ArenaAlloc.RegionsAligned | lib/arena.h:41-65 | with the base and all sizes multiples of the largest alignment asked for, every returned pointer has its own alignment, in every run |
| ArenaAlloc.AllRunsAlignedIff | lib/arena.h:41-65 | for requests of one size n and one alignment, from a base that has it: all pointers are aligned in every run without a reset if and only if n is a multiple of the alignment or there is no room for two; with room for two, in every run if and only if n is a multiple |
| ArenaAlloc.RunKeepsSingle | lib/arena.h:41-60 | without room for two requests, a run without a reset returns only aligned pointers, whatever the size |
| ArenaAlloc.InterleavedRun | lib/arena.h:43-53 | a run of two threads in which the region of the second to add begins right behind that of the first, whatever the alignment |
| ArenaAlloc.GrantAlignedIff | lib/arena.h:43-53 | one step: the pointer it returns is aligned if and only if `begin` has moved by a multiple of the alignment since the call read it |
| ArenaAlloc.UnalignedRun | lib/arena.h:43-53 | such a run that returns address 4 for alignment 8 |
| ArenaAlloc.CallAlone | lib/arena.h:41-60 | a call without interference claims exactly padding and size, from an aligned address |
| AtomicArena.AtomicArena.ReadPadding | lib/arena.h:43 | the method is the reading step |
| AtomicArena.AtomicArena.CheckAvailable | lib/arena.h:44-48 | the method is the checking step |
| AtomicArena.AtomicArena.FetchAdd | lib/arena.h:50-59 | the method is the atomic step, with its test against the end |
| AtomicArena.AtomicArena.AllocT | lib/arena.h:41-60 | a call by one thread: an aligned region directly behind the old `begin`, or nothing exactly when it would pass the end |
| AtomicArena.AtomicArena.ResetAll | lib/arena.h:62-65 | `begin` goes back to the base, nothing counts as granted, and threads in a call keep what they have read |
| ArenaAlloc.ResetThenAlloc | lib/arena.h:41-65 | after a reset a thread is granted whatever fits behind the base |
| GrowArray.NewCap | lib/array.h:42-56 | the new capacity is enough, is unchanged exactly when there is room, and otherwise at least doubles |
| GrowArray.GrowArray.constructor | lib/array.h:13 | an empty array of capacity 4 |
| GrowArray.GrowArray.Grow | lib/array.h:35-72 | makes the room asked for, keeps the contents, and copies only when it grows |
| GrowArray.GrowArray.Add | lib/array.h:15 | the contents are extended by one, and capacity stays tied to what has been copied |
| GrowArray.GrowArray.AddN | lib/array.h:18 | the length grows by n and the old contents stay |
| GrowArray.GrowArray.AddAll | lib/array.h:12-72 | after n single adds the contents are the pushed sequence, and fewer than 2n elements were copied |

## Left out

- Set: takes only keys that are not bound, as the C does not look for an existing key; a second entry for a key would be found or not depending on the order of later rehashing.
- `vd_intmap_del`: the handle map does not use it, and it clears an entry without relinking its chain. The map is modelled for insertions only.
- HomeRegion: the share of the table that is not hashed to is computed over the reals, not in single precision.
- Copy: is not modelled for a handle that has been dropped as often as it was given out, nor for an id that was never issued but resolves to slot 0.
- Drop: the same.
- constructor: `vd_buddy_alloc_init` is not modelled for regions of 8 bytes or less, which cannot hold the header that is written, nor past 2^63 bytes, where the size wraps to 0; `vd_meta_init` is modelled without its default types, which it registers only when a compile-time option asks for them.
- UnseenBlock: gives a state that satisfies the invariant, not the run that leads to it.
- WriteDescriptor: floats are not written, nor strings other than C strings; such types are `Untouched`.
- ParseDescriptor: floats and array shapes are not read.
- ParseDescriptorAt: the same.
- ParseFieldAt: fields with array flags are left out, since the offset of such a field is added both at `lib/vd_meta.h:1739` and at `lib/vd_meta.h:1423`; so are the `vd_meta_field_array_*` functions.
- IntToStr: the most negative value of each signed type is left out, as its negation leaves the type.
- Vsnfmt: formats with float directives, `i8` or a table entry without a procedure are left out; they are `Other`. `lib/fmt.c` and its measuring pass are not modelled.
- AddN: what the added elements hold is not determined, as in the C.
- `lib/strmap.c`, the entity list of `ng/src/mm.c`, the delegates of `lib/delegate.h`, `lib/str.c` and `vd_arena_alloc`, the arena call for one thread.
- Vulkan, SDL, flecs, glslang and Lua code, networking, system utilities, and everything under `ext/`.
- Objects in memory are trees of values, by field. Offsets into raw bytes, and storing through pointers, are not modelled; the reader methods return the updated object.
- The printing and reading of integers by libc are specified as decimal functions, with `long` 64 bits wide.
- `key`, which the C does not initialise when no string was read, is an arbitrary function of the text ahead.
- The descriptors and id entries in a registry bucket are one sequence for each bucket; the array growth of a bucket (`lib/vd_meta.h:366-403`) is that of `GrowArray`.
- Hash functions are arbitrary fixed functions.
- Allocator failure, the release of old memory, and the wrap-around of sizes near 2^64, except in the round-up, which is modelled with its wrap.
- An argument of the wrong kind for its directive is an arbitrary value, as `va_arg` would yield.
- Arena addresses stay below 2^64, and clearing the returned memory is not modelled. The default of 8 for the alignment is one value of the parameter.
- `vd_buddy_alloc_deinit` and `vd_intmap_deinit`, which hand memory back to the system.
