# The TomTom backend: sorting, cloning, coding and serving

The backend answers FlatBuffers requests over HTTP. This project models the parts of it that loop, update
state in place or compute with wrapping arithmetic, and proves what they promise.

- `Memory`, `Order`, `Vectors`, `Strings`, `Search`, `Tables`: the generated reader. Heap sort and the swaps work on
  the bytes of a buffer; a slot of a table or string vector holds an offset relative to itself, and the sort of the
  offsets is proved to be a sort of the objects they lead to. Binary search is proved against the linear scan.
- `Schema`, `Readings`, `Builders`, `Walks`, `Clone`, `CloneLaws`, `UnionVectors`, `Create`: the generated builder of
  the response schema. `Readings` says what a reader sees in each table, as the schema lists its fields. Cloning is
  recursion over the schema with a memo. The central invariant says of every emitted copy which source object it
  copies; meaning, well-formedness and sharing follow from it. The builder itself is taken by the contract in its
  header: a class whose primitives succeed a given number of times and fail from then on, and which decides at which
  adds its stack moves, so that pointers into it are dead. A walk computes from the source and the builder alone how
  many primitives a clone spends, what it memoises and which union types it loses; every clone does what its walk
  says, and succeeds exactly if the primitives suffice.
- `Bits`, `Base64`, `CStrings`, `Queries`: the codec, bounded concatenation, and the two statements built with it.
- `Transaction`, `Connections`: the callback of a connection. `Transaction` is a machine over the callback reasons in
  which a double free, a use after free or an access out of bounds is an outcome of its own; `Connections` carries out
  the same steps on fields and a heap.
- `AlignedAlloc`: the generic aligned allocator with its hidden back pointer.

Where the code does less than its documentation says, the code is what is modelled:

- The callback for a new request clears its local pointer to the session, not the session (main.c, line 218). The
  counter of sent chunks therefore starts at zero only in session memory that is zeroed by the library;
  `Transaction.SendingNeedsZeroCounter` gives the exact condition.
- The generated `_add` of a union takes a pointer for the type, makes another builder call for the value, and only then
  writes the type (flatbuffers_common_builder.h, lines 417-419), while flatcc_builder.h says that the pointer need not
  survive other builder calls (lines 1309-1311). If that call moves the stack, the type of a cloned message is lost and
  the message reads as another one or as one without content. `CloneLaws.MessageKeepsMeaning` gives the exact condition
  in terms of the builder before the call: with `n` primitives left once the message is started and the table of its
  union cloned, the type is kept if and only if the builder does not move the stack at the add with `n - 1` to go, or
  leaves the right byte by chance. `CloneLaws.CloneLogin` clones a message for which it fails.
- The refmap expects an address to stand for one object (flatcc_refmap.h, lines 23-26), but the key of a vector is the
  address behind its length (flatbuffers_common_builder.h, lines 197-198 and 290). An empty vector directly in front of
  a table has that table's address, and with a refmap the clone of the table then returns the reference of the vector.
  `Vectors.EmptyVectorAddress` gives the exact condition for the two addresses to be one, and
  `CloneLaws.MemoIsByAddress` what the clone of the second object then returns: a reference to nothing of its kind if
  and only if the kinds differ. The model has one object at each address, so its other results on clones with a refmap
  hold for sources in which no empty vector lies directly in front of another object.
- The union vector clone refuses elements of type NONE, which flatcc_builder.h allows in union vectors (lines
  1628-1629), and returns the two nulls of an absent vector while its offset vector stays open;
  `UnionVectors.ClonedUnlessNone` gives the exact condition.
- `CheckContract_create` fails on a null description or attachment although both fields are optional.
- The callback takes only a result of 0 for a failed write (main.c, line 257), while lws-write.h documents -1 for a
  failure (lines 192-193). After a failed write the code goes on to the next chunk, and after the last one it completes
  the transaction; `Transaction.ResponseIsComplete` gives the exact condition under which the reply was sent, and
  `Transaction.ReplyLost` a run in which it was not.
- The decoder refuses the empty encoding of the empty string, and ignores what follows a padded quad.
- The encoder's buffer has room for line feeds that are not written.

`dafny verify dfyconfig.toml` checks the project.

## Model

| member | source | states |
|---|---|---|
| Memory.ReadOfWrite | backend/api-schema/request/gen/flatbuffers_common_reader.h:417-423 | the little-endian write of an offset is undone by the read: every 32-bit word reads back as written |
| Memory.WriteOfRead | backend/api-schema/request/gen/flatbuffers_common_reader.h:417-423 | writing back the word that was read changes no byte |
| Memory.LowByteFirst | backend/api-schema/request/gen/flatbuffers_common_reader.h:417-423 | the byte at the lowest address of a word is its least significant one |
| Vectors.WrappedDistanceIsDistance | backend/api-schema/request/gen/flatbuffers_common_reader.h:419 | the slot distance, computed with wrapping 64-bit subtraction and multiplication and cut to 32 bits, is `4 * (a - b)` up to a multiple of 2^32, whichever slot comes first |
| Vectors.SwappedWords | backend/api-schema/request/gen/flatbuffers_common_reader.h:417-423 | what the two slots hold after an offset swap, and that no other byte changes |
| Vectors.SwapExchangesTargets | backend/api-schema/request/gen/flatbuffers_common_reader.h:417-423 | an offset swap exchanges the two absolute targets if and only if each target can be reached from the other slot by an offset that does not wrap |
| Vectors.SwapIsInvolution | backend/api-schema/request/gen/flatbuffers_common_reader.h:417-423 | an offset swap is its own inverse on all bytes, wrapped or not |
| Vectors.SwapExchangesElements | backend/api-schema/request/gen/flatbuffers_common_reader.h:416-427 | on a vector whose targets lie past it, the value swap and the offset swap exchange exactly two elements (scalars, or objects referred to), keep all others and write to no byte outside the slots |
| Vectors.SwapOffsets | backend/api-schema/request/gen/flatbuffers_common_reader.h:417-423 | the in-place offset swap, on the bytes |
| Vectors.SwapValues | backend/api-schema/request/gen/flatbuffers_common_reader.h:416 | the in-place swap of two slots through a temporary |
| Vectors.OffsetsWritten | backend/api-schema/request/gen/flatbuffers_common_reader.h:112-115 | in a vector stored as the word of its length and one offset per slot, each counted from its own slot, every slot leads to its target |
| Vectors.EmptyVectorAddress | backend/api-schema/response/gen/flatbuffers_common_builder.h:197-198 | an object behind a vector has the address the vector is memoised under if and only if it follows at once and the vector is empty |
| Vectors.SwapPermutes | backend/api-schema/request/gen/flatbuffers_common_reader.h:424-427 | a swap turns a permutation of the referenced objects into another one and keeps every target past the vector |
| Order.LeavesAreHeap | backend/api-schema/request/gen/flatbuffers_common_reader.h:402-403 | the nodes above `size >> 1` have no children, so the first sift-down may start there |
| Order.SiftStep | backend/api-schema/request/gen/flatbuffers_common_reader.h:381-394 | exchanging a root with its larger child moves the only violation of the heap order to that child, strictly downwards, although node 0 is its own left child |
| Order.SiftDone | backend/api-schema/request/gen/flatbuffers_common_reader.h:392-397 | a sift-down that stops, at a leaf or because no child is larger, leaves a complete heap on `[start, end]` |
| Order.HeapTop | backend/api-schema/request/gen/flatbuffers_common_reader.h:404-406 | the root of the heap with children `2r` and `2r + 1` is a greatest element |
| Order.ExtractTop | backend/api-schema/request/gen/flatbuffers_common_reader.h:404-406 | moving the root to the end of the heap grows the sorted suffix and leaves a heap but for the new root |
| Vectors.SiftSwap | backend/api-schema/request/gen/flatbuffers_common_reader.h:392-394 | one exchange of the sift-down, on the bytes: still a permutation, still a heap but for the child, nothing behind `end` touched |
| Vectors.SiftDown | backend/api-schema/request/gen/flatbuffers_common_reader.h:377-399 | the sift-down loop terminates and turns a heap on `[start + 1, end]` into a heap on `[start, end]`, permuting only elements up to `end` |
| Vectors.HeapSort | backend/api-schema/request/gen/flatbuffers_common_reader.h:400-406 | for every length, key and total preorder the sort permutes the elements, orders them by the keys read at them, and changes no byte outside the slots |
| Search.SortIntegers | backend/api-schema/request/gen/flatbuffers_common_reader.h:411-414 | the scalar sort of signed and unsigned integers of any width is a sorted permutation |
| Search.IntegerInSlot | backend/api-schema/request/gen/flatbuffers_common_reader.h:107-108 | the integer of a slot is that of its bytes, lowest first; of a signed type negative exactly if the top bit is set, and then one less than the negated integer of the inverted bytes |
| Search.StringsOutsideSlots | backend/api-schema/request/gen/flatbuffers_common_reader.h:435 | sorting a string vector changes none of its strings |
| Search.SortStrings | backend/api-schema/request/gen/flatbuffers_common_reader.h:435 | the string sort, through relative offsets, leaves the same strings in ascending order: no string follows one that is greater at their first difference before a NUL, or that is longer without such a difference |
| Strings.DiffRefinesStrCmp | backend/api-schema/request/gen/flatbuffers_common_reader.h:228-232 | the sort order is the `strcmp` order refined by length, embedded NULs included |
| Strings.StrCmpTransitive | backend/api-schema/request/gen/flatbuffers_common_reader.h:232 | `strcmp` is transitive, and strictly so if either step is strict |
| Strings.StringDiffIsPreorder | backend/api-schema/request/gen/flatbuffers_common_reader.h:415 | the sort order is a total preorder on all byte strings |
| Strings.StrCmpZero | backend/api-schema/request/gen/flatbuffers_common_reader.h:232 | strings that compare equal agree on every NUL-free prefix |
| Strings.FirstDifferenceDecides | backend/api-schema/request/gen/flatbuffers_common_reader.h:228-232 | where two strings first differ, before either ends, the smaller byte decides, the end counting as 0 |
| Strings.LeIsNotAfter | backend/api-schema/request/gen/flatbuffers_common_reader.h:228-232 | one string may precede another in the sort if and only if it is smaller at their first difference before a NUL, or there is none and it is not longer |
| Strings.EqualHasNoDifference | backend/api-schema/request/gen/flatbuffers_common_reader.h:232 | two strings compare equal in a search by `strcmp` if and only if they do not differ before they end |
| Strings.StringWritten | backend/api-schema/request/gen/flatbuffers_common_reader.h:101-103 | a string stored behind the word of its length is read back |
| Search.FirstMatchIsLowest | backend/api-schema/request/gen/flatbuffers_common_reader.h:282 | the specification of the searches: not-found means no match, otherwise the lowest match |
| Search.LastMatchIsHighest | backend/api-schema/request/gen/flatbuffers_common_reader.h:293-302 | the same for the reverse scan: the highest match |
| Search.MatchesAreAnInterval | backend/api-schema/request/gen/flatbuffers_common_reader.h:234-302 | on an ascending vector the forward and the reverse result delimit exactly the matching indices, and agree on not-found |
| Search.Find | backend/api-schema/request/gen/flatbuffers_common_reader.h:235-254 | binary search on an ascending vector returns what the linear scan from the front returns |
| Search.Scan | backend/api-schema/request/gen/flatbuffers_common_reader.h:283-292 | the forward scan of `[begin, min(end, len))` returns the lowest match |
| Search.ReverseScan | backend/api-schema/request/gen/flatbuffers_common_reader.h:293-302 | the reverse scan returns the highest match, also for an empty range |
| Search.SortedAscends | backend/api-schema/request/gen/flatbuffers_common_reader.h:234-254 | a vector sorted by a key is ascending, as the search requires, for every searched key |
| Search.MatchSurvivesSort | backend/api-schema/request/gen/flatbuffers_common_reader.h:400-413 | sorting neither loses nor invents a match |
| Search.FindAfterSort | backend/api-schema/request/gen/flatbuffers_common_reader.h:400-413 | after any of the sorts, binary search by the same key in the same order may be used; it succeeds exactly when some element of the original vector matches, and gives the lowest match |
| Search.StrCmpIsPreorder | backend/api-schema/request/gen/flatbuffers_common_reader.h:232 | the order searched with, `strcmp`, is a total preorder too |
| Search.FindStringAfterSort | backend/api-schema/request/gen/flatbuffers_common_reader.h:476-479 | after the sort by length-aware order both string searches, by `strcmp` and by length, succeed exactly when some original element matches |
| Search.FindIntegerAfterSort | backend/api-schema/request/gen/flatbuffers_common_reader.h:255-256 | the same for integer vectors |
| Tables.TrimKeepsFields | backend/api-schema/request/gen/flatbuffers_common_reader.h:14-25 | shortening a vtable keeps the lookup of every field if and only if all dropped entries are zero |
| Tables.FieldsOfWritten | backend/api-schema/request/gen/flatbuffers_common_reader.h:14-25 | of a table and vtable given byte by byte: the lookup finds a field at the place its vtable entry says, and does not find it if there is no entry or a 0 |
| Tables.ScalarOfWritten | backend/api-schema/request/gen/flatbuffers_common_reader.h:34-41 | the scalar getter of such a table returns the integer of the bytes at that place, or the default |
| Tables.StringOfWritten | backend/api-schema/request/gen/flatbuffers_common_reader.h:56-66 | the string getter returns the string the offset at that place leads to, or none |
| Tables.LookupOutsideSlots | backend/api-schema/request/gen/flatbuffers_common_reader.h:14-25 | field lookup in a table past the vector reads no slot, so no swap changes it |
| Tables.FieldKeyKept | backend/api-schema/request/gen/flatbuffers_common_reader.h:34-45 | no scalar getter and no string getter of such a table is affected by a swap |
| Tables.SortTablesByScalar | backend/api-schema/request/gen/flatbuffers_common_reader.h:430-431 | the sort of a table vector by a scalar field, absent fields sorting as their default |
| Tables.SortTablesByString | backend/api-schema/request/gen/flatbuffers_common_reader.h:432-433 | the sort of a table vector by a string field, absent fields sorting as empty strings, in the same ascending order |
| Tables.FindTableByScalarAfterSort | backend/api-schema/request/gen/flatbuffers_common_reader.h:261-263 | after the sort by a scalar field the search by that field finds what was there before |
| Tables.FindTableByStringAfterSort | backend/api-schema/request/gen/flatbuffers_common_reader.h:267-273 | the same for a string field: by length always, by `strcmp` if every table stores the field |
| Builders.Builder.CreateString | backend/third-party/flatcc/include/flatcc/flatcc_builder.h:1708-1709 | the contract taken of the builder: a fresh non-zero reference to an immutable string, or 0 |
| Builders.Builder.StartTable | backend/third-party/flatcc/include/flatcc/flatcc_builder.h:1225 | opens a table on the builder's stack, or fails and opens none |
| Builders.Builder.AddSlot | backend/third-party/flatcc/include/flatcc/flatcc_builder.h:1308-1345 | adds a field, given once, to the innermost open table and returns a pointer to it, which moves the stack if the builder so decides; until a value is stored the field holds an unspecified byte |
| Builders.Builder.StoreThrough | backend/third-party/flatcc/include/flatcc/flatcc_builder.h:1309-1311 | a store through such a pointer reaches the field exactly if the stack has not moved since |
| Builders.Builder.TableAdd | backend/third-party/flatcc/include/flatcc/flatcc_builder.h:1345-1378 | an add whose value is stored at once, as scalar and reference fields do: the field has the value, whether or not the stack moved, or the add failed and nothing was added |
| Builders.Builder.EndTable | backend/third-party/flatcc/include/flatcc/flatcc_builder.h:1260 | emits the innermost open table, whose required fields are present, under a fresh reference |
| Builders.Builder.OffsetVectorPush | backend/third-party/flatcc/include/flatcc/flatcc_builder.h:1591-1592 | appends a reference to the innermost open vector, or fails |
| Builders.Builder.EndOffsetVector | backend/third-party/flatcc/include/flatcc/flatcc_builder.h:1549 | emits the innermost open vector with its references in order |
| Builders.Builder.RefmapFind | backend/third-party/flatcc/include/flatcc/flatcc_builder.h:689-692 | the refmap lookup: 0 without a refmap or without an entry |
| Builders.Builder.RefmapInsert | backend/third-party/flatcc/include/flatcc/flatcc_builder.h:694-705 | the refmap entry: replaces, returns its argument for a null source or without a refmap, 0 on failure |
| Walks.Walk | backend/api-schema/response/gen/flatbuffers_common_builder.h:22-25 | the course of a clone: primitives are only spent, a refmap is neither gained nor lost, and the builder's decisions stay |
| Walks.PicksSpend | backend/api-schema/response/gen/r_check_contract_builder.h:103-114 | a primitive that fails in one pick fails the table: later picks give nothing back |
| Walks.ElementsSpend | backend/api-schema/response/gen/flatbuffers_common_builder.h:292-293 | the same for the elements of a vector |
| Clone.EmittedIsConsistent | backend/api-schema/response/gen/flatbuffers_common_builder.h:22-25 | emitting a copy keeps the invariant: every emitted copy copies its origin, and every refmap entry leads to a copy of its source |
| Clone.MemoisedIsCloned | backend/api-schema/response/gen/flatbuffers_common_builder.h:22-23 | a memo hit is as good as a clone |
| Clone.StillUnknown | backend/api-schema/response/gen/flatbuffers_common_builder.h:24 | cloning what lies below an object does not memoise the object itself |
| Clone.Memoize | backend/api-schema/response/gen/flatbuffers_common_builder.h:24 | memoising the emitted copy keeps the refmap the exact inverse of the copies |
| Clone.CloneString | backend/api-schema/response/gen/flatbuffers_common_builder.h:324-325 | a string is cloned byte for byte under the invariant; 0 is returned exactly if the primitives do not suffice, and what is spent and memoised is what the walk says |
| Clone.CloneBytes | backend/api-schema/response/gen/flatbuffers_common_builder.h:197-198 | the same for a vector of bytes |
| Clone.PicksPartitionFields | backend/api-schema/response/gen/r_check_contract_builder.h:100-115 | the picks of every generated clone function cover each field of its table exactly once |
| Clone.PicksBySize | backend/api-schema/response/gen/r_check_contract_builder.h:100-115 | the generated clone functions pick larger fields first, and fields of one size in the order of the schema |
| Clone.WalkOfUnion | backend/api-schema/response/gen/flatbuffers_common_builder.h:416-429 | the walk of a union: that of its table, two adds, and a type lost exactly if the second of them moves the stack |
| Clone.Pick | backend/api-schema/response/gen/flatbuffers_common_builder.h:479-484 | a pick copies a stored field, default or not, and leaves a missing one missing; it fails exactly if its walk spends more primitives than are left |
| Clone.AddUnion | backend/api-schema/response/gen/flatbuffers_common_builder.h:416-419 | both adds, then both stores: the open table gets type and value, but the byte its type field held before if the second add moved the stack |
| Clone.PickUnion | backend/api-schema/response/gen/flatbuffers_common_builder.h:426-429 | the union is cloned and added, or left out if its type is NONE or unknown; the type is stored too late exactly if, with the primitives left after the clone of the table, the add of the value moves the stack |
| Clone.AllPicked | backend/api-schema/response/gen/r_check_contract_builder.h:103-114 | once all picks succeeded, the open table copies the source table and has its required fields |
| Clone.CloneTable | backend/api-schema/response/gen/r_check_contract_builder.h:63-73 | the clone of any table of the schema, recursion, memo and failure included: a copy in every field, up to the type of the union of a message; it succeeds exactly if the primitives its walk spends suffice, leaves the builder as the walk says, and loses the type exactly if the walk does |
| Clone.PushClone | backend/api-schema/response/gen/flatbuffers_common_builder.h:292-293 | one element of a vector of tables, cloned and pushed in its place, exactly if a primitive is left after its walk |
| Clone.CloneVector | backend/api-schema/response/gen/flatbuffers_common_builder.h:289-294 | a vector of tables is cloned element by element in order, under the memo; success, memo and the lost union type of each element are those of its walk |
| Clone.WalkStops | backend/api-schema/response/gen/r_check_contract_builder.h:103-114 | a failed pick fails the clone only if the primitives did not suffice for the whole table |
| Schema.CopyMeansTheSame | backend/api-schema/response/gen/flatbuffers_common_builder.h:479-484 | whatever was copied field by field, below messages, means the same at every depth: values, presence, order |
| Schema.MessageMeansTheSame | backend/api-schema/response/gen/flatbuffers_common_builder.h:416-419 | a copied message means the same if and only if the byte left in a lost type happens to be the type |
| Schema.CopyIsWhole | backend/api-schema/response/gen/flatbuffers_common_builder.h:416-419 | nothing in a copied message dangles if and only if no lost type turned into another known one |
| Schema.CopyIsWellFormed | backend/api-schema/response/gen/flatbuffers_common_builder.h:416-419 | the copies of a well-formed buffer form a well-formed buffer if and only if no lost type turned into another known one |
| Schema.WellFormedIsWhole | backend/api-schema/response/gen/response_api_builder.h:110-120 | nothing in the meaning of a well-formed message dangles |
| Readings.MembersAreMembers | backend/api-schema/response/response_api.fbs:11-13 | the union has the seven members of the schema, in its order, from type 1 on, and no other |
| Readings.TableIsRead | backend/api-schema/response/r_check_contract.fbs:9-24 | in every table of the schema, required fields are stored, each stored field of the schema is seen as the string, bytes, scalar, table or list that it is, a missing one is missing, and nothing else is seen; a message has type and table of its union if and only if the type is one of the seven |
| CloneLaws.CloneKeepsMeaning | backend/api-schema/response/gen/response_api_builder.h:110-120 | the clone of any object means what the object means, with or without a refmap, if and only if no union type in it was lost; of anything but messages and vectors of messages unconditionally |
| CloneLaws.CloneIsRead | backend/api-schema/response/gen/response_api_builder.h:72-85 | the clone of any table that lost no union type has exactly those fields with those values, the union included |
| CloneLaws.MessageKeepsMeaning | backend/api-schema/response/gen/flatbuffers_common_builder.h:416-419 | a message with a known union, not cloned before, means the same if and only if the builder, as it was before the clone, does not move the stack at the one add of the value or leaves the type in the new field by chance |
| CloneLaws.MessageWalk | backend/api-schema/response/gen/flatbuffers_common_builder.h:416-419 | the walk of such a message stores the type too late exactly if the add of the value, with one primitive less than for the type, moves the stack |
| CloneLaws.MessagesKeepMeaning | backend/api-schema/response/gen/flatbuffers_common_builder.h:289-294 | a vector of messages, not cloned before, means the same if and only if what the walk says is left in the type of each message, memoised or cloned with it, is that type |
| CloneLaws.AbsentUnionKeepsMeaning | backend/api-schema/response/gen/flatbuffers_common_builder.h:428-429 | a message without a known union is cloned with the same meaning unconditionally |
| CloneLaws.TypeLost | backend/api-schema/response/gen/flatbuffers_common_builder.h:416-419 | a message with a login result, on a builder that leaves a zero: it means the same if the seventh primitive does not move the stack, and otherwise is cloned as a message with nothing in it |
| CloneLaws.LoginWalk | backend/api-schema/response/gen/flatbuffers_common_builder.h:416-419 | its walk spends eight primitives, the sixth and seventh on the union |
| CloneLaws.CloneLogin | backend/api-schema/response/gen/response_api_builder.h:110-120 | its clone carried out on a new builder with eight primitives: the type is lost exactly if the add with two to go moves the stack |
| CloneLaws.CloneKeepsEarlierClones | backend/third-party/flatcc/include/flatcc/flatcc_refmap.h:9-26 | a later clone changes no earlier one |
| CloneLaws.CopiesAreShared | backend/third-party/flatcc/include/flatcc/flatcc_refmap.h:15-21 | with a refmap, two copies are one object exactly when they copy one object |
| CloneLaws.SharingIsPreserved | backend/third-party/flatcc/include/flatcc/flatcc_refmap.h:15-21 | with a refmap two emitted fields share a target exactly when the fields they copy do |
| CloneLaws.SharingIsPreservedInVectors | backend/third-party/flatcc/include/flatcc/flatcc_refmap.h:15-21 | the same for two elements of emitted vectors |
| CloneLaws.SharingIsPreservedAcross | backend/third-party/flatcc/include/flatcc/flatcc_refmap.h:15-21 | the same for a field and an element of a vector |
| CloneLaws.OneObjectPerSource | backend/third-party/flatcc/include/flatcc/flatcc_refmap.h:15-21 | with a refmap a clone emits exactly one object per source object it newly copies, and copies none again |
| CloneLaws.MemoIsByAddress | backend/api-schema/response/gen/flatbuffers_common_builder.h:22-24 | the memo knows addresses only: another object at the address of a cloned one is answered with the reference of that one, which is nothing of its kind if and only if the kinds differ |
| CloneLaws.CloneMessage | backend/api-schema/response/gen/response_api_builder.h:110-120 | `Message_clone` in any consistent builder: 0 exactly if the primitives its walk spends do not suffice, otherwise a memoised message, with the builder's open tables as before; it means the same, field by field as the schema lists them, and dangles nowhere exactly under the conditions on what the walk, computed before the call, says of its union type, and leaves a well-formed buffer exactly if no type was lost to another one |
| UnionVectors.CloneUnionVector | backend/api-schema/response/gen/flatbuffers_common_builder.h:229-240 | the clone of a union vector, its two vectors memoised separately: two references, or two nulls for a failed primitive or an element that reads as NONE |
| UnionVectors.ClonedUnlessNone | backend/api-schema/response/gen/flatbuffers_common_builder.h:237-238 | unless a primitive fails, a union vector is cloned if and only if its values were cloned before or no element reads as NONE; otherwise the offset vector stays open after as many elements as precede that one |
| UnionVectors.SingleNone | backend/api-schema/response/gen/flatbuffers_common_builder.h:237-238 | a union vector of a single NONE, which the builder's contract allows, is a well-formed one that is not cloned |
| UnionVectors.UnionVectorMeansTheSame | backend/api-schema/response/gen/flatbuffers_common_builder.h:228-240 | a cloned union vector means the same, also when its types or its values were memoised as part of another one |
| Create.AddScalar | backend/api-schema/response/gen/flatbuffers_common_builder.h:472-475 | a scalar `_add` skips the default and stores every other value |
| Create.AddReference | backend/api-schema/response/gen/flatbuffers_common_builder.h:503-504 | a reference `_add` refuses null |
| Create.GettersReturnWhatWasAdded | backend/api-schema/response/gen/flatbuffers_common_builder.h:472-475 | in whatever order scalars and references are added, each getter returns what was added; a reference is stored, and a scalar exactly if its value is not its default |
| Create.ContractGetters | backend/api-schema/response/gen/r_check_contract_reader.h:89-96 | all eight getters of a created contract return what was passed, elided or stored |
| Create.DefaultPriceIsMinusOne | backend/api-schema/response/r_check_contract.fbs:19 | the default price has the sign, exponent and fraction of -1 |
| Create.CreateContract | backend/api-schema/response/gen/r_check_contract_builder.h:84-98 | `CheckContract_create` succeeds, unless a primitive fails, exactly if all four references are non-null, the optional ones included, and emits exactly those fields |
| Base64.IndicesMakeSymbols | backend/src/utils.c:35-38 | the shifts and masks of the encoder cut the 24-bit group of section 4 of RFC 4648 into its four sextets |
| Base64.GuardIsExact | backend/src/utils.c:21-25 | the computed size is below `len` precisely when `4 * len` wraps in 64 bits; otherwise it has room for the whole encoding and its NUL |
| Base64.EncodeLength | backend/src/utils.c:34-59 | an encoding has four characters for each started group of three octets |
| Base64.SymbolIsInAlphabet | backend/src/utils.h:9-10 | the symbols are the 64 characters of the table, in its order, and the pad is the equals sign |
| Base64.EncodeIsBase64 | backend/src/utils.c:34-59 | every character of an encoding is the alphabet's at its six bits of the three octets of its quad, or an equals sign where no octet is left |
| Base64.EncodeInto | backend/src/utils.c:30-59 | the encoder loop and its three endings write the encoding of section 4 of RFC 4648 |
| Base64.B64Encode | backend/src/utils.c:15-68 | null exactly on size overflow, otherwise the NUL-terminated encoding, all writes in bounds; said of the characters of the buffer, each is the one section 4 of RFC 4648 puts there |
| Base64.BuildTable | backend/src/utils.c:86-89 | the decode table inverts the alphabet, maps the pad to 0 and everything else to the invalid mark |
| Base64.ShiftsMakeOctets | backend/src/utils.c:116-118 | the shifts of the decoder reassemble the octets of the 24-bit group |
| Base64.B64Decode | backend/src/utils.c:81-137 | the two-pass decoder returns what the quad-by-quad specification says, null included, in a buffer of `count / 4 * 3` octets that it never leaves; said of the octets of the buffer, each is the one its quad stands for |
| Base64.ValueIsPlace | backend/src/utils.c:86-89 | the decoder looks at the characters of the alphabet and the equals sign only, and takes each for its place in the alphabet, the equals sign for 0 |
| Base64.DecodeIsDecoding | backend/src/utils.c:91-132 | a string decodes if and only if its characters are whole quads, at least one, and the first quad with an equals sign has at most two; it decodes to three octets a quad, less one for each equals sign of that quad, and nothing behind it |
| Base64.DecodeInto | backend/src/utils.c:105-136 | the second pass |
| Base64.DecodeIgnoresNoise | backend/src/utils.c:106-109 | decoding depends on the characters of the alphabet and the pads only |
| Base64.InsertedNoiseIsHarmless | backend/src/utils.c:106-109 | other characters may be inserted anywhere; compare section 3.3 of RFC 4648 |
| Base64.QuadsRoundTrip | backend/src/utils.c:115-132 | decoding an encoding with anything behind it: the source if it was padded, else the source and the decoding of the rest |
| Base64.RoundTrip | backend/src/utils.c:15-137 | decoding an encoding gives the source back if and only if the source is not empty; the encoding of nothing is refused |
| Base64.PaddingEndsTheData | backend/src/utils.c:120-130 | what follows a padded quad, in whole quads, is not looked at |
| Base64.EncodingsJoin | backend/src/utils.c:115-132 | encodings of whole groups can be joined |
| CStrings.Strlcat | backend/src/utils.c:142-178 | on a terminated string shorter than `size`: the concatenation cut to `size - 1`, its new length, and no byte behind the new NUL touched |
| CStrings.CutOnce | backend/src/utils.c:142-178 | cutting after every append is cutting once at the end |
| CStrings.Chain | backend/src/utils.c:142-178 | any chain of calls leaves the initial string and all pieces, cut to `size - 1`, still terminated |
| Queries.AssembleEdit | backend/src/api/edit_me.c:6-79 | for every subset of optional fields the buffer holds the intended UPDATE statement, cut to its size, and the token is renewed exactly if user name or password change; under the sizes escaping allows it sets the admin flag and exactly the given columns, each to its own value, and ends with the old token in its WHERE clause |
| Queries.EditReads | backend/src/api/edit_me.c:6-79 | the intended statement, in three parts: the flag, the assignments of the columns that are given, the condition on the old token |
| Queries.EditIsComplete | backend/src/api/edit_me.c:6-79 | no subset of the optional fields is cut off |
| Queries.AppendAttachment | backend/src/api/request_contract.c:108-136 | the attachment part, with the jump into the branch of the absent one for an empty or too long vector, and the length it resets |
| Queries.AssembleRequest | backend/src/api/request_contract.c:75-148 | the buffer holds the intended INSERT statement, cut to its size; if it fits, it lists the columns of the contract and in the same order their values |
| Queries.RequestReads | backend/src/api/request_contract.c:75-148 | the intended statement lists the six columns and in their order the quoted name, description or NULL, price, quoted attachment or NULL, user and time |
| Queries.RequestIsComplete | backend/src/api/request_contract.c:75-148 | a name of at most 1408692 bytes is never cut off, whatever the other fields |
| Queries.LongerNamesAreCut | backend/src/api/request_contract.c:75-148 | that bound is exact |
| Transaction.StepKeepsInv | backend/src/main.c:196-279 | each callback that may come next is free of double frees, uses after free and accesses out of bounds, whatever a write returns, and leads to the state of its phase |
| Transaction.NextWrite | backend/src/main.c:242-273 | a writeable callback takes exactly the next chunk from inside the reply; a positive result sends it, a negative one is passed over, 0 asks for the connection to be closed |
| Transaction.WriteableWhenAsked | backend/src/main.c:238 | the callbacks the runs allow are those the code asks for: a writeable callback may come exactly if one was asked for |
| Transaction.CompletionNeedsBody | backend/src/main.c:232-241 | the completion is defined exactly if a body was received |
| Transaction.ClosingIsAskedFor | backend/src/main.c:196-219 | a callback other than the drop returns something other than 0 exactly if the run then waits for the drop; a request is let through exactly if it is a POST to the API with readable headers |
| Transaction.RunKeepsInv | backend/src/main.c:196-279 | the same for every run from a zeroed session: the state is that of its phase, and what went out are the chunks whose writes succeeded |
| Transaction.PhaseIsReceived | backend/src/main.c:220-231 | the body of a run is the concatenation of the pieces received, and the reply being sent is the one the handler left |
| Transaction.HandlerSeesBody | backend/src/main.c:232-241 | in every run that completes a request the handler is called once, with the concatenation of the pieces received but for its last byte, and a zero in place of that |
| Transaction.DropKeepsInv | backend/src/main.c:274-279 | the drop, at whatever point, releases what the session still owns |
| Transaction.DroppedFreesOnce | backend/src/main.c:274-279 | after the drop every block of the transaction was freed exactly once and the rest of the heap is as before |
| Transaction.ResponseIsComplete | backend/src/main.c:242-273 | after `ceil(L / C)` writes of a reply of L bytes the transaction was completed exactly once; what went out is the reply, each chunk but the last full and exactly the last one final, if and only if every write returned a positive number |
| Transaction.ReplyLost | backend/src/main.c:257-268 | a run whose only write returns -1: the transaction is completed and nothing was sent |
| Transaction.SendingNeedsZeroCounter | backend/src/main.c:248-262 | a reply can be sent without leaving its buffer if and only if the chunk counter starts at zero |
| Transaction.SecondTransactionFails | backend/src/main.c:218 | on session memory that is not zeroed again a second transaction leaves the reply's buffer, since neither the drop nor the request resets the counter |
| Connections.Connection.OnBody | backend/src/main.c:220-231 | the statements of the body callback compute its step |
| Connections.Connection.OnCompletion | backend/src/main.c:232-241 | the same for the completion, including the handler's reply; the handler is given the received bytes with a zero in place of the last one |
| Connections.Connection.OnWriteable | backend/src/main.c:242-273 | the same for the writeable callback, for writes that return 0, -1 or what was sent |
| Connections.Connection.OnDrop | backend/src/main.c:274-279 | the same for the drop |
| Connections.Connection.HttpCallback | backend/src/main.c:187-286 | the whole callback computes the step of its reason |
| Connections.Serve | backend/src/main.c:187-286 | any run of callbacks in a legal order on a new session can be carried out and ends in the state of its phase |
| AlignedAlloc.MaskRoundsDown | backend/third-party/flatcc/include/flatcc/flatcc_alloc.h:93 | clearing the low bits of an address rounds it down to a multiple of the power of two |
| AlignedAlloc.BufferIsRounded | backend/third-party/flatcc/include/flatcc/flatcc_alloc.h:92-93 | the payload starts at a multiple of the alignment, at least a word and less than a word and the alignment behind the block's start |
| AlignedAlloc.FitsExactly | backend/third-party/flatcc/include/flatcc/flatcc_alloc.h:86-93 | the payload fits the block if and only if the size computation does not wrap and an alignment below a word is made up for by the block's own |
| AlignedAlloc.AlignedPayload | backend/third-party/flatcc/include/flatcc/flatcc_alloc.h:82-96 | from a word-aligned block, for every size and power of two without overflow: an aligned payload inside the block, behind the hidden pointer |
| AlignedAlloc.LoadOfStore | backend/third-party/flatcc/include/flatcc/flatcc_alloc.h:94-106 | the hidden pointer reads back as it was stored |
| AlignedAlloc.AllocKeeps | backend/third-party/flatcc/include/flatcc/flatcc_alloc.h:82-96 | another allocation disturbs no hidden pointer and no payload in use |
| AlignedAlloc.FreeKeeps | backend/third-party/flatcc/include/flatcc/flatcc_alloc.h:101-109 | an allocation's hidden pointer leads to its own block and to no other allocation's |
| AlignedAlloc.Heap.AlignedAlloc | backend/third-party/flatcc/include/flatcc/flatcc_alloc.h:82-96 | the allocator in memory: alignment, bounds, a new payload, and no byte changed but the hidden pointer |
| AlignedAlloc.Heap.WritePayload | backend/third-party/flatcc/include/flatcc/flatcc_alloc.h:82-96 | any write inside a payload keeps all allocations intact |
| AlignedAlloc.Heap.AlignedFree | backend/third-party/flatcc/include/flatcc/flatcc_alloc.h:101-109 | after any sequence of allocations, writes to payloads and releases, releasing gives back exactly the block of the allocation; null is ignored |

## Left out

- Clone.CloneTable: a source buffer is a map from addresses to objects, so an empty vector and the object behind it, at one address, are not modelled, nor is the clone of a null source.
- Builders.Builder.EndTable: the builder's stack, emitter, vtable sharing and byte layout are not modelled; of a failed primitive only that it and all later ones fail.
- Builders.Builder.StoreThrough: a store through a dead pointer has no effect; what else it may overwrite is not modelled.
- Builders.Builder.RefmapInsert: the hash table is a map; that a failed insert may leave entries that hold 0 is covered by reading 0 as no entry.
- Connections.Connection.Reallocate: `realloc` keeps the address of the block; that it may move it, and that `calloc` and `realloc` may fail, is not modelled.
- Connections.Connection.HttpCallback: the return value of `lws_callback_http_dummy`, and a failure of `lws_http_transaction_completed`, are taken as 0; both come after all changes to the session.
- Transaction.NextWrite: a positive result of `lws_write` counts as the whole chunk sent, because the library promises to send by itself what the connection did not take at once (lws-write.h, lines 201-205).
- Transaction.StepKeepsInv: the order of callback reasons, non-empty pieces of a body and non-empty replies are assumptions about libwebsockets and the handlers; the handlers themselves are reduced to the reply they leave.
- Tables.SortTablesByString: the null string of an absent field compares as the empty string, since its length reads as 0 and `strncmp` then compares no byte; ISO C leaves a null argument of `strncmp` undefined even so. Keys stored outside the buffer are excluded, as verification of the buffer does.
- Search.SortIntegers: vectors of floats, whose order is not total because of NaN, and big-endian hosts.
- Create.CreateContract: a price is given by its bits; the sign of a floating zero is kept, and comparison with the default is comparison of bits, which for -1.0 is the same.
- Queries.RequestIsComplete: the sizes escaping may produce (twice the length and 4 for a literal, five times the length for bytes), and the printed sizes of price, user id and time, are assumptions; the escaped strings themselves are inputs.
- AlignedAlloc.Heap.AlignedAlloc: a null result of `malloc`, which the code does not check, is excluded.
- Slices of strings and vectors, nested buffers, structs, the remaining generated accessors: they would only add easy members.
- The union vector field macro, which no table of the schema uses.
- `Message_create`, the start and end functions, and the create functions of the other tables: the same pattern as `CheckContract_create`.
- The verifier of buffers, the emitter, the JSON printer and parser.
- The handlers for login, registration, listing and checking contracts, the database, key derivation, random bytes and TLS.
