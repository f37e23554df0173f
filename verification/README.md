# A model of the gRPC-LabVIEW message codec, cluster layout and call lifecycle

This project models the part of gRPC-LabVIEW that carries a LabVIEW cluster to a gRPC peer and
back, and the part that keeps server calls alive while LabVIEW works on them.

* **Codec.** `LVMessage` parses and serializes Protocol Buffers by hand, driven by message
  descriptions: 17 field types, singular, repeated, packed, nested, in oneofs, with unknown
  fields and groups kept aside. Bytes are 0..255, float and double are their bit patterns,
  strings are byte sequences, and whether a string is UTF-8 is a predicate of the registry.
* **Layout and copying.** `MessageElementMetadataOwner` places every element of a cluster;
  `ClusterDataCopier` moves values between messages and that memory. Memory is a sequence of
  cells: plain bytes, and the bytes of pointers to strings and arrays.
* **Calls.** `CallData` is driven by completion-queue tags on one side and by LabVIEW on the
  other. All interleavings are considered.

The wire format is that of the Protocol Buffers Encoding guide ("Base 128 Varints", "More
Integer Types", "Length-Delimited Records", "Packed Repeated Fields", "Oneofs", "Last One Wins",
"Groups"). Where the guide and the code disagree the model follows the code: a singular field
outside a oneof keeps its *first* occurrence (`tests/unit/lv_message_tests.cc:2738-2743` records
this), and a nested message is not required to fill the length that announced it.

## How the files fit together

| files | contents |
|---|---|
| `Wire`, `Numeric`, `Schema` | varints, ZigZag, tags, limits; the 16 ways a number travels; message descriptions |
| `WireFormat` | the bytes themselves, by base-128 arithmetic and in literal examples |
| `Message`, `Parse` | message values, what is written for them, and the parser as a function of bytes |
| `Groups`, `WireItems`, `Tokens`, `Meaning` | a grammar for unknown fields; wires as lists of items; what an accepted wire means |
| `RoundTrip`, `Laws`, `Concatenation` | parsing what was serialized; merging; canonical form; one wire behind another |
| `SliceStream`, `CodedStream`, `LVMessage`, `MessageValue` | the classes: slice stream, coded stream, parsing message, value objects with size caches |
| `Layout`, `MetadataOwner` | offsets, sizes and alignments as functions; the memoised pass over metadata objects |
| `Enums` | the enum table text and its two maps |
| `Clusters`, `Copying` | cluster memory and what LabVIEW sees in it; what copying means |
| `MemoryFormat`, `ClusterContents` | memory in literal cells; what is sent and what comes back, element by element |
| `ClusterCopier`, `ClusterReader`, `EndToEnd` | the copier into and out of memory; cluster to wire to cluster |
| `Exchange` | metadata finalized, memory read, bytes written, slices parsed, memory written |
| `Direct`, `Clashes`, `LVMessageEfficient` | the parser that writes straight into a cluster; when it agrees with parsing and copying |
| `UnpackedFields` | the decoder that works on strings of bits |
| `CallLifecycle`, `ServerCalls` | the call state machine over all runs; the call objects and the queue loop |

## What is assumed of code outside the repository

* The primitives of `CodedInputStream`, `CodedOutputStream` and `WireFormatLite` are written out
  here from their public behaviour. A varint that fails has used up the bytes it looked at;
  pushing a limit only ever shrinks the window, and only if it is strictly inside it, so a whole
  buffer is taken to be shorter than 2^31 - 1 bytes. `SetRecursionLimit` has no effect on this
  parser, because it never asks for the limit.
  That the parse of slices is the parse of the concatenated bytes rests, for a broken tag inside
  a nested message, on what a failed varint uses up.
* `NumericArrayResize` keeps what a block held and adds zeros; string conversion is the identity
  on UTF-8 and fails on anything else.
* gRPC returns each posted tag once; the tag of `AsyncNotifyWhenDone` only after the request tag
  came back with `ok = true`; a request tag with `ok = false` only on shutdown.
* 64-bit pointers, alignment active, UTF-8 strings and their verification switched on.

## Model

| member | source | states |
|---|---|---|
| Wire.ScanInvertsEncode | src/lv_message.cc:29-34 | reading a varint that was written gives the number back and stops right behind it, whatever follows |
| Numeric.TransformInvertsRaw | src/lv_message.cc:352-450 | for every numeric type, sign extension of negative int32 and enum, ZigZag and two's complement come back to the number that was written |
| Numeric.ReadPackedInvertsEncode | src/lv_message.cc:478-484 | the packed loop reads exactly the numbers of a payload and stops at the limit |
| WireFormat.SignedVarint | src/lv_message_value.cc:281-284 | int32, int64 and enum are the varint of the number modulo 2^64, ten bytes for a negative one |
| WireFormat.UnsignedVarint | src/lv_message_value.cc:305-308 | uint32, uint64 and bool are the varint of the number |
| WireFormat.ZigZagVarint | src/lv_message_value.cc:667-670 | sint32 and sint64 are the varint of 2v, or of -2v-1 for a negative v |
| WireFormat.FixedBytes | src/lv_message_value.cc:782-785 | fixed kinds, float and double are four or eight bytes, the low byte first, in two's complement |
| WireFormat.WireTypes | src/lv_message_value.cc:224-227 | the wire type of each kind and the constants of the format, in numbers |
| WireFormat.TagIsVarint | src/lv_message_value.cc:58-58 | a tag is the varint of eight times the number plus the wire type |
| WireFormat.Framing | src/lv_message_value.cc:52-62 | a number follows its tag; text, packed lists and nested messages follow a tag of type 2 and their length |
| WireFormat.ListFraming | src/lv_message_value.cc:144-152 | repeated text and messages are written one by one, in order, each with its tag and length |
| WireFormat.FieldsAscend | src/lv_message.cc:817-823 | fields are written in ascending order of number and nothing else is |
| WireFormat.OnlyEmptyListsAreLeftOut | src/lv_message.cc:817-823 | of well-typed values only empty lists write nothing |
| WireFormat.Transforms | src/lv_message.cc:352-450 | what each kind makes of every word that is read |
| WireFormat.NumbersAreRead | src/lv_message.cc:352-450 | any complete varint, however padded, is read as its value cut to 32 or 64 bits, and a word as its four or eight bytes |
| WireFormat.TextOutcome | src/lv_message.cc:574-650 | text is rejected if and only if it is not all there, and throws if and only if it is a string and not UTF-8 |
| WireFormat.LimitsAreStrict | src/lv_message.cc:660-662 | a pushed limit takes effect only if it lies inside the enclosing one, and cuts what is read to its length |
| WireFormat.ElevenBytesFail | src/lv_message.cc:352-450 | ten bytes with the continuation bit are neither a number nor a tag |
| WireFormat.Examples | src/lv_message_value.cc:305-412 | int32 150 in field 1 is 08 96 01, "testing" in field 2 is 12 07 and its bytes, the packed list 3, 270, 86942 in field 4 is 22 06 03 8E 02 9E A7 05, fixed32 1 in field 5 is 2D 01 00 00 00 |
| Messages.MessageSizeIsLength | src/lv_message.cc:827-835 | at every nesting depth the size pass equals the number of bytes the writing pass emits, so each length prefix counts the bytes that follow it |
| Messages.LenDelimSizeIsLength | src/lv_message_value.cc:18-22 | the size of a length-delimited field is the length of its tag, prefix and payload |
| Groups.AcceptsExactlyTrees | src/lv_message.cc:21-80 | an unknown field is accepted if and only if the bytes derive one tree with that tag (for a start-group: a properly nested matching end tag follows); then exactly the in-order leaves are stored and reading stops behind it |
| Groups.EncodedTreeIsRead | src/lv_message.cc:57-75 | every encoded tree of fields and groups is read back as its flattening, and nothing behind it is touched |
| WireItems.WireMeaning | src/lv_message.cc:229-285 | every wire made of well-typed items, known or unknown, is accepted and gives the message the items denote |
| Tokens.ParseIsCutThenApply | src/lv_message.cc:229-285 | for any bytes and any message under construction, parsing is cutting the bytes into items and applying them: status and position never depend on the message |
| Tokens.CutIsTyped | src/lv_message.cc:290-347 | whatever the parser accepts, its items suit the description |
| Meaning.AcceptedWireMeans | src/lv_message.cc:229-285 | after any accepted wire: a repeated field holds all occurrences in order, a singular one its first, a oneof its last member with that last value and the selected index agrees, and unknown fields are kept in order |
| Meaning.SplitIndependence | src/lv_message.cc:453-512 | however a repeated numeric list is cut into packed chunks and single elements, among whatever other fields, the parsed list is the original one |
| Meaning.OneofSafety | src/lv_message.cc:251-271 | after every item of an accepted wire a oneof member is among the values if and only if the selected-index map names it |
| RoundTrip.RoundTrips | src/lv_message.cc:817-823 | for every well-typed message, to any depth, the serialized bytes are accepted and parse to the message without its empty lists and unknown fields |
| RoundTrip.RoundTripsExactly | src/lv_message.cc:229-285 | a message in normal form comes back exactly, zero scalars, 10-byte negative int32 and ZigZag types included |
| Laws.ParsedIsWellTyped | src/lv_message.cc:290-347 | every accepted wire gives a well-typed message with at most one member per oneof |
| Laws.CanonicalForm | src/lv_message.cc:817-823 | serializing after parsing is idempotent on every accepted wire |
| Laws.MergeLaw | src/lv_message.cc:229-285 | for any two wires that are encodings of typed items: parsing them one after the other merges what each gives: lists and unknown fields appended, other singular fields from the first, oneofs from the second when it sets them |
| Concatenation.WireExtends | src/lv_message.cc:229-285 | an accepted wire in which no length reaches past the end is cut into the same items whatever bytes follow it |
| Concatenation.WiresMerge | src/lv_message.cc:229-285 | the merge law for any two such wires, padded varints and mismatched wire types included |
| Concatenation.ShortWireSwallows | src/lv_message.cc:655-696 | without that the law fails: a nested message that is cut short takes the number behind it |
| Laws.MessagesMerge | src/lv_message.cc:505-510 | the merge law for the serializations of two messages |
| SliceStream.MultiSliceInputStream.Next | src/lv_message.cc:97-118 | hands out the next non-empty stretch of the concatenated slices at the current byte count, and fails only at their end |
| SliceStream.MultiSliceInputStream.BackUp | src/lv_message.cc:121-126 | under the stream contract, moves the position back by exactly the count returned |
| SliceStream.MultiSliceInputStream.Skip | src/lv_message.cc:128-149 | moves the position forward by the count, or to the end and reports failure |
| CodedStream.CodedInputStream.ReadTag | src/lv_message.cc:233-233 | reading through slices is reading the concatenated bytes |
| LVMessages.LVMessage.ParseFromByteBuffer | src/lv_message.cc:177-205 | result and contents depend only on the concatenation of the slices, and are those of parsing it |
| LVMessages.LVMessage.ParseFromString | src/lv_message.cc:210-224 | a single slice, added to what the message holds; it succeeds if and only if the parse ends with the data |
| LVMessages.LVMessage.ParseFromCodedStream | src/lv_message.cc:229-285 | the loop over tags refines the parser function, also into a message that already holds values |
| LVMessages.LVMessage.HandleUnknownField | src/lv_message.cc:21-80 | terminates, and stores exactly the leaf fields that the unknown-field function reads |
| LVMessages.LVMessage.ParseNumericField | src/lv_message.cc:453-512 | packed, unpacked and singular numbers, appended or emplaced as the function says |
| LVMessages.LVMessage.ParseTextField | src/lv_message.cc:574-650 | strings and bytes; invalid UTF-8 in a string throws |
| LVMessages.LVMessage.ParseMessageField | src/lv_message.cc:655-696 | a nested message parsed below a pushed limit; an existing singular one stays |
| MessageValue.LVMessageValue.ByteSizeLong | src/lv_message_value.cc:44-98 | the size of the value; afterwards every cache in its tree is right |
| MessageValue.LVMessageValue.Serialize | src/lv_message_value.cc:52-98 | when the caches that it consults are right, exactly the bytes of the value are appended; caches below a size that was not computed may hold anything |
| MessageValue.LVMessageValue.Add | src/message_value.h:66-80 | adding to a list after its size was computed leaves a stale cache; before that, none |
| MessageValue.PrefixMatters | src/lv_message_value.cc:397-412 | a packed field written with a remembered size is right if and only if that size is the current payload size |
| MessageValue.CachingKinds | src/lv_message_value.cc:374-394 | packed lists remember their size for the seven varint kinds other than bool, and for no other |
| MessageValue.NestedPrefixMatters | src/lv_message_value.cc:52-62 | a nested message written with a remembered size is right if and only if that size is its current size |
| MessageValue.BuildMessage | src/cluster_copier.cc:91-185 | the value objects of a filled message: its contents, in ascending order of field number, all of them new, no size computed |
| MessageValue.ColdIsSound | src/message_value.h:68-80 | where no size was computed the writing pass consults no cache |
| MessageValue.OutgoingMessage.SerializeToByteBuffer | src/lv_message.cc:756-779 | emits the message's encoding whatever the caches held before; null only above INT_MAX bytes |
| MessageValue.OutgoingMessage.SerializeToString | src/lv_message.cc:790-797 | emits the same bytes from cold, warm or partly stale caches, as long as none that is consulted is stale |
| Layout.ClusterIsSound | src/message_element_metadata_owner.cc:145-195 | a message with elements has a positive size, an alignment of 1, 4 or 8 and a size that is a multiple of it, so a non-zero size is a valid mark of completion |
| Layout.ElementIsPlaced | src/message_element_metadata_owner.cc:154-191 | each element is aligned, starts where the one before it ends or later, and ends inside the cluster |
| Layout.ElementExtents | src/message_element_metadata_owner.cc:22-53 | size and alignment of every kind of element, in numbers; every pointer takes 8 |
| Layout.BoolThenText | src/message_element_metadata_owner.cc:145-195 | a bool and a text lie at 0 and 8 in a cluster of 16 |
| Layout.LayoutIsTight | src/message_element_metadata_owner.cc:145-195 | each element is at the first aligned place, the cluster has the largest alignment of its elements and ends at its first multiple |
| Layout.LeavesAreWellPlaced | src/message_element_metadata_owner.cc:145-195 | flattened through singular nested clusters, the leaf elements are in declared order, pairwise disjoint, aligned at their absolute offsets and inside the cluster |
| Layout.ArrayElementsAreWellPlaced | src/cluster_copier.cc:337-363 | in an array of clusters every element is aligned, apart from the others, and inside the allocated block |
| Layout.NullStoreReaches | src/cluster_copier.cc:356-361 | the null pointer stored at the start of element x of n stays in the block if and only if the elements from x on have room for it |
| Layout.NullStoresStayInside | src/cluster_copier.cc:356-361 | all of them stay in the block if and only if a cluster is at least as large as a pointer |
| Layout.BoolClustersOverrun | src/cluster_copier.cc:356-361 | a type of one bool makes clusters of one byte, and the stores into the last seven elements run past the block |
| Layout.RankIsImmaterial | src/message_element_metadata_owner.cc:145-195 | the layout does not depend on the order that shows the type graph to be acyclic |
| MetadataOwner.MessageElementMetadataOwner.UpdateMetadataClusterLayout | src/message_element_metadata_owner.cc:145-195 | the memoised recursion terminates, lays the message out as the unmemoised definition says, and leaves messages already laid out alone |
| MetadataOwner.MessageElementMetadataOwner.FinalizeMetadata | src/message_element_metadata_owner.cc:199-205 | whatever order the map is walked in, every message gets the layout of the recursive definition; a second pass changes nothing |
| MetadataOwner.MessageElementMetadataOwner.RegisterMetadata | src/message_element_metadata_owner.cc:91-96 | the first registration of a name is kept |
| Enums.SplitString | src/grpc_interop.cc:43-58 | joining the pieces gives the text back, and no piece contains the delimiter |
| Enums.SplitIsUnique | src/grpc_interop.cc:43-58 | for a one-character delimiter there is only one such cut |
| Enums.CreateMapBetweenLVEnumAndProtoEnumvalues | src/grpc_interop.cc:60-75 | position i maps to the i-th number, or some number does not parse |
| Enums.CreateMapBetweenProtoEnumAndLVEnumvalues | src/grpc_interop.cc:88-110 | each number maps to exactly its positions, ascending |
| Enums.EnumLookups | src/enum_metadata.h:20-45 | a number is known if and only if the enum declares it; number to position to number is the identity; position to number to position is the least alias |
| Enums.GetEnumNames | src/proto_parser.cc:827-839 | prints the entries joined by semicolons |
| Enums.PrintedTableIsRead | src/proto_parser.cc:827-839 | what is printed is a table whose i-th entry parses to the i-th number |
| Enums.TableExample | src/proto_parser.cc:827-839 | A = 1 and B = -12 print as A=1;B=-12 |
| Enums.NumbersInText | src/grpc_interop.cc:60-75 | signs, leading space and trailing text of a number |
| Enums.RegisterPrintedEnum | src/grpc_interop.cc:112-126 | the printed table of any printable enum is read without failure, and the two maps describe exactly its numbers |
| Clusters.LoadInvertsStore | src/cluster_copier.cc:387-390 | a number stored in a cluster is read back, for every width and signedness |
| MemoryFormat.NumberCells | src/cluster_copier.cc:387-390 | a number in memory takes 1, 4 or 8 bytes, the low byte first, in two's complement |
| MemoryFormat.ElementIsSeen | src/cluster_copier.cc:91-185 | an element is read from its offset in the layout, over its own size |
| MemoryFormat.CellsAreSeen | src/cluster_copier.cc:373-391 | what those bytes are as a number, a text, a cluster or an array |
| MemoryFormat.ArrayIsSeen | src/cluster_copier.cc:245-360 | an array shows as many elements as its handle counts, each read from its own stretch of the block |
| MemoryFormat.ElementIsSlice | src/lv_interop.h:89-98 | element i of a block is the stretch of its width that begins at i times the width |
| MemoryFormat.DataStarts | src/lv_interop.h:95-98 | elements begin behind the count at byte 4, or at 8 when they are aligned to 8 |
| MemoryFormat.BoolCell | src/cluster_copier.cc:778-778 | any byte but zero reads as true |
| MemoryFormat.TextIsSeen | src/lv_interop.h:77-101 | a pointer takes eight cells, null is eight zero bytes, a stored text is read back and no text is the empty one |
| MemoryFormat.GridIsSeen | src/well_known_messages.h:101-146 | a two-dimensional array shows its dimensions, rows first, and its elements in order |
| Clusters.ViewFits | src/cluster_copier.cc:91-185 | whatever a cluster's memory holds, it shows values of the element types |
| ClusterCopier.CopyToCluster | src/cluster_copier.cc:19-88 | the cluster then shows the message over what it showed before: present fields replaced, absent ones kept, selectors set for oneofs with a member; nothing outside the cluster changes; throws exactly on an enum number without position; and it says whether every null pointer stayed within its block |
| ClusterCopier.CopyGridToCluster | src/well_known_messages.h:65-99 | with a positive int product and data, rows, columns, a block of as many elements as the product and the first min(product, length) elements are written; otherwise nothing is |
| Clusters.GridBlockAgrees | src/well_known_messages.cc:60-77 | for positive dimensions the block has as many elements as they say if and only if their product is an int |
| Clusters.DimensionsOverflow | src/well_known_messages.h:94-94 | 65537 times 65537 gives a block of 131073 elements, and 65536 times 65536 an array without elements |
| ClusterCopier.CopyMessagesToCluster | src/cluster_copier.cc:337-363 | a repeated message becomes a block of clusters, each the copy of its message; every null pointer stays in the block if and only if the list is empty or its clusters have room for one, and the same holds within each |
| ClusterCopier.NullStoresFit | src/cluster_copier.cc:337-363 | no message makes the copier write past a block if and only if every type that comes in arrays has room for a pointer |
| ClusterCopier.CopyOneofIndicesToCluster | src/lv_message.cc:841-862 | each selector of a oneof with a selected member shows its number, and no other element changes |
| ClusterCopier.ProgressGrows | src/cluster_copier.cc:19-29 | writing one element of a cluster disturbs no other |
| ClusterReader.CopyFromCluster | src/cluster_copier.cc:91-185 | the message becomes exactly what the cluster shows: selectors recorded, unselected members and empty arrays left out; throws exactly on a position outside the enum or text that does not convert |
| ClusterContents.MessageHolds | src/cluster_copier.cc:91-185 | the message holds exactly the fields that are in no oneof or named by their selector and have content: every number, text and cluster, zero and empty ones included, lists with elements, arrays without a zero dimension; each with the value of its element |
| ClusterContents.ElementInNormal | src/cluster_copier.cc:19-185 | in the normal form an element that is offered shows what it showed, and a member that no selector names is zero |
| ClusterContents.SelectorInNormal | src/cluster_copier.cc:19-185 | a selector keeps its number if and only if the field it names has content, so for every number, text and embedded cluster |
| ClusterContents.EnumInNormal | src/enum_metadata.h:20-45 | a position is sent as its number and comes back as the first position with that number |
| ClusterContents.AbsorbedElement | src/cluster_copier.cc:19-88 | a field that the message has replaces its element, an empty list and a missing field leave it as it was |
| ClusterContents.ConvertibleIsSendable | src/cluster_copier.cc:91-185 | nothing throws when every position is in its table and every string is UTF-8 |
| ClusterContents.UnconvertibleIsNotSendable | src/cluster_copier.cc:91-185 | an offered string that is not UTF-8 or position outside its table throws |
| ClusterContents.DeclaredIsReceivable | src/cluster_copier.cc:19-88 | the copy throws if and only if some enum number is not declared |
| ClusterContents.GridNumbers | src/well_known_messages.h:52-54 | rows are field 1, columns field 2, data field 3 |
| ClusterContents.GridIsAbsorbed | src/well_known_messages.h:65-99 | rows under 1, columns under 2 and numbers under 3 become an array of so many rows and columns with the numbers in order |
| ClusterContents.TextGridIsAbsorbed | src/well_known_messages.h:65-99 | the same for an array of strings |
| ClusterContents.GridStays | src/well_known_messages.h:75-99 | an array that comes without rows, columns or data stays as it was |
| ClusterContents.GridNames | src/well_known_messages.cc:46-91 | which fields are two-dimensional arrays of numbers, of strings, and which are clusters |
| ClusterReader.CopyGridFromCluster | src/well_known_messages.h:101-146 | a two-dimensional array with a zero dimension sends nothing, any other sends rows, columns and as many elements as their int product says |
| Copying.SentGridAgrees | src/well_known_messages.h:113-142 | for positive dimensions the elements sent are as many as they say if and only if their product is an int |
| EndToEnd.OverflowingGrid | src/well_known_messages.h:65-99 | a message that the codec accepts with 65537 rows and columns shows 131073 elements behind those dimensions, and one with 65536 changes nothing |
| EndToEnd.MessageIsWellTyped | src/cluster_copier.cc:91-185 | what is read from a cluster is a message the codec accepts |
| EndToEnd.GridComesBack | src/well_known_messages.cc:60-85 | rows, columns and row-major data of a two-dimensional array survive message and wire |
| EndToEnd.ClusterRoundTrips | src/cluster_copier.cc:19-185 | for the values LabVIEW sees: the wire of a cluster is accepted, the copy does not throw, and what it shows is the sender's cluster in normal form |
| Exchange.CreateEnums | src/grpc_interop.cc:112-126 | every enum gets its two maps from its text, unless a number does not convert |
| Exchange.FinalizedIsDescribed | src/message_element_metadata_owner.cc:199-205 | a registry that is laid out, with its enum maps, is what the copiers rely on |
| Exchange.Prepare | src/message_element_metadata_owner.cc:199-205 | finalizing the registered types and reading the enum texts gives metadata that the copiers can use |
| Exchange.Send | src/event_data.cc:118-121 | from memory to bytes through the value objects: the encoding of what the cluster shows, or a conversion throws, or the message is too long |
| Exchange.Receive | src/lv_serialization_traits.cc:30-43 | from slices to memory: what the cluster shows afterwards is the parsed message over what it showed before, for any slices |
| Exchange.SendAndReceive | src/cluster_copier.cc:19-185 | from the memory of one cluster to a fresh block, over a wire cut in any way: the receiver sees the sender's cluster in normal form and nothing around its cluster changes; it is not sent if and only if a conversion throws or the message has more than INT_MAX bytes |
| Exchange.DeclareAndExchange | src/message_element_metadata_owner.cc:199-205 | the same from registered types and enum texts on |
| EndToEnd.AcceptedCanBeCopied | src/lv_message.cc:229-285 | whatever wire is accepted, its message meets what copying to a cluster asks for |
| Direct.DirectLeaves | src/lv_message_efficient.cc:137-178 | what the direct parse of any typed wire leaves in each element: all numbers of a list, the last occurrence of a singular field, all items that arrived for a nested message, the last selected member |
| Clashes.PlainKeeps | src/cluster_copier.cc:19-88 | what parsing into a message and copying leaves there: all numbers, the first occurrence, for a oneof only the last member |
| Clashes.DirectRefinesExactly | src/lv_message_efficient.cc:137-178 | on any typed wire, whatever its length, the two leave the same cluster if and only if, element by element and at every depth, the last occurrence shows what the kept one shows |
| Clashes.RepeatedSingular | src/lv_message_efficient.cc:170-176 | a number or text outside oneofs comes out the same if and only if its first and last occurrences show the same |
| Clashes.EvictedMember | src/lv_message_efficient.cc:170-176 | a number or text in a oneof comes out the same if and only if it is absent, is the oneof's last member, or its last value shows as zero |
| Clashes.FirstAgainstLast | src/lv_message_efficient.cc:170-176 | the two part on one int32 field that is first 1 and then 2 |
| Clashes.ReceivableIfKept | src/enum_metadata.h:20-45 | copying the parsed message throws if and only if an enum number that was kept has no position |
| Clashes.KnownAreKept | src/enum_metadata.h:20-45 | where the direct parser does not throw, neither does the copy |
| Clashes.DirectRefinesParseThenCopy | src/lv_message_efficient.cc:137-178 | on wires in which no singular field and no oneof occurs twice the clusters are equal and both throw or neither does |
| LVMessagesEfficient.AppendToLVArray | src/lv_message_efficient.cc:19-41 | the array then shows its old numbers followed by the new ones, and no cell outside the element changes |
| LVMessagesEfficient.LVMessageEfficient.ParseFromCodedStream | src/lv_message.cc:229-285 | accepts what the plain parser accepts unless an enum number is unknown; cluster and selected indices are those of the direct parse of the same items |
| LVMessagesEfficient.LVMessageEfficient.ParseMessageField | src/lv_message_efficient.cc:453-465 | a nested message is parsed inside the enclosing cluster at its offset |
| LVMessagesEfficient.LVMessageEfficient.ParseEnumField | src/lv_message_efficient.cc:312-316 | a scalar enum is stored as its position, or the lookup throws |
| LVMessagesEfficient.LVMessageEfficient.ParseFromByteBuffer | src/lv_message.cc:177-205 | for any slices: it succeeds if and only if the plain parser accepts and every enum number on the wire has a position; then the fresh cluster equals parse-then-copy if and only if the wire is settled |
| UnpackedFields.CopyVarintBitValueField | src/unpacked_fields.cc:73-130 | for every payload, each varint's base-128 value modulo 2^bits |
| UnpackedFields.DecodersAgree | src/unpacked_fields.cc:73-130 | on complete varints of at most ten bytes, bit for bit the numbers of the packed field parser, for int32, uint32, int64, uint64 and enum |
| UnpackedFields.CopySingularVarint | src/unpacked_fields.cc:132-135 | a singular field gets the same number as the one-varint payload that encodes it |
| UnpackedFields.ZigZagIsNotUndone | src/unpacked_fields.cc:166-176 | on every sint payload each number is the field parser's number if and only if it is zero |
| UnpackedFields.ZigZagChunksAgree | src/unpacked_fields.cc:166-176 | a whole sint payload is read alike if and only if all its numbers are zero |
| UnpackedFields.BoolIsOneByte | src/unpacked_fields.cc:163-165 | on every bool payload a number is the field parser's if and only if its low byte is one or its low word is zero |
| UnpackedFields.BoolChunksAgree | src/unpacked_fields.cc:163-165 | a whole bool payload is read alike if and only if that holds of each varint |
| CallLifecycle.InvStep | src/event_data.cc:131-232 | every step of the queue, of LabVIEW or of the shutdown keeps the invariant |
| CallLifecycle.EveryRunIsSafe | src/event_data.cc:131-232 | in every reachable state: Finish issued at most once per call, at most one CompletionQueueTag of a call out and none while connected, exactly one call waiting until a request is refused and none after |
| CallLifecycle.AcceptingConnects | src/event_data.cc:152-179 | a call to a method with a handler is connected and handed to LabVIEW, any other is finished once as unimplemented, and either way a new call waits |
| CallLifecycle.RefusalFinishes | src/event_data.cc:135-150 | on shutdown the waiting call ends without Finish, its CallFinishedTag is freed and no call takes its place |
| CallLifecycle.DoneTagEnds | src/event_data.cc:216-247 | a connected call that is over ends without Finish, one that is finishing waits for its own tag |
| CallLifecycle.FinishTagFinishes | src/event_data.cc:181-185 | when the Finish of a call is done the call, which was finishing, is finished and its tag is gone |
| CallLifecycle.ClosingFinishes | src/event_data.cc:199-212 | LabVIEW's close issues the one Finish of a connected call and leaves any other as it is |
| CallLifecycle.ClosingHoldsAndReleases | src/grpc_interop.cc:422-434 | the cast takes hold of a registered call and of no other, and the end of closing unregisters the call and lets it go |
| CallLifecycle.RunMovesForward | src/grpc_server.h:164-171 | over any run a call's status only moves forward |
| CallLifecycle.DeliveryIsSound | src/event_data.cc:135-186 | a delivered tag is alive, the connected branch with its failing assertion is out of reach, and the deleted CallFinishedTag is neither null nor freed |
| CallLifecycle.DrainedMeansReleased | src/event_data.cc:216-247 | once the queue is drained every call is finished, each CallFinishedTag was freed exactly once, and a call closed by LabVIEW has no holder |
| CallLifecycle.ClosedStaysClosed | src/grpc_interop.cc:422-438 | an event that was closed is never registered again |
| ServerCalls.LabVIEWgRPCServer.Proceed | src/event_data.cc:131-195 | the method does the modelled step |
| ServerCalls.LabVIEWgRPCServer.FinishFromLabVIEW | src/event_data.cc:199-212 | the method does the modelled step: nothing once the call is finishing |
| ServerCalls.LabVIEWgRPCServer.FinishFromCompletionQueue | src/event_data.cc:216-247 | the method and the tag's self-deletion do the modelled step |
| ServerCalls.LabVIEWgRPCServer.BeginCloseServerEvent | src/grpc_interop.cc:422-438 | -1 and no effect for a pointer no longer registered, otherwise the cast gives the thread the object |
| ServerCalls.LabVIEWgRPCServer.FinishServerEvent | src/grpc_interop.cc:431-431 | the call is finished in a step of its own, after whatever other threads and the queue did since the cast |
| ServerCalls.LabVIEWgRPCServer.HandleRpcs | src/grpc_server.cc:141-156 | from a new server, any admissible interleaving ends in the state of the modelled run, with the invariant |

## Left out

- Client and server set-up, channels, credentials, streaming client calls, futures, `ReadNext` and `Write` on server calls: plumbing over libraries that are not part of this model.
- UTF-8 checking itself: a predicate of the registry.
- Feature toggles, INI files, path lookup, reflection, the rest of the `.proto` importer, `Any` wrappers, exception translation.
- Buffering of repeated messages, strings and bytes in LVMessageEfficient, its repeated enums and its two-dimensional arrays: the feature is forced off at `src/feature_toggles.cc:29-31`.
- 32-bit packed layout, where alignment is the identity.
- Laws.MergeLaw: only wires that are encodings of items; Concatenation.WiresMerge has the other wires, except those with a length that reaches past the end, for which Concatenation.ShortWireSwallows shows the law to fail.
- MessageValue.OutgoingMessage.SerializeToString: for messages of 2^32 bytes or more nothing is stated.
- ClusterCopier.CopyToCluster: where it reports that a null pointer did not stay inside its block, the bytes that the C++ overwrites behind the block are not modelled. Handles are values, so two handles to one block are not modelled.
- ClusterCopier.CopyGridToCluster: the int product of the dimensions wraps around, as compiled code does; the C++ language leaves an overflow undefined.
- Exchange.SendAndReceive: a message of exactly INT_MAX bytes is sent, but reading it is not modelled: a limit can be pushed only strictly inside the enclosing one.
- ClusterReader.CopyGridFromCluster: for a negative int product it sends no data; for numbers the C++ copy is undefined there. The memory a cluster is read from is a snapshot, and reading past a block that is too short gives zeros.
- Exchange.Receive: a server call ignores a failed parse and copies what was parsed until then; only the client's order, parse or fail, is modelled.
- Repeated messages whose type has no elements: their alignment is never initialised, so copying them is excluded.
- LVMessages.LVMessage.ParseMessageField: nested messages are held as values once parsed; sharing of message objects is modelled on the writing side only.
- Enums.CreateMapBetweenLVEnumAndProtoEnumvalues: tables whose entries do not split into a name and a number are excluded, as the assertion in the code says.
- Threads: each call step runs under the call's mutex and is one step here; closing an event is three steps: the cast, finishing the call, and unregistering the pointer.
