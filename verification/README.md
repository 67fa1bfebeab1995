# Verified models of jkl's protocol code

Models, in Dafny, of six components of the jkl C++ library and proofs of what they promise. `dafny verify
dfyconfig.toml` checks everything.

**Protocol Buffers codec** (`Varint`, `PbTags`, `PbSchema`, `PbEncoding`, `PbDecoding`, `PbRoundTrip`, `PbTarget`,
`PbRecords`, `PbRequired`, `PbUnknown`, `PbMaps`, `PbShortRange`, `PbTruncated`, `PbPacked`, `PbExamples`,
`PbTwoPass`, `PbWriter`, `PbReader`, `PbCopying`, `PbConformance`). A schema is a value of type `Field`, a C++ object
a value of type `Value`. `BytesOf` is a one-pass recursive encoder, `FullRead` a recursive decoder. The source's own
two passes, one that stores sub-lengths in a flat cache and one that consumes it blindly, are the methods of
`PbWriter`, proved to produce the bytes of `BytesOf`; the source's decoding loops are the methods of `PbReader`,
proved to compute `FullRead`. The two meet in `WriteThenRead` and, from arbitrary bytes, in `AcceptedReadsAgain`.
`RecordsDecode` says what any sequence of complete records decodes to, `UnknownExactly` which records those of unknown
fields are. Integers have their C++ widths: two's complement, wrap-around and the fast widths of ZigZag are written
out.

**Stop state** (`StopWord`, `StopList`, `StopProtocol`, `StopRefinement`), after section 32.3 of ISO C++20. The 64-bit
word and the intrusive list are classes updated in place; the protocol is a state machine over the atomic steps of any
number of threads, and the theorems hold in every state of every interleaving. `StopRefinement` ties the two together:
every step of the state machine is at most one atomic operation on the word.

**Resource pool** (`PoolModel`, `ResPool`, `PoolRuns`). The methods of the class `Pool` are proved against the functions
of `PoolModel`; runs of acquirers, holders, timers and stop callbacks are sequences of those functions. A resumption
that has been posted and not yet run is an owner of its own, `InFlight`.

**while_next** (`WhileNext`). The parent, its tasks and the moments at which they hold the mutex. The parent's release
of the mutex and its suspension are two steps: between them a task may already resume the continuation, which
`OtherwiseEarlyIsPossible` shows for every such moment, and `SuspendingAtOnceIsSafe` excludes when there is none.

**JSON writer** (`JsonText`, `JsonReader`, `JsonRoundTrip`, `JsonShortest`, `JsonWriter`). Scopes over one shared buffer;
the reader follows sections 2 to 7 of RFC 8259 on UTF-8 text and is the independent definition the writer is held
against.

**Content-Type** (`ContentType`, `ContentTypePrinting`), section 3.1.1.1 of RFC 7231. The index scanner is proved
against functions on the text that is left.

Where code and documentation differ, the code is modelled:

- `include/jkl/json/write.hpp:13` says that `/` is escaped; the table does not, and neither does the model.
- `include/jkl/json/write.hpp:69` subtracts in the wrong order; it is read as in `include/jkl/pb/varint.hpp:182`.
- `include/jkl/pb/dsl.hpp:965-993` never compares a bytes field's length with the bytes left, although the error code
  `bytes_incomplete` exists; the model answers with an error of its own, `OutOfBounds`.
- A later record of a repeated or message field replaces an earlier one (`include/jkl/pb/dsl.hpp:1257`), where the
  Encoding guide of Protocol Buffers concatenates and merges: `LaterRecordReplaces`.
- `include/jkl/pb/varint.hpp:221` wants a byte after the tag; a tag at the very end is a mismatch.
- Closing quotation marks in `include/jkl/http_msg.hpp:157` are found without regard to backslashes, so a quoted value
  that contains one is not read back: `ItemReadsBackExactly` states the exact condition.
- `include/jkl/pb/dsl.hpp:1310-1327` reports a range of fixed length with too few elements as a tag mismatch, which the
  message loop answers by skipping the first element: such a run counts for nothing, but overwrites part of a range
  read before (`TooFewOverwrite`).
- `include/jkl/res_pool.hpp:435-440` does not wake waiters: a waiter means a full pool if and only if no reservation
  raises the capacity while somebody waits (`WaitersMeanFull`).
- `include/jkl/gen.hpp:273-284` lets the continuation be resumed before the parent has suspended; the exact condition
  is in `SuspendingAtOnceIsSafe` and `OtherwiseEarlyIsPossible`.
- `include/jkl/pb/dsl.hpp:1352-1356` copies bools from the wire unchecked: `CopyReadsAsBools` says when that is what
  reading them one by one would yield.

## Model

| member | source | states |
|---|---|---|
| `PbRoundTrip.WriteThenRead` | include/jkl/pb/dsl.hpp:499-545 | Main round trip: for every well-formed schema, form, conforming value and prior content of the target, a full read of what is written yields that value; the one exception, a tagged field without a value, is reported as a tag mismatch |
| `PbWriter.Write` | include/jkl/pb/dsl.hpp:499-523 | The two passes together produce a fresh buffer holding exactly the bytes of the one-pass recursive encoder; for a tagged field it is empty exactly if the value is the field's absent one, an empty oneof or an unpacked field without elements |
| `PbWriter.DoWrite` | include/jkl/pb/dsl.hpp:485-497 | With a cache of the counted size: the size pass fills every slot, the buffer of the computed size is filled to its end, the write pass drains the cache, and the bytes are those of the one-pass encoder |
| `PbTwoPass.CountIsExact` | include/jkl/pb/dsl.hpp:1112-1134 | The slots counted beforehand are as many as the size pass stores, for every kind of field and nesting |
| `PbTwoPass.CountFieldsIsExact` | include/jkl/pb/dsl.hpp:1461-1481 | The same for the declared fields of a message, skipping subtrees of static length |
| `PbTwoPass.StaticFieldIsExact` | include/jkl/pb/dsl.hpp:1105-1110 | A field judged to be of static length has that length on the wire whatever its value |
| `PbTwoPass.StaticPayloadIsExact` | include/jkl/pb/dsl.hpp:1446-1459 | The same for the content of a message, recursively |
| `PbTwoPass.RunIsProduct` | include/jkl/pb/dsl.hpp:1074-1080 | Unpacked elements of static length take element count times element size, tag included |
| `PbTwoPass.PackedIsProduct` | include/jkl/pb/dsl.hpp:1156-1159 | Packed elements of static length take element count times element size |
| `PbWriter.SizeContent` | include/jkl/pb/dsl.hpp:1492-1520 | Size pass over a message or scalar: the size returned is the number of bytes the encoder emits, and the cache receives the sub-lengths in preorder, nothing else in it changing |
| `PbWriter.SizeFields` | include/jkl/pb/dsl.hpp:1483-1490 | The same for all fields of a message, left to right |
| `PbWriter.SizeField` | include/jkl/pb/dsl.hpp:610-627 | The same for one field with its tag, nothing for an absent one |
| `PbWriter.SizeRepeated` | include/jkl/pb/dsl.hpp:1136-1179 | The same for repeated fields, packed or not, with the static and the cached length |
| `PbWriter.SizeRun` | include/jkl/pb/dsl.hpp:1166-1177 | The loop over the elements adds up the true sizes and caches the elements' sub-lengths in order |
| `PbWriter.WriteContent` | include/jkl/pb/dsl.hpp:1522-1549 | Write pass over a message or scalar: given the cache the size pass left, writes exactly the encoder's bytes and pops exactly its own slots |
| `PbWriter.MessageLength` | include/jkl/pb/dsl.hpp:1536-1542 | The length written before a message, static or popped from the cache, is the true length of its fields |
| `PbWriter.WriteFields` | include/jkl/pb/dsl.hpp:1544-1546 | The fields are written one after the other, each from its own slots |
| `PbWriter.WriteField` | include/jkl/pb/dsl.hpp:629-644 | One field with its tag is written, or nothing when it has no value |
| `PbWriter.WritePacked` | include/jkl/pb/dsl.hpp:1190-1205 | Tag, true length and elements of a packed field |
| `PbWriter.WriteRun` | include/jkl/pb/dsl.hpp:1213-1218 | The elements of an unpacked field, each with its tag |
| `PbCopying.CopyIsElementwise` | include/jkl/pb/dsl.hpp:1207-1212 | Copying the memory of fixed-size elements on a little-endian machine writes the same bytes as the loop over the elements |
| `PbCopying.CopyOfBools` | include/jkl/pb/dsl.hpp:1054-1066 | The same for bools: one byte each in memory and on the wire |
| `PbCopying.CopyReadsAsElements` | include/jkl/pb/dsl.hpp:1352-1363 | Reading fixed-size elements one by one yields the values whose memory is the bytes copied, for every body of whole elements |
| `PbCopying.CopyReadsAsBools` | include/jkl/pb/dsl.hpp:1352-1363 | For bools copying agrees with reading one by one exactly if every byte on the wire is 0 or 1 |
| `PbConformance.AcceptedConforms` | include/jkl/pb/dsl.hpp:538-545 | Whatever a full read accepts, from any bytes into any target, is a value of the schema, provided cleared ranges are |
| `PbConformance.AcceptedReadsAgain` | include/jkl/pb/dsl.hpp:499-545 | Encoding an accepted value and reading it again gives the same value |
| `PbConformance.RunFits` | include/jkl/pb/dsl.hpp:1272-1276 | A map read from any bytes has all its keys different, and every container only fitting elements |
| `PbReader.ReadWhole` | include/jkl/pb/dsl.hpp:538-545 | The full read computes the specified result, and bytes left over are an error |
| `PbReader.ReadContentInto` | include/jkl/pb/dsl.hpp:965-993 | Reading the content of one field refines the specification, error for error |
| `PbReader.ReadFieldsInto` | include/jkl/pb/dsl.hpp:1565-1609 | The message loop refines the specification: dispatch, presence bits, skipping, errors, final examination |
| `PbReader.SkipUnclaimed` | include/jkl/pb/dsl.hpp:1579-1595 | Skipping a field nobody claims consumes what its wire type says, or fails as specified |
| `PbReader.Exam` | include/jkl/pb/dsl.hpp:1723-1767 | Absent fields are cleared or set to their default, and a missing required one is an error |
| `PbReader.ReadEntryInto` | include/jkl/pb/dsl.hpp:1874-1879 | Reading for a dispatched tag: the field itself, or the member of a oneof it activates |
| `PbReader.ReadPackedInto` | include/jkl/pb/dsl.hpp:1231-1247 | A packed field is read within its slice, with the length checks for elements of static length |
| `PbReader.ReadToEnd` | include/jkl/pb/dsl.hpp:1259-1293 | Elements of a slice are read until it ends, and it must end there |
| `PbReader.ReadCounted` | include/jkl/pb/dsl.hpp:1302-1334 | A range of fixed length is filled, and its slice must end there |
| `PbReader.ReadRunInto` | include/jkl/pb/dsl.hpp:1255-1288 | An unpacked run is read until another tag follows, entries of a map replacing earlier ones with the same key |
| `PbReader.ReadRangeInto` | include/jkl/pb/dsl.hpp:1310-1327 | An unpacked range of fixed length is read in place, every element after the first behind its tag |
| `PbDecoding.ReadContent` | include/jkl/pb/dsl.hpp:1551-1563 | Whatever is read successfully is not empty and ends within the slice it was given, at every nesting depth |
| `PbDecoding.FieldStep` | include/jkl/pb/dsl.hpp:1568-1605 | Every pass of the message loop stays within the message's slice, so the loop advances and ends exactly at its end |
| `PbTarget.FullReadIgnoresTarget` | include/jkl/pb/dsl.hpp:1723-1767 | For every input, valid or not, the result of a full read does not depend on what the target held |
| `PbTarget.FieldsIgnoreTarget` | include/jkl/pb/dsl.hpp:1565-1609 | The same for the message loop, as long as the slots already seen agree |
| `PbTarget.ContentStable` | include/jkl/pb/dsl.hpp:646-656 | Content once read is read the same from any input with the same bytes in front: nothing beyond what is consumed is looked at |
| `PbTarget.EntryStable` | include/jkl/pb/dsl.hpp:1259-1271 | The same for whole fields; an unpacked run needs in addition that no further tag of its own follows |
| `PbRecords.OrderIrrelevant` | include/jkl/pb/dsl.hpp:1568-1600 | With each declared field at most once: permuting records and inserting or removing complete unknown ones changes neither value nor error, nor does the target |
| `PbRecords.LastRecordsDecide` | include/jkl/pb/dsl.hpp:1568-1600 | With any number of records of a field: two sequences of records that give each slot the same last value decode alike, whatever their order, however their tags are padded and whatever the target held |
| `PbRecords.LaterRecordReplaces` | include/jkl/pb/dsl.hpp:1255-1257 | A record followed by another one of its slot can be left out: a later run replaces an earlier one |
| `PbRecords.PaddedTagReplaces` | include/jkl/pb/dsl.hpp:1259-1271 | An element behind a padded tag ends the run before it and replaces it |
| `PbRecords.CodeIsExamined` | include/jkl/pb/varint.hpp:216-224 | The byte comparison takes a written tag for the wanted one exactly if it is the same tag and not padded |
| `PbRecords.ReadRecords` | include/jkl/pb/dsl.hpp:1568-1600 | The loop meets every record in turn: afterwards each slot holds the value of its last record and exactly the slots met are marked as present |
| `PbRoundTrip.FieldsRoundTrip` | include/jkl/pb/dsl.hpp:1551-1610 | From any field on, the message loop turns the rest of an encoding into the message's value |
| `PbRoundTrip.ContentRoundTrip` | include/jkl/pb/dsl.hpp:1551-1563 | Content followed by anything is read back, consuming exactly its own bytes: a length-prefixed read stops at the end of its slice |
| `PbRoundTrip.EntryRoundTrip` | include/jkl/pb/dsl.hpp:1676-1721 | A field's bytes after its tag are read back by the entry its tag leads to |
| `PbRoundTrip.RunRoundTrip` | include/jkl/pb/dsl.hpp:1259-1271 | An unpacked run is read back whole and stops exactly where a different tag follows |
| `PbRoundTrip.RangeRoundTrip` | include/jkl/pb/dsl.hpp:1310-1327 | A range of fixed length is read back whatever it held before |
| `PbRoundTrip.PackedBodyRoundTrip` | include/jkl/pb/dsl.hpp:1231-1247 | A packed body is read back, whether its element count comes from its length or from reading on |
| `PbRoundTrip.ExamRestores` | include/jkl/pb/dsl.hpp:1741-1747 | The final examination gives every field nothing was written for the value it had |
| `PbSchema.UnwrittenIsCleared` | include/jkl/pb/dsl.hpp:191-215 | A value that is not written is the one clearing restores, for every way of being absent |
| `PbEncoding.NothingWritten` | include/jkl/pb/dsl.hpp:191-201 | Nothing is written exactly for the absent value: an empty optional, an empty buffer, the default, no member, no unpacked element; a required field always writes something |
| `PbEncoding.LittleEndianByte` | include/jkl/pb/dsl.hpp:788 | Byte i of a stored fixed-size number is its i-th base-256 digit |
| `PbRequired.RecordsDecode` | include/jkl/pb/dsl.hpp:1723-1767 | Records of a message decode exactly if every required field has one, and else fail as required_field_missing; each field then has the value of its last record, or its absent value |
| `PbRequired.BareDecodes` | include/jkl/pb/dsl.hpp:538-545 | The same for a whole buffer with the bare fields of a message, whatever the target held |
| `PbRequired.MessageDecodes` | include/jkl/pb/dsl.hpp:1551-1610 | The same for a message behind its length, followed by anything |
| `PbRequired.NestedFailure` | include/jkl/pb/dsl.hpp:1565-1608 | A nested message that lacks a required field makes the enclosing one fail with the same error, wherever it stands in it |
| `PbRequired.ExamExactly` | include/jkl/pb/dsl.hpp:1741-1747 | After the loop: success exactly if every required field was met; fields met keep their value and all others get their absent one |
| `PbMaps.MapKeepsLast` | include/jkl/pb/dsl.hpp:1272-1277 | Of several entries with one key the last on the wire stays, and every key read is kept |
| `PbUnknown.SkipsExactly` | include/jkl/pb/dsl.hpp:1579-1595 | What is skipped is a varint of at most ten bytes, four bytes, eight bytes, or a length and as many bytes; and each of these is skipped whole, whatever follows |
| `PbUnknown.UnknownExactly` | include/jkl/pb/dsl.hpp:1574-1595 | A record counts as a complete unknown one exactly if no field or oneof member carries its tag and its payload is that of its wire type |
| `PbUnknown.WrittenIsSkipped` | include/jkl/pb/dsl.hpp:1574-1595 | Content written by any schema under a tag that the reading one does not know is skipped whole, and reading goes on behind it |
| `PbShortRange.TooFewOverwrite` | include/jkl/pb/dsl.hpp:1310-1327 | A run of fewer elements than a range of fixed length holds is not counted as an occurrence: every element is retried as a first one and then skipped, which leaves the last element in as many places of the target as the run has elements |
| `PbShortRange.TooFewCountForNothing` | include/jkl/pb/dsl.hpp:1310-1327 | So such a run changes nothing in what is read if the range has not been met before, whatever precedes and follows |
| `PbTruncated.CutPayload` | include/jkl/pb/dsl.hpp:1551-1563 | A payload cut short anywhere is refused, with the error of the part in which it was cut |
| `PbTruncated.CutVarint` | include/jkl/pb/varint.hpp:290-304 | A varint cut short is reported as incomplete, for every type and value |
| `PbTruncated.WholeOrNothing` | include/jkl/pb/dsl.hpp:532-545 | A buffer with a length prefix is read exactly if nothing is missing and nothing follows |
| `PbTruncated.NothingMayFollow` | include/jkl/pb/dsl.hpp:538-545 | Bytes after a tagged field are an error |
| `PbTruncated.BytesExactly` | include/jkl/pb/dsl.hpp:965-993 | A byte string is accepted exactly in a length its buffer can hold |
| `PbTruncated.CutRecord` | include/jkl/pb/dsl.hpp:1568-1608 | A message that ends within a field, tag or content, is refused with the error of that part, at any point of the loop |
| `PbTruncated.CutUnknown` | include/jkl/pb/dsl.hpp:1579-1595 | So is one that ends within a field nobody claims |
| `PbTruncated.BadEntryFails` | include/jkl/pb/dsl.hpp:1572-1608 | At any point of the loop a field or member that cannot be read makes the message fail with its error |
| `PbTruncated.CutRun` | include/jkl/pb/dsl.hpp:1259-1288 | An unpacked run whose last element is cut short fails, however many precede it |
| `PbTruncated.CutPacked` | include/jkl/pb/dsl.hpp:1231-1247 | A packed field must be there as a whole |
| `PbPacked.PackedExactly` | include/jkl/pb/dsl.hpp:1231-1334 | A packed body is read as a list of elements exactly if it splits into them without rest, and a range of fixed length exactly if they are as many as it holds |
| `PbTwoPass.StaticNeedsNoSlots` | include/jkl/pb/dsl.hpp:1461-1481 | Nothing is cached for a field of static length |
| `PbExamples.KnownVarints` | test/pb.hpp:169-174 | Varints of the repository's tests, byte for byte |
| `PbExamples.KnownLongVarint` | test/pb.hpp:176 | The ten-byte varint of the repository's tests |
| `PbExamples.NegativeTakesTen` | test/pb.hpp:180-206 | A negative number without ZigZag always takes ten bytes, for every width |
| `PbExamples.KnownScalar` | include/jkl/pb/dsl.hpp:634-640 | Tag and varint of a scalar field, byte for byte |
| `PbExamples.KnownFixed32` | include/jkl/pb/dsl.hpp:788 | Tag and bytes of a 32-bit fixed field |
| `PbExamples.KnownMessage` | include/jkl/pb/dsl.hpp:1522-1549 | Tag, length and fields of a nested message |
| `PbExamples.KnownPacked` | include/jkl/pb/dsl.hpp:1190-1205 | Tag, length and elements of a packed field |
| `PbExamples.KnownRun` | include/jkl/pb/dsl.hpp:1213-1218 | An unpacked field repeats its tag before every element |
| `PbExamples.KnownOrder` | include/jkl/pb/dsl.hpp:1544-1546 | Fields are written in the order of declaration, a oneof as the member it holds |
| `PbSchema.ExpansionMembers` | include/jkl/pb/dsl.hpp:1630-1673 | The expansion tables list every field and every oneof member exactly once, with its own indices |
| `PbDecoding.DispatchFinds` | include/jkl/pb/dsl.hpp:1676-1721 | With distinct ids a tag leads to the field or oneof member that carries it |
| `PbEncoding.FixedRoundTrip` | include/jkl/pb/dsl.hpp:788-803 | Little-endian fixed-size numbers, signed or not, 32 or 64 bits, are read back |
| `PbTags.ExamTagOfRecord` | include/jkl/pb/dsl.hpp:410-425 | On a record both ways of checking a tag agree, and accept exactly the record's own tag |
| `PbTags.ExamTagExactly` | include/jkl/pb/varint.hpp:216-224 | On any input the byte comparison accepts exactly when decoding does, the tag is minimally encoded, and something follows it |
| `PbTags.ExamTagDiffers` | include/jkl/pb/varint.hpp:216-224 | Inputs on which the two ways of checking differ: a padded tag, and a tag at the end of the input |
| `PbTags.TagRoundTrip` | include/jkl/pb/varint.hpp:186-190 | Every 32-bit tag is read back |
| `Varint.RoundTrip` | include/jkl/pb/varint.hpp:133-162 | For every integer type of 8 to 64 bits and bool, signed or not, with or without ZigZag, and any continuation: reading what was appended yields the value and leaves the continuation |
| `Varint.AppendVarint` | include/jkl/pb/varint.hpp:133-162 | The loop writes exactly the code of the value at its position and touches nothing else |
| `Varint.ReadVarint` | include/jkl/pb/varint.hpp:233-313 | The unrolled path and the loop near the end compute the same function of the bytes |
| `Varint.ReadFast` | include/jkl/pb/varint.hpp:254-289 | The unrolled path equals the recursive reader: value, bytes used, and overflow of the last byte |
| `Varint.ReadNearEnd` | include/jkl/pb/varint.hpp:290-304 | The loop near the end equals the recursive reader, running out of input included |
| `Varint.SkipAgreesWithRead` | include/jkl/pb/varint.hpp:324-357 | Skipping succeeds, fails and stops exactly where reading a 64-bit unsigned integer does |
| `Varint.SkipVarint` | include/jkl/pb/varint.hpp:324-357 | Both paths of the skipping code compute that |
| `Varint.ReadAsStable` | include/jkl/pb/varint.hpp:233-313 | Success, value and end depend only on the bytes up to the terminating one |
| `Varint.ReadAsInRange` | include/jkl/pb/varint.hpp:306-309 | Whatever is read is a value of the type |
| `Varint.ParseExactly` | include/jkl/pb/varint.hpp:254-304 | On any input: the number carried by seven bits of each byte up to the first below 128 within the limits; running out of bytes is incomplete, and a last byte above the limit is too large |
| `Varint.ReadTruncates` | include/jkl/pb/varint.hpp:306-309 | Whatever number is parsed, the value read is in the type's range and congruent to it modulo 2^width, or with ZigZag the one whose code it is; a bool is false exactly for the byte 0 |
| `Varint.PrefixFree` | include/jkl/pb/varint.hpp:193-224 | No code is a proper prefix of another |
| `Varint.WireSizeIsExact` | include/jkl/pb/varint.hpp:104-124 | The count-leading-zeros formula is the number of bytes appended, and at most the maximal size |
| `Varint.WireLimit` | include/jkl/pb/varint.hpp:94-100 | The limits on size and last byte admit exactly the numbers of the type |
| `Varint.ZigzagMeaning` | include/jkl/pb/varint.hpp:26-54 | The shift-and-xor formula means 2v for v >= 0 and -2v-1 otherwise, for every width |
| `Varint.ZigzagInverse` | include/jkl/pb/varint.hpp:56-69 | Decoding inverts encoding |
| `Varint.ZigzagOnto` | include/jkl/pb/varint.hpp:35-69 | Every unsigned number is the encoding of the number it decodes to |
| `StopProtocol.ExactlyOneWinner` | include/jkl/std_stop_token.hpp:80-85 | In every interleaving at most one request returns true, and once requests were made and none is under way exactly one did |
| `StopProtocol.EveryLinkedCallbackRuns` | include/jkl/std_stop_token.hpp:91-137 | No callback runs twice; when the winning request has returned, every callback linked at the signal has run, except those unlinked before being dequeued, which never run |
| `StopProtocol.LinkedAtWinRuns` | include/jkl/std_stop_token.hpp:80-137 | Told by the steps alone: a callback linked when a request wins has run exactly once when that request has returned, unless its destructor found it linked in between, and then it has not run |
| `StopProtocol.StopMeansWon` | include/jkl/std_stop_token.hpp:80-85 | Stop is requested exactly from the step on in which a request wins, and that step happens once at most |
| `StopProtocol.RunsOnlyOnceStopped` | include/jkl/std_stop_token.hpp:154-166 | No callback runs, inline or later, unless stop has been requested |
| `StopProtocol.RefusedNeverRuns` | include/jkl/std_stop_token.hpp:163-165 | A callback constructed when no source is left and no stop is requested never runs, in any later state |
| `StopProtocol.ConstructorDecides` | include/jkl/std_stop_token.hpp:150-170 | A constructor runs its callback inline, gives up or goes on to link it, depending only on a stop requested and sources left alive |
| `StopProtocol.NothingLinkedAfterSignal` | include/jkl/std_stop_token.hpp:160-166 | After the signal nothing is linked, and a constructor can only run its callback inline |
| `StopProtocol.DestructorWaitsForRun` | include/jkl/std_stop_token.hpp:188-228 | A destructor passes the waiting point only when its callback is not running or runs on its own thread; the flag it sets is the one of its own run |
| `StopProtocol.DestroyedIsNeverTouched` | include/jkl/std_stop_token.hpp:113-122 | After a destructor has returned no later step of any thread touches that callback's node, self-removal included |
| `StopProtocol.DeadStaysDead` | include/jkl/std_stop_token.hpp:188-228 | A destroyed callback stays destroyed |
| `StopProtocol.NeverStuck` | include/jkl/std_stop_token.hpp:80-228 | In every reachable state with an operation under way some operation can take its next step, as long as callbacks return and the counts stay in range |
| `StopProtocol.DeletedOnceAndLast` | include/jkl/std_stop_token.hpp:60-78 | Tokens are counted as live tokens plus registered callbacks; the state is deleted once, exactly when both counts are zero, and nothing happens after that |
| `StopProtocol.StepKeepsInv` | include/jkl/std_stop_token.hpp:80-228 | Every atomic step of every thread keeps the invariant |
| `StopProtocol.InvAlways` | include/jkl/std_stop_token.hpp:80-228 | The invariant holds in every state of every interleaving |
| `StopRefinement.StepsOnWord` | include/jkl/std_stop_token.hpp:231-308 | In every interleaving flags and counts can be read off one 64-bit word; every step adds one of the source's constants to it modulo 2^64, and the comparison of the old word with its threshold says exactly when the state is deleted |
| `StopRefinement.ComparisonFindsLast` | include/jkl/std_stop_token.hpp:60-78 | Each of the three comparisons is true exactly when the operation leaves both counts zero, whatever the flags |
| `StopRefinement.OperationOnWord` | include/jkl/std_stop_token.hpp:278-296 | An operation on the fields is one addition to the packed word as long as the counts stay in range |
| `StopRefinement.StepIsOperation` | include/jkl/std_stop_token.hpp:148-228 | Every enabled step of the protocol is one operation that the word allows at that moment |
| `StopWord.UnpackPack` | include/jkl/std_stop_token.hpp:298-308 | The four fields of the 64-bit word do not disturb each other |
| `StopWord.PackUnpack` | include/jkl/std_stop_token.hpp:298-308 | Every 64-bit word is the packing of its fields |
| `StopWord.TokenCountLimit` | include/jkl/std_stop_token.hpp:56-58 | An increment changes the token count alone exactly while the count stays below 2^31 |
| `StopWord.Word.RemoveTokenReference` | include/jkl/std_stop_token.hpp:60-66 | Only the token count changes, and deletion is reported exactly when both counts are zero |
| `StopWord.Word.RemoveSourceReference` | include/jkl/std_stop_token.hpp:72-78 | Only the source count changes, and deletion is reported exactly when both counts are zero |
| `StopWord.Word.AddSourceReference` | include/jkl/std_stop_token.hpp:68-70 | Only the source count changes |
| `StopWord.Word.Unlock` | include/jkl/std_stop_token.hpp:278-280 | Only the lock flag changes |
| `StopWord.Word.UnlockAndIncrementTokenRefCount` | include/jkl/std_stop_token.hpp:282-285 | One wrapping subtraction clears the lock flag and adds a token |
| `StopWord.Word.UnlockAndDecrementTokenRefCount` | include/jkl/std_stop_token.hpp:287-296 | One subtraction clears the lock flag and removes a token, with the exact test for deletion |
| `StopWord.Word.TryLock` | include/jkl/std_stop_token.hpp:264-276 | A successful exchange sets the lock flag alone |
| `StopWord.Word.TryLockAndSignal` | include/jkl/std_stop_token.hpp:245-262 | Sets stop and lock flags together exactly when neither was set |
| `StopWord.Word.IsStopRequestable` | include/jkl/std_stop_token.hpp:239-243 | The comparison of the whole word means: stop requested, or a source left |
| `StopList.CallbackList.PushFront` | include/jkl/std_stop_token.hpp:170-176 | Relinking in place puts the callback at the head of the list |
| `StopList.CallbackList.PopFront` | include/jkl/std_stop_token.hpp:92-100 | Dequeues the head, marks it unlinked and tells whether there are more |
| `StopList.CallbackList.Unlink` | include/jkl/std_stop_token.hpp:191-197 | Writing through the back pointer removes just that callback, wherever it is linked |
| `PoolRuns.StepKeepsInv` | include/jkl/res_pool.hpp:254-320 | Every critical section keeps the pool's invariant |
| `PoolRuns.InvAlways` | include/jkl/res_pool.hpp:254-320 | The invariant holds in every state of every run |
| `PoolRuns.QueueMatchesIds` | include/jkl/res_pool.hpp:254-282 | The ids in the set are exactly those of the live queue entries, one each, pointing at their own slots |
| `PoolRuns.ResourcesConserved` | include/jkl/res_pool.hpp:284-328 | What exists never exceeds the capacity; every resource in use has exactly one owner, a holder or one waiter in flight, and no unused one has any |
| `PoolRuns.SettledOnce` | include/jkl/res_pool.hpp:176-206 | A waiter settled by recycling, timeout or stop stays settled by that cause |
| `PoolRuns.ExpireRemovesItsWaiter` | include/jkl/res_pool.hpp:271-282 | A timeout or stop with a waiting id removes that waiter alone and leaves a tombstone in its place |
| `PoolRuns.StaleIdIsHarmless` | include/jkl/res_pool.hpp:271-282 | The id of a settled waiter changes nothing ever after, even when its slot is another waiter's |
| `PoolRuns.ReleaseServesTheOldest` | include/jkl/res_pool.hpp:284-320 | A returned resource stays in use and goes to the waiter with the smallest sequence number; without waiters it becomes the first of the unused ones |
| `PoolRuns.StepConserves` | include/jkl/res_pool.hpp:284-320 | Every step keeps all resources that exist, in use or not, except that clearing drops the unused ones; only acquiring without an unused resource and filling the pool create any |
| `PoolRuns.NothingIsLost` | include/jkl/res_pool.hpp:298-303 | Along every run a resource once created exists in every later state as long as unused ones are not cleared, and while it is owned even then |
| `PoolModel.RecycleConserves` | include/jkl/res_pool.hpp:284-320 | Handing back moves a resource to a waiter or to the front of the unused ones; none appears and none is lost |
| `PoolModel.AcquireConserves` | include/jkl/res_pool.hpp:479-504 | An unused resource is handed out whenever there is one; one is created only without any, and only below the capacity |
| `PoolModel.ReleasedIsReused` | include/jkl/res_pool.hpp:298-303 | What is handed back while nobody waits is what is handed out next |
| `PoolModel.ReservationIsRoom` | include/jkl/res_pool.hpp:435-440 | After reserving more than exists exactly so many can be in use: acquiring succeeds that often and no oftener; a smaller reservation changes nothing |
| `PoolRuns.ServedInOrder` | include/jkl/res_pool.hpp:295-314 | Waiters are served in the order in which they began to wait |
| `PoolRuns.NothingInUseNothingQueued` | include/jkl/res_pool.hpp:381-387 | With nothing in use queue and set are empty, tombstones included: the destructor's assertion |
| `PoolRuns.WaitersMeanFull` | include/jkl/res_pool.hpp:140-174 | In every state of a run a waiter means no unused resource and all of the capacity in use, if and only if the run never reserves more than the capacity while somebody waits |
| `PoolRuns.StepKeepsFull` | include/jkl/res_pool.hpp:435-440 | The same per step: a step keeps the pool full for its waiters exactly unless it is such a reservation |
| `PoolRuns.GrowthWakesNobody` | include/jkl/res_pool.hpp:435-440 | A run in which such a reservation leaves a waiter beside free capacity |
| `PoolRuns.AcquireAgrees` | include/jkl/res_pool.hpp:479-504 | Counter mode acquires exactly when the resource mode does, with the same effect on the counts |
| `PoolRuns.RecycleAgrees` | include/jkl/res_pool.hpp:284-320 | Counter mode hands over and frees exactly as the resource mode does |
| `PoolRuns.ReserveAgrees` | include/jkl/res_pool.hpp:435-440 | The two modes agree on a reservation except exactly when it lies between what is in use and what exists |
| `ResPool.Pool.TryAcquire` | include/jkl/res_pool.hpp:479-504 | Succeeds exactly while fewer than the capacity are in use, with an unused resource if there is one and a new one else, which nobody had and which becomes the front of those in use; the pool stays sound |
| `ResPool.Pool.AddAwaiter` | include/jkl/res_pool.hpp:254-269 | The id is greater than any in the set, and the last queue entry is the only one that has it; the pool stays sound |
| `ResPool.Pool.RemoveAwaiter` | include/jkl/res_pool.hpp:271-282 | Succeeds exactly if an awaiter waits with the id; that entry dies and every other stays as it is |
| `ResPool.Pool.Recycle` | include/jkl/res_pool.hpp:284-320 | The resource goes to the waiter with the smallest id exactly if there is one, and stays in use then; else it becomes the first unused one; no resource appears or is lost |
| `ResPool.Pool.Reserve` | include/jkl/res_pool.hpp:435-440 | The capacity becomes n exactly if n exceeds what exists, and nothing else changes |
| `ResPool.Pool.PopDead` | include/jkl/res_pool.hpp:295-296 | The loop drops exactly the tombstones in front of the first live entry |
| `ResPool.Pool.CreateAll` | include/jkl/res_pool.hpp:469-477 | The loop fills the pool exactly up to its capacity and touches no resource in use |
| `WhileNext.ResumedOnceAfterAll` | include/jkl/gen.hpp:251-287 | In every interleaving the continuation is resumed at most once, with the generator's result, when every task started has left |
| `WhileNext.NeverBoth` | include/jkl/gen.hpp:270-282 | A parent that returned by itself leaves no task that could resume the continuation, and no step at all |
| `WhileNext.NeverNeither` | include/jkl/gen.hpp:153-182 | A run that can go no further after the last element has resumed the continuation exactly once |
| `WhileNext.EveryStepCounts` | include/jkl/gen.hpp:153-182 | After the last element every step brings the end nearer, whatever the order |
| `WhileNext.NoTasksReturnAtOnce` | include/jkl/gen.hpp:268-287 | Without a started task the parent returns at once, and only then |
| `WhileNext.SuspendingAtOnceIsSafe` | include/jkl/gen.hpp:273-284 | If the parent always suspends right after releasing the mutex, its continuation is never resumed before, nor is a task about to |
| `WhileNext.OtherwiseEarlyIsPossible` | include/jkl/gen.hpp:273-284 | Conversely every run that has reached the point between the two can be continued without a step of the parent so that the continuation is resumed early |
| `WhileNext.ResumedBeforeSuspended` | include/jkl/gen.hpp:273-284 | A run in which that happens |
| `WhileNext.StepKeepsInv` | include/jkl/gen.hpp:140-183 | Every step of parent and tasks keeps the invariant |
| `WhileNext.WhileHelper.OnSuspendThen` | include/jkl/gen.hpp:153-168 | Is told to resume the parent exactly if the parent waits and all tasks started have now left |
| `WhileNext.WhileHelper.Decide` | include/jkl/gen.hpp:270-282 | The parent returns by itself exactly if every task started has left, and asks to be resumed exactly if not |
| `JsonShortest.ReadsBackExactly` | include/jkl/json/write.hpp:107-137 | For every tree and raw or escaped keys: reading the text by RFC 8259 returns the same tree if and only if its numbers are numbers, its strings and keys UTF-8, and its raw keys free of escapes |
| `JsonWriter.WriteTree` | include/jkl/json/write.hpp:374-429 | Through nested scopes a tree is appended to any buffer, which is otherwise unchanged, and is read back from where it begins |
| `JsonWriter.WriteScope` | include/jkl/json/write.hpp:121-149 | A scope leaves the old contents followed by the comma-joined text, and a comma behind it when nested |
| `JsonWriter.CloseScope` | include/jkl/json/write.hpp:128-137 | Overwriting the last byte, or appending to an empty scope, turns trailed items into joined ones |
| `JsonWriter.Writer.constructor` | include/jkl/json/write.hpp:121-126 | Remembers where the scope begins and opens it |
| `JsonWriter.Writer.Close` | include/jkl/json/write.hpp:128-137 | Overwrites the last byte unless the scope is empty |
| `JsonWriter.Writer.Elm` | include/jkl/json/write.hpp:204-209 | Appends a primitive and a comma |
| `JsonWriter.Writer.Pa` | include/jkl/json/write.hpp:260-272 | Appends key, colon, primitive and comma |
| `JsonWriter.Buffer.WriteString` | include/jkl/json/write.hpp:63-70 | Appends the quoted, escaped string, giving back the room not needed |
| `JsonWriter.EscapeInto` | include/jkl/json/write.hpp:14-60 | The loop writes the quoted, escaped string and stays within 6n + 2 bytes |
| `JsonText.KnownEscapes` | include/jkl/json/write.hpp:16-31 | The escapes, letter for letter: upper-case hexadecimal for control characters without a letter of their own |
| `JsonText.QuotedSize` | include/jkl/json/write.hpp:66-68 | A string of n bytes takes at most 6n + 2 bytes, and n + 2 exactly when nothing needs an escape |
| `JsonText.TrailedIsJoined` | include/jkl/json/write.hpp:107-137 | Items each followed by a comma are the joined items and one comma |
| `JsonRoundTrip.ValueReadsBack` | include/jkl/json/write.hpp:107-137 | Every tree of numbers, UTF-8 strings and plain raw keys, followed by anything, is read back |
| `JsonRoundTrip.StringReadsBack` | include/jkl/json/write.hpp:14-60 | A string is read back byte for byte exactly if it is UTF-8 |
| `JsonRoundTrip.RawKeyReadsBack` | include/jkl/json/write.hpp:163-169 | A key written without escaping is read back exactly when it is UTF-8 and needs none |
| `JsonRoundTrip.NumberReadsBack` | include/jkl/json/write.hpp:180-182 | A number's text is read back when nothing follows that could continue it |
| `JsonShortest.WrittenIsShortest` | include/jkl/json/write.hpp:14-60 | Whatever text is read as a value, the one written for that value with escaped keys is no longer |
| `ContentType.HttpFieldContentType.Parse` | include/jkl/http_msg.hpp:60-198 | The index scanner computes the specified type, charset and boundary for every text |
| `ContentType.HttpFieldContentType.ParseParams` | include/jkl/http_msg.hpp:87-197 | Every round starts at a semicolon further on, so the loop ends; the parameters found are the specified ones |
| `ContentType.ReadParam` | include/jkl/http_msg.hpp:93-130 | One round: name, value, and the position of the next semicolon outside quotation marks |
| `ContentType.ReadValue` | include/jkl/http_msg.hpp:134-182 | A bare or quoted value without the blanks at its ends |
| `ContentType.Unquote` | include/jkl/http_msg.hpp:163-179 | The characters between quotation marks, trimmed and without escaping backslashes |
| `ContentType.HttpFieldContentType.ParseAll` | include/jkl/http_msg.hpp:52-57 | All Content-Type fields in turn |
| `ContentTypePrinting.MimeExactly` | include/jkl/http_msg.hpp:73-74 | A word is taken for a media type exactly if it is a type and a subtype, neither empty, with a slash between them, and not the one that is two asterisks |
| `ContentTypePrinting.FieldExactly` | include/jkl/http_msg.hpp:60-89 | A field says something exactly if its first word is a media type; any other leaves type, charset and boundary as they are |
| `ContentTypePrinting.FieldReadsBack` | include/jkl/http_msg.hpp:60-198 | Printing any type and subtype with any list of fitting parameters and parsing it gives type and subtype in lower case, the first charset that is not empty in lower case, and the first boundary that is not empty |
| `ContentTypePrinting.ItemReadsBackExactly` | include/jkl/http_msg.hpp:93-182 | A printed parameter is read back if and only if its value fits the form it is printed in; semicolons inside quotation marks do not split |
| `ContentTypePrinting.ItemsReadBack` | include/jkl/http_msg.hpp:91-197 | All parameters of a list of fitting ones are found, in order |
| `ContentTypePrinting.QuotedValue` | include/jkl/http_msg.hpp:149-182 | A quoted value without quotation marks, backslashes escaped, is read without the blanks at its ends |
| `ContentTypePrinting.UnclosedValue` | include/jkl/http_msg.hpp:157-161 | Without a closing quotation mark the value goes on to the end of the text |
| `ContentTypePrinting.BackslashPasses` | include/jkl/http_msg.hpp:168-179 | A backslash escapes any character, and stands for itself at the end |
| `ContentTypePrinting.NoEqualsNoParam` | include/jkl/http_msg.hpp:104-111 | A name without an equals sign is skipped |
| `ContentTypePrinting.NoValueNoParam` | include/jkl/http_msg.hpp:117-132 | So is one with nothing but blanks after the equals sign |
| `ContentTypePrinting.LowerExactly` | include/jkl/charset/ascii.hpp:29-46 | Lower case changes the letters from A to Z and nothing else |
| `ContentTypePrinting.FirstStays` | include/jkl/http_msg.hpp:184-193 | Of several charsets or boundaries the first that is not empty counts, whatever the case of the names |
| `ContentTypePrinting.FieldsInTurn` | include/jkl/http_msg.hpp:52-57 | Several fields count in the order in which they stand |
| `ContentTypePrinting.FoundStays` | include/jkl/http_msg.hpp:52-57 | A charset or boundary once found survives all later fields |

## Left out

- Text of `.proto` definitions, user validators (`p_check`), custom accessors (`p_has_val`, `p_clear_val`, `p_get_member`), `rebind`, and the unrolling of the switches: templates and tables without behaviour of their own; dispatch is "find the tag, else mismatch".
- Containers with set semantics as targets of repeated fields; maps are insertion-ordered entries in which a later entry replaces an earlier one with the same key.
- Floating point: `float` and `double` fields are their 32- and 64-bit patterns, and a default is compared as a pattern.
- Assertions of debug builds: the release build is modelled, in which empty repeated fields work and an unknown field of an unknown wire type is skipped without consuming anything.
- Lengths of 2^32 and more, field ids of 2^29 and more, and the filler case tags above `0xffffff`; the C++ value of a field has the field's own type.
- The order in which C++ evaluates the operands of the size pass's fold: left to right.
- PbReader: the target is a value that is returned, not a C++ object updated in place, so aliasing between target and input is not modelled.
- Which of two errors in one message is reported: `PbTruncated` says that an error met at any point of the loop ends it, not which input meets which error first.
- Appending varints to a resizable buffer; only the form with a pointer into room that suffices.
- C++ memory orders (every step is sequentially consistent), fairness and termination of spin waits, allocation failure, thread identity beyond equality; a compare-and-exchange loop is the step that succeeds.
- What clients of the stop state must do: construct and destroy a callback object once, keep the source alive during a request, not exceed 2^31 references.
- Exchanging and comparing stop tokens and sources, tokens without a state.
- StopList: the protocol uses the sequence of linked callbacks; that the pointers represent it is proved for each operation on the list.
- Timers, executors and coroutine frames of the pool's awaiters: timeouts and stop requests come at any time with the id they captured; a stop request already made before waiting, which never reaches the queue, is not a step.
- The creator of pooled resources adds exactly one resource per call; `reserve_by` computes the capacity for `reserve` in floating point; `res_pool_map` looks a pool up; the holder's move constructor.
- Exceptions thrown by while_next's generator or tasks, and what its frame is used for after the early resumption.
- Numbers of the JSON writer are given as their text, `stringify` is not part of this model; options `elm_if`, `pa_if` and user-defined serialisers choose which calls are made.
- The fields of a message other than Content-Type, and validity of characters in names and values, which the parser does not check.
- Network, database and library wrappers of the repository, `html.hpp`, `mime.hpp`, the rest of `ascii.hpp`, `bom.hpp`, `buf.hpp`: tables, small loops or code bound to libraries.
