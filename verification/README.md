# A verified model of Cap'n Proto's core

This project models the parts of Cap'n Proto on which the rest relies, and proves what they are
for. Each module follows one component of the system:

- **ReadLimiter** - the traversal limit that threads share through a separate load and store. Every
  interleaving of any number of threads is covered, and the bound on the reads granted is exact.
- **Arena** - the bounds checker of `SegmentReader` and the bump allocator of `SegmentBuilder`. The
  objects of a message behave as if each had memory of its own, over every run of calls.
- **Packing**, **PackingSize**, **PackedBlocks**, **PackedStreams** - the packed encoding: a
  specification of pack and unpack that undo each other, exact size results, and the buffered encoder
  and decoders, which meet the specification whatever the sizes of the buffers that the underlying
  streams hand out. Only whether a read that wants more words than it requires succeeds can depend on
  those sizes; when exactly it does is proved.
- **BufferedStreams** - the buffering wrappers of the base library over streams that read short.
- **PackedMessage** - the segment table and lazy message reader on top of the packed streams, end to
  end from the words written on one host to the words read on another.
- **WireValue**, **StructLayout**, **ListLayout** - the three byte-order implementations, masked data
  fields of mixed widths over one buffer, reads past the end of a section, list elements.
- **Orphan** - ownership of detached objects through moves, assignments, destructors, adoption and
  disowning.
- **RecordLayout**, **RpcMessages** - structs as records, and the generated accessors of six RPC
  message structs as abstract records with tagged unions.
- **ProducerConsumerQueue**, **FastRand**, **PipeIo** - the benchmark runtime: a queue between two
  threads at the granularity of single field accesses, a generator, partial-transfer loops.
- **MegaTest** - the parser, printer and poll loop of the test driver.
- **Bytes**, **Basics** - bytes, bits, little-endian numbers and slices, used by the others.

Code that updates state in place is modelled by classes and by methods over arrays; each is proved
against a function of the old state, and the properties are proved about that function. Protocols
with several threads are state machines whose steps are the individual accesses to shared memory.
Pointers into a segment are word indexes; the contents of an object behind a pointer are opaque.

## Where the code and its documentation disagree

The model follows the code. In each case the statement below is a theorem.

- The comment on `ReadLimiter` says that the limit is only enforced less strictly when threads race
  and still kicks in eventually. That holds when every read is at least one word
  (`GrantsBounded`, `BoundAttained`). With reads of zero words it fails as soon as two threads race
  on a non-zero limit, and only then (`ZeroWordReadsDefeatTheLimit`): a zero-word read stores back a
  stale value.
- `doc/encoding.md:328-329` says that packing costs at most 2 bytes per 2 KiB. A word without zero
  bytes followed by a word with exactly two, repeated, costs one byte in sixteen (`AlternateSize`,
  `DocumentedOverheadFails`, `DocumentedOverheadExample`). The documented bound holds for the messages over a vocabulary of words
  exactly when the vocabulary lacks one of the two kinds (`DocumentedOverheadExactly`).
- `c++/src/kj/io.h:55-59` lets `tryRead` fall short only at the end of the stream and reserves errors for
  reads below the minimum. `PackedInputStream::tryRead` can fail although it has its minimum: at a
  stream that ends in a run of plain words, if the run overruns the buffer, or at a bad block, if ten
  bytes of it are buffered. A read is certain to return if and only if the stream is `Settled`,
  certain to fail if and only if it is `Hopeless`, and otherwise the cut into buffers decides
  (`TryRead`, `CutDecides`, `CutMatters`; `PlainRunAtTheEnd` and `BadBlockInBuffer` give such streams).
- `computeUnpackedSizeInWords` accepts data that is one byte short of a last ordinary block, and
  no other invalid data (`SizeOfIs`, `AcceptsTruncatedData`).
- A comment in `InputStreamMessageReader` gives 512 as the limit on segments; a message that was
  written is accepted exactly when it has at most 511 and is within the traversal limit
  (`HeadOfMessage`, `PackedMessage.SendAndReceive`).
- `mega-test.py` rewrites the expected line count of a passing test to the count it saw; a test that
  passed without output makes the next run divide by zero (`SilentTestBreaksNextRun`).

## Model

| member | source | states |
|---|---|---|
| `ReadLimiter.Sub64` | c++/src/capnp/arena.h:394 | 64-bit subtraction; no wrap when the amount was checked |
| `ReadLimiter.NeverExceedsOrWraps` | c++/src/capnp/arena.h:386-397 | in every interleaving, zero-word reads included, no limit and no value about to be stored exceeds the initial limit, and no granted subtraction wraps |
| `ReadLimiter.StoreProgress` | c++/src/capnp/arena.h:394 | a store, even of a stale value, never lowers the potential |
| `ReadLimiter.LoadProgress` | c++/src/capnp/arena.h:389-390 | a load that grants a read of at least one word raises the potential by at least the words granted |
| `ReadLimiter.RunProgress` | c++/src/capnp/arena.h:386-397 | over a run the potential rises by at least the number of words granted |
| `ReadLimiter.GrantsBounded` | c++/src/capnp/arena.h:77-79 | n threads with limit L are granted at most C(n + L, L) - 1 words by reads of at least one word, and so at most as many reads, in every interleaving |
| `ReadLimiter.BoundAttained` | c++/src/capnp/arena.h:386-397 | for every n and L some schedule is granted exactly that many words in as many reads |
| `ReadLimiter.LimitKicksIn` | c++/src/capnp/arena.h:77-79 | every run with at least C(n + L, L) attempts has one that is refused |
| `ReadLimiter.SingleThreadConserves` | c++/src/capnp/arena.h:386-397 | with one thread, words granted and words left add up to the initial limit |
| `ReadLimiter.ZeroWordReadsDefeatTheLimit` | c++/src/capnp/arena.h:386-397 | with zero-word reads the words granted are bounded if and only if there is at most one thread or the limit is zero |
| `Arena.Limiter.CanRead` | c++/src/capnp/arena.h:386-397 | without interference: granted if and only if within the limit, charged exactly when granted; agrees with the two steps of the interleaved model |
| `Arena.CheckOffset` | c++/src/capnp/arena.h:406-414 | the target if it lies in the segment or at its end, else the end |
| `Arena.CheckObject` | c++/src/capnp/arena.h:416-425 | true if and only if the object is inside the segment and within the limit, in 32-bit arithmetic that cannot wrap; charged exactly then |
| `Arena.CheckTarget` | c++/src/capnp/arena.h:406-425 | any base and signed offset: success implies the object is inside; for a non-empty object within the budget it is equivalent to the unclamped range being in bounds; failure charges nothing |
| `Arena.Traverse` | c++/src/capnp/arena.h:406-429 | over any requests to any number of segments sharing a limiter, a request is granted if and only if it is in bounds and what was granted before leaves enough of the limit; words granted plus words left equal the initial limit |
| `Arena.SegmentBuilder.Allocate` | c++/src/capnp/arena.h:463-473 | succeeds if and only if there is room, and returns the words at the old allocation point |
| `Arena.SegmentBuilder.TryTruncate` | c++/src/capnp/arena.h:499-501 | moves the allocation point back only for the last block |
| `Arena.SegmentBuilder.TryExtend` | c++/src/capnp/arena.h:503-511 | succeeds if and only if the block is last and the new end is in the segment |
| `Arena.SegmentBuilder.Reset` | c++/src/capnp/arena.h:493-497 | zeroes exactly what was allocated |
| `Arena.TruncateKeepsApart` | c++/src/capnp/arena.h:499-501 | out-of-order truncation, with empty blocks anywhere, keeps blocks disjoint and below the allocation point |
| `Arena.ExtendKeepsApart` | c++/src/capnp/arena.h:503-511 | so does extension in place |
| `Arena.OthersSeeTheSame` | c++/src/capnp/arena.h:463-511 | a write inside one block changes the contents of no other |
| `Arena.StepsStep` | c++/src/capnp/arena.h:463-511 | every call that may be made takes effect, in order |
| `Arena.StepWords` | c++/src/capnp/arena.h:463-511 | a call changes the word it stores into and no other word that stays; words that appear are zero |
| `Arena.WordsAreLastStores` | c++/src/capnp/arena.h:463-511 | over every run, a word of an object holds the last value stored in it since it is there |
| `Arena.NewWordsAreZero` | c++/src/capnp/message.h:205-207 | a word that appears, by allocation or extension, is zero |
| `Arena.Message.NewBlock` | c++/src/capnp/arena.h:463-473 | a block at the old allocation point, all zeroes; no word of the segment changes |
| `Arena.Message.ShrinkBlock` | c++/src/capnp/layout.c++:3734-3744 | exactly the words given up become zero; every other word of the segment, the kept prefix included, is unchanged |
| `Arena.Message.GrowBlock` | c++/src/capnp/arena.h:503-511 | the block grows by words that are zero; no word of the segment changes |
| `Arena.Message.StoreWord` | c++/src/capnp/arena.h:463-511 | one word of the segment changes, at the index within the object |
| `Arena.Message.Run` | c++/src/capnp/arena.h:463-511 | over every run: blocks disjoint and inside the segment, words beyond the allocation point zero, and the contents of all objects as if each had memory of its own |
| `Arena.Message.Recycle` | c++/src/capnp/message.h:408-409 | after any run, reset leaves the whole segment zero |
| `Packing.DecodeLength` | c++/src/capnp/serialize-packed.c++:34-183 | unpacking yields as many words as asked for |
| `Packing.DecodeSplit` | c++/src/capnp/serialize-packed.c++:34-183 | reading a words and then b words is reading a + b words, whenever the first read ends between blocks |
| `Packing.TagBit` | c++/src/capnp/serialize-packed.c++:332-350 | bit i of the tag is set if and only if byte i of the word is not zero |
| `Packing.ExpandNonZero` | c++/src/capnp/serialize-packed.c++:332-350 | the tag and the non-zero bytes rebuild the word |
| `Packing.RoundTrip` | c++/src/capnp/serialize-packed.c++:307-431 | unpacking what was packed gives the words back and leaves what follows it in the stream, for all inputs |
| `Packing.ZerosPack` | doc/encoding.md:314-320 | up to 256 zero words pack into a zero tag and the number of additional words |
| `Packing.PlainPack` | doc/encoding.md:322-329 | up to 256 words without zero bytes pack into a tag of 255, the first word, the number of additional words, and those |
| `Packing.DocumentedExample` | doc/encoding.md:307-311 | the documented example, byte for byte |
| `PackingSize.OverheadBound` | c++/src/capnp/serialize-packed.c++:376-426 | the packed size exceeds the unpacked size by at most 2 bytes per 256 words plus one byte per word with exactly two zero bytes |
| `PackingSize.AlternateSize` | c++/src/capnp/serialize-packed.c++:383-384 | a zero-free word followed by a two-zero word, k times, packs into 17k bytes |
| `PackingSize.DocumentedOverheadFails` | doc/encoding.md:328-329 | from three such pairs on the documented bound is exceeded |
| `PackingSize.DocumentedOverheadExample` | doc/encoding.md:328-329 | six given words, 48 bytes, pack into 51 where at most 50 are allowed |
| `PackingSize.DocumentedOverheadExactly` | doc/encoding.md:328-329 | the documented bound holds for all messages over a vocabulary if and only if it has no zero-free word or no word with exactly two zero bytes |
| `PackingSize.ComputeUnpackedSize` | c++/src/capnp/serialize-packed.c++:482-508 | the scan over the tags computes the size defined block by block |
| `PackingSize.SizeOfIs` | c++/src/capnp/serialize-packed.c++:482-508 | the result is n if and only if the data unpacks to n words or is one byte short of an ordinary last block of n words |
| `PackingSize.SizeOfPacked` | c++/src/capnp/serialize-packed.c++:482-508 | on the encoder's own output it is the size of the input |
| `PackingSize.AcceptsTruncatedData` | c++/src/capnp/serialize-packed.c++:491 | a concrete input that is accepted although it unpacks to nothing |
| `PackedStreams.BufferedInput.TryGetReadBuffer` | c++/src/kj/io.h:99-105 | the interface that is assumed of an input stream: any positive amount becomes available, none only at the end; `InputWrapper` meets it |
| `PackedStreams.BufferedInput.Skip` | c++/src/kj/io.h:64-66 | assumed: passes over exactly the bytes asked for, if there are as many |
| `PackedStreams.BufferedInput.Read` | c++/src/kj/io.h:61-62 | assumed: delivers exactly the bytes asked for, if there are as many |
| `BufferedStreams.RawInput.Skip` | c++/src/kj/io.c++:61-68 | the default skip through a scratch buffer passes over exactly the bytes asked for, or fails if there are fewer |
| `BufferedStreams.InputWrapper.TryGetReadBuffer` | c++/src/kj/io.c++:129-136 | refills an empty buffer from a stream that may read short; keeps the unread bytes; empty only at the end |
| `BufferedStreams.InputWrapper.TryRead` | c++/src/kj/io.c++:138-167 | from the buffer, through a refill, or past it: delivers the next bytes and keeps the rest, at least the minimum unless the stream ends |
| `BufferedStreams.InputWrapper.Refill` | c++/src/kj/io.c++:154-160 | what a buffer-full holds beyond the read stays available |
| `BufferedStreams.InputWrapper.Skip` | c++/src/kj/io.c++:169-184 | slice, refill or forward: the contract assumed of an input stream |
| `BufferedStreams.InputWrapper.Read` | c++/src/kj/io.c++:51-59 | exactly the bytes asked for, or a failure if there are fewer |
| `BufferedStreams.OutputWrapper.Write` | c++/src/kj/io.c++:211-239 | appends the bytes in every case, also those that the caller has put into the buffer itself |
| `BufferedStreams.OutputWrapper.Flush` | c++/src/kj/io.c++:200-205 | hands everything written on to the inner stream |
| `PackedStreams.Refresh` | c++/src/capnp/serialize-packed.c++:54-60 | gives up the buffer; fails only at the end of the stream |
| `PackedBlocks.BlockDecodes` | c++/src/capnp/serialize-packed.c++:65-177 | unpacking is the first block followed by unpacking of the rest, and fails where there is no block |
| `PackedBlocks.FurthestDecodes` | c++/src/capnp/serialize-packed.c++:65-177 | block-by-block reading gets all the words if and only if unpacking succeeds |
| `PackedBlocks.UnpackedPrefix` | c++/src/capnp/serialize-packed.c++:65-177 | every read that ends between blocks delivers a prefix of the same bytes |
| `PackedBlocks.ReturnsAtTheEnd` | c++/src/capnp/serialize-packed.c++:71-76 | a buffer that ends where the read can go no further lets it return |
| `PackedBlocks.FailsInOneBuffer` | c++/src/capnp/serialize-packed.c++:123-143 | with everything in one buffer, a bad block of ten bytes makes the read fail although it has its minimum |
| `PackedBlocks.FailsBeforePlainWords` | c++/src/capnp/serialize-packed.c++:151-165 | a buffer that ends before the plain words of the last block makes a read that wants more fail |
| `PackedBlocks.CutDecides` | c++/src/capnp/serialize-packed.c++:34-183 | a read that is neither settled nor hopeless returns with one first buffer and fails with another |
| `PackedBlocks.PlainRunAtTheEnd` | c++/src/capnp/serialize-packed.c++:151-165 | inputs whose outcome the cut decides: a stream that ends in a run of one plain word |
| `PackedBlocks.BadBlockInBuffer` | c++/src/capnp/serialize-packed.c++:135-143 | inputs whose outcome the cut decides: a word followed by a block that announces more than there is |
| `PackedBlocks.CertainOn` | c++/src/capnp/serialize-packed.c++:34-183 | a read that is certain to get its words stays certain after any part of it was read |
| `PackedStreams.SlowWord` | c++/src/capnp/serialize-packed.c++:86-97 | a word whose bytes may be spread over any number of buffers is decoded as specified, or fails exactly when the stream is too short |
| `PackedStreams.FastWord` | c++/src/capnp/serialize-packed.c++:103-120 | the path without bounds checks decodes the same word and leaves a non-empty buffer |
| `PackedStreams.ReadRun` | c++/src/capnp/serialize-packed.c++:123-171 | the run after a special tag, across buffer boundaries: fails as unpacking does, and for a complete run exactly when it overruns the buffer, ends the stream and leaves room for more |
| `PackedStreams.ReadLongRun` | c++/src/capnp/serialize-packed.c++:151-169 | one big read, then the next buffer is asked for even at the end of the stream |
| `PackedStreams.ReadHeader` | c++/src/capnp/serialize-packed.c++:66-121 | first word of a block, slow or fast, with the run count in the buffer after a special tag |
| `PackedStreams.ReadBlock` | c++/src/capnp/serialize-packed.c++:65-177 | one turn of the loop reads one block, or fails for a reason that is spelled out |
| `PackedStreams.TryRead` | c++/src/capnp/serialize-packed.c++:34-183 | for every way the input is cut into buffers the words read are what the stream unpacks to and the stream is left right after them; at least the minimum is read unless the stream is empty; an error is the error of unpacking; settled reads return, hopeless ones fail, and the first buffer decides as `FirstBuffer` says |
| `PackedStreams.CutMatters` | c++/src/capnp/serialize-packed.c++:34-183 | the same stream, read twice with different first buffers: once words, once an error |
| `PackedStreams.SkipBlock` | c++/src/capnp/serialize-packed.c++:203-296 | one turn of the loop passes over one block |
| `PackedStreams.Skip` | c++/src/capnp/serialize-packed.c++:185-299 | leaves the stream exactly where reading as many words would, and fails exactly as that would |
| `PackedStreams.CountZeroWords` | c++/src/capnp/serialize-packed.c++:358-371 | the longest run of zero words, at most 255 |
| `PackedStreams.CountDenseWords` | c++/src/capnp/serialize-packed.c++:385-412 | the longest run of words with at most one zero byte, at most 255 |
| `PackedStreams.WriteWord` | c++/src/capnp/serialize-packed.c++:330-350 | tag and non-zero bytes, with room for a byte that is not kept |
| `PackedStreams.WriteBlock` | c++/src/capnp/serialize-packed.c++:316-427 | one turn of the loop emits one block, switching to a fresh buffer when fewer than ten bytes are left |
| `PackedStreams.Write` | c++/src/capnp/serialize-packed.c++:307-431 | for every choice of output buffers, exactly the packed form is written |
| `PackedMessage.BodyDecodes` | c++/src/capnp/serialize.c++:332-357 | segments packed one by one unpack as one stream |
| `PackedMessage.TableDecodes` | c++/src/capnp/serialize.c++:332-357 | the packed form starts with the segment table, padded to whole words |
| `PackedMessage.FirstWordAlone` | c++/src/capnp/serialize.c++:205-210 | the first word of the table can be read by itself: no packed run crosses its end, for up to 65536 segments |
| `PackedMessage.HeadOf` | c++/src/capnp/serialize.c++:205-230 | segment count and sizes of any stream; a head has between 1 and 511 segments |
| `PackedMessage.HeadOfMessage` | c++/src/capnp/serialize.c++:205-230 | a message that was written says its own sizes if it has at most 511 segments, and has no head otherwise |
| `PackedMessage.SegmentInMessage` | c++/src/capnp/serialize.c++:251-262 | in a message that was written every segment is the one written |
| `PackedMessage.BuildTable` | c++/src/capnp/serialize.c++:335-347 | the table filled in entry by entry: count minus one, sizes, padding, little-endian |
| `PackedMessage.TableLayout` | c++/src/capnp/serialize.c++:335-347 | the segment table as 32-bit numbers: segments less one, sizes, zero padding |
| `PackedMessage.WriteMessage` | c++/src/capnp/serialize-packed.c++:460-464 | writes the packed form of the message |
| `PackedMessage.Read` | c++/src/kj/io.c++:51-59 | at least the minimum, or an error; never an error for a read that is certain |
| `PackedMessage.ReadTable` | c++/src/capnp/serialize.c++:205-230 | for any bytes: the table, or exactly the error that the bytes deserve |
| `PackedMessage.ReadSizes` | c++/src/capnp/serialize.c++:223-230 | sizes and total of any table |
| `PackedMessage.Open` | c++/src/capnp/serialize.c++:202-270 | for any bytes: the error of the table, too large, or a reader of at most 511 segments within the traversal limit; fails if the stream lacks the first segment, and only if the message is not all there and the first segment is not certain to be read |
| `PackedMessage.Reader.Load` | c++/src/capnp/serialize.c++:288-299 | for any stream: lazy reading holds a prefix of what the stream unpacks to and never reads into what follows the message; fails if the stream does not reach far enough, and only with the error of unpacking and if the read is not certain |
| `PackedMessage.Reader.GetSegment` | c++/src/capnp/serialize.c++:283-302 | for any stream, in whatever order segments are asked for: the segment as the stream has it, or the error of unpacking; certainly an error if the stream does not reach the segment, certainly the segment if the words up to its end are certain, whatever is wrong after it |
| `PackedMessage.Reader.Close` | c++/src/capnp/serialize.c++:272-281 | the destructor leaves the stream right after the message, or fails with the error of unpacking it |
| `PackedMessage.Ask` | c++/src/capnp/serialize.c++:283-302 | on a message that was written every answer is the segment written |
| `PackedMessage.SendAndReceive` | c++/src/capnp/serialize-packed.c++:437-464 | end to end between hosts of either byte order, with any buffers and any order of access; what follows the message is left |
| `WireValue.SwapIsByteSwap` | c++/src/capnp/endian.h:104-173 | the shift-and-OR swap of two bytes is a byte swap like the builtins |
| `WireValue.SwappedLayout` | c++/src/capnp/endian.h:104-173 | swapping before a big-endian store leaves the little-endian bytes |
| `WireValue.SwappedRead` | c++/src/capnp/endian.h:104-173 | swapping after a big-endian load gives the little-endian number |
| `WireValue.ShiftByteIs` | c++/src/capnp/endian.h:197-293 | byte i of the little-endian form is the value shifted right by 8i, truncated |
| `WireValue.ShiftIn` | c++/src/capnp/endian.h:197-293 | ORing in a shifted byte extends the number read so far |
| `WireValue.Set` | c++/src/capnp/endian.h:74-293 | all three forms store the same little-endian bytes, and nothing else |
| `WireValue.Get` | c++/src/capnp/endian.h:74-293 | all three forms load the little-endian number |
| `WireValue.StoreThenLoad` | c++/src/capnp/endian.h:74-293 | a value stored by one form on one host is loaded by any form on any host |
| `StructLayout.SetFieldBits` | c++/src/capnp/layout.h:1032-1065 | a masked write of any width changes exactly the bits of its field, to the value XOR the mask |
| `StructLayout.GetFieldBits` | c++/src/capnp/layout.h:1009-1030 | a read returns exactly those bits XOR the mask |
| `StructLayout.GetAfterSet` | c++/src/capnp/layout.h:253-307 | reading with the mask used for writing returns the value |
| `StructLayout.SetElsewhere` | c++/src/capnp/layout.h:1009-1065 | fields without a common bit do not affect each other, for every mix of widths |
| `StructLayout.MissingFieldIsDefault` | c++/src/capnp/layout.h:1096-1125 | a field past the end of the section reads as its default |
| `StructLayout.ContainedFieldSame` | c++/src/capnp/layout.h:1096-1125 | a field inside reads the same from every zero-extension |
| `StructLayout.VersionToleranceExactly` | c++/src/capnp/layout.h:1096-1125 | a section and its zero-extension read alike if and only if the field is wholly inside or none of its bits that are inside is set |
| `StructLayout.VersionTolerance` | c++/src/capnp/layout.h:1096-1125 | always, when the width divides the size of the section |
| `StructLayout.StructBuilder.SetDataField` | c++/src/capnp/layout.h:1032-1065 | the write in place is the field update on the bytes |
| `StructLayout.StructBuilder.SetPointerField` | c++/src/capnp/layout.h:1067-1071 | sets one pointer |
| `ListLayout.AddressFits` | c++/src/capnp/layout.h:1143-1144 | index times step stays below 2^52, so the 64-bit product never wraps |
| `ListLayout.ElementWhere` | c++/src/capnp/layout.h:1143-1171 | element addresses: a step apart from the start, bits of bit lists next to each other |
| `ListLayout.ElementsApart` | c++/src/capnp/layout.h:1168-1172 | different elements share no bit |
| `ListLayout.SetElementBits` | c++/src/capnp/layout.h:1168-1194 | an element write changes exactly the bits of the element |
| `ListLayout.GetElementBits` | c++/src/capnp/layout.h:1141-1161 | an element read returns exactly the bits of the element |
| `ListLayout.ElementWritten` | c++/src/capnp/layout.h:1141-1194 | an element reads as last written, the others as before |
| `ListLayout.SetElementUpdates` | c++/src/capnp/layout.h:1141-1194 | a list is a plain sequence and a write updates one index, for any step and for bit lists, which ignore it |
| `ListLayout.ListBuilder.GetDataElement` | c++/src/capnp/layout.h:1141-1161 | the element of the sequence |
| `ListLayout.ListBuilder.SetDataElement` | c++/src/capnp/layout.h:1168-1194 | updates the sequence in place; no bit outside the element changes, so the rest of a struct element is kept |
| `ListLayout.ListBuilder.Run` | c++/src/capnp/layout.h:1139-1197 | over any run of writes each index holds the last value written to it |
| `ListLayout.UpgradedElement` | c++/src/capnp/layout.c++:3096-3103 | an element of a struct list read as a number is field 0 of the struct |
| `ListLayout.PointerSectionAsList` | c++/src/capnp/layout.h:993-997 | the pointer section viewed as a list names the same words as getPointerField, for builders and readers |
| `ListLayout.PointerElementIs` | c++/src/capnp/layout.h:1228-1235 | an element read as a pointer is the first pointer of the struct, behind its data |
| `Orphan.StepConserves` | c++/src/capnp/layout.h:1239-1265 | every move, self-assignment, destructor, adoption, disowning and clearing keeps, for each object, times made = times zeroed + owners |
| `Orphan.StepsStep` | c++/src/capnp/layout.h:1239-1265 | every possible call takes effect, in order |
| `Orphan.StepsConserve` | c++/src/capnp/layout.h:846-851 | so does every sequence of them |
| `Orphan.MadeIs` | c++/src/capnp/layout.h:846-851 | what was made is what the calls made |
| `Orphan.OwnedOnce` | c++/src/capnp/layout.h:1239-1265 | then no object has two owners, none is zeroed twice, and none that is zeroed is still owned |
| `Orphan.OrphanBuilder.Moved` | c++/src/capnp/layout.h:1239-1244 | the new builder holds what the old one held, which now holds nothing, although its tag remains |
| `Orphan.OrphanBuilder.Euthanize` | c++/src/capnp/layout.c++:3877-3895 | zeroes out what is held and holds nothing |
| `Orphan.OrphanBuilder.Destroy` | c++/src/capnp/layout.h:1246-1248 | zeroes out what is held, if anything |
| `Orphan.OrphanBuilder.Assign` | c++/src/capnp/layout.h:1250-1265 | drops what was held and takes over what the other held; assigned to itself, holds nothing |
| `Orphan.Program.Clear` | c++/src/capnp/layout.c++:2639-2642 | the pointer is null and its object zeroed; all else unchanged |
| `Orphan.Program.Destroy` | c++/src/capnp/layout.h:1246-1248 | the builder is gone and what it held is zeroed; all else unchanged |
| `Orphan.Program.MoveAssign` | c++/src/capnp/layout.h:1250-1265 | zeroes what was held and takes over, self-assignment included; all else unchanged |
| `Orphan.Program.MoveConstruct` | c++/src/capnp/layout.h:1239-1244 | a new builder takes over what one held, which now holds nothing; all else unchanged |
| `Orphan.Program.Make` | c++/src/capnp/layout.h:942-946 | a builder that holds the object; all else unchanged |
| `Orphan.Program.New` | c++/src/capnp/layout.h:846-848 | a builder that holds nothing; all else unchanged |
| `Orphan.Program.Adopt` | c++/src/capnp/layout.c++:2116-2139 | the pointer's object is zeroed and the pointer takes over what the builder held, which then holds nothing; an object of another message is refused and nothing changes |
| `Orphan.Program.Disown` | c++/src/capnp/layout.c++:2141-2165 | a new builder holds what the pointer held, a capability with its dummy location, nothing for a null pointer; the pointer is null and nothing is zeroed |
| `Orphan.Program.DisownAndAdopt` | c++/src/capnp/layout.c++:2116-2165 | taking an object out and putting it back restores the pointers and zeroes nothing |
| `Orphan.Program.Run` | c++/src/capnp/layout.h:1239-1265 | builders updated in place, aliasing included, follow the model by value over every sequence of calls |
| `Orphan.Program.Finish` | c++/src/capnp/layout.h:1246-1248 | once all builders are destroyed and pointers cleared, each object was zeroed as often as it was made |
| `Orphan.Lifetime` | c++/src/capnp/layout.h:1239-1265 | from the first call to the last destructor each object is zeroed as often as the calls made it |
| `RecordLayout.ObserveTolerance` | c++/src/capnp/layout.h:1096-1135 | whole words of zero data and null pointers added or missing change nothing that a reader of the struct observes |
| `RecordLayout.ObserveNothing` | c++/src/capnp/layout.h:1096-1135 | a zeroed struct, and one that is not there at all, read as all defaults |
| `RecordLayout.StoreRefines` | c++/src/capnp/layout.h:1032-1065 | a store into one field of a struct changes that field of the record only |
| `RecordLayout.LastWriteWins` | c++/src/capnp/rpc.capnp.h:3560-4150 | each field and pointer holds the last value stored, or its default |
| `RecordLayout.Perform` | c++/src/capnp/rpc.capnp.h:3560-4150 | the stores of a builder call, in place, are updates of the record |
| `RecordLayout.Build` | c++/src/capnp/rpc.capnp.h:3560-5121 | any sequence of builder calls on a zeroed struct leaves exactly the record that the calls describe, and each field as last stored or at its default |
| `RpcMessages.CallRefines` | c++/src/capnp/rpc.capnp.h:3560-3834 | `Call`: all scalars, flags, pointers and the sendResultsTo union refine a record; zeroed is all defaults |
| `RpcMessages.ReturnRefines` | c++/src/capnp/rpc.capnp.h:3836-4108 | `Return`: six union members over one pointer and one id; releaseParamCaps defaults to true |
| `RpcMessages.FinishRefines` | c++/src/capnp/rpc.capnp.h:4110-4150 | `Finish`: both flags default to true |
| `RpcMessages.DisembargoRefines` | c++/src/capnp/rpc.capnp.h:4311-4480 | `Disembargo`: the context union, two members of which share the id |
| `RpcMessages.MessageTargetRefines` | c++/src/capnp/rpc.capnp.h:4742-4829 | `MessageTarget` is its union |
| `RpcMessages.CapDescriptorRefines` | c++/src/capnp/rpc.capnp.h:4888-5121 | `CapDescriptor`: six union members over one id and one pointer; attachedFd defaults to 255 |
| `RpcMessages.CallStepRefines` | c++/src/capnp/rpc.capnp.h:3560-3834 | each setter, init and disown of `Call` does to the words what it does to the record |
| `RpcMessages.ReturnStepRefines` | c++/src/capnp/rpc.capnp.h:3836-4108 | the same for `Return` |
| `RpcMessages.FinishStepRefines` | c++/src/capnp/rpc.capnp.h:4110-4150 | the same for `Finish` |
| `RpcMessages.DisembargoStepRefines` | c++/src/capnp/rpc.capnp.h:4311-4480 | the same for `Disembargo` |
| `RpcMessages.MessageTargetStepRefines` | c++/src/capnp/rpc.capnp.h:4742-4829 | the same for `MessageTarget` |
| `RpcMessages.CapDescriptorStepRefines` | c++/src/capnp/rpc.capnp.h:4888-5121 | the same for `CapDescriptor` |
| `RpcMessages.BuildCall` | c++/src/capnp/rpc.capnp.h:3560-3834 | the bytes of a `Call` after any sequence of builder calls: each field at its width, offset and mask, the discriminant as a number and each pointer slot are as the last call that concerns them says, or at the default; they represent the record |
| `RpcMessages.BuildReturn` | c++/src/capnp/rpc.capnp.h:3836-4108 | the bytes of a `Return` after any sequence of builder calls: each field at its width, offset and mask, the discriminant as a number and each pointer slot are as the last call that concerns them says, or at the default; they represent the record |
| `RpcMessages.BuildFinish` | c++/src/capnp/rpc.capnp.h:4110-4150 | the bytes of a `Finish` after any sequence of builder calls: each field at its width, offset and mask, the discriminant as a number and each pointer slot are as the last call that concerns them says, or at the default; they represent the record |
| `RpcMessages.BuildDisembargo` | c++/src/capnp/rpc.capnp.h:4311-4480 | the bytes of a `Disembargo` after any sequence of builder calls: each field at its width, offset and mask, the discriminant as a number and each pointer slot are as the last call that concerns them says, or at the default; they represent the record |
| `RpcMessages.BuildMessageTarget` | c++/src/capnp/rpc.capnp.h:4742-4829 | the bytes of a `MessageTarget` after any sequence of builder calls: each field at its width, offset and mask, the discriminant as a number and each pointer slot are as the last call that concerns them says, or at the default; they represent the record |
| `RpcMessages.BuildCapDescriptor` | c++/src/capnp/rpc.capnp.h:4888-5121 | the bytes of a `CapDescriptor` after any sequence of builder calls: each field at its width, offset and mask, the discriminant as a number and each pointer slot are as the last call that concerns them says, or at the default; they represent the record |
| `ProducerConsumerQueue.StepKeepsInv` | c++/src/benchmark/common.h:113-125 | whichever thread takes its next field access, nothing faults and the invariant stays |
| `ProducerConsumerQueue.RunKeepsInv` | c++/src/benchmark/common.h:95-139 | so it is in every interleaving |
| `ProducerConsumerQueue.PostedIs` | c++/src/benchmark/common.h:113-117 | what was posted is what the calls of post were given, in order |
| `ProducerConsumerQueue.InvMeans` | c++/src/benchmark/common.h:119-125 | the invariant means: received a prefix of what was posted, each node before the front deleted once, none still live deleted, and the consumer waits only when nothing is there |
| `ProducerConsumerQueue.QueueSafe` | c++/src/benchmark/common.h:95-139 | for every interleaving: no fault, received exactly a prefix of what the calls of post were given, each node before the front deleted once, no wake-up lost |
| `ProducerConsumerQueue.WorkStep` | c++/src/benchmark/common.h:113-125 | every step but a new post does one unit of the work left |
| `ProducerConsumerQueue.NoDeadlock` | c++/src/benchmark/common.h:113-125 | as long as work is left some thread can take a step |
| `ProducerConsumerQueue.Delivery` | c++/src/benchmark/common.h:95-139 | once nothing new is posted every schedule goes on until everything that the calls of post were given was received, after the same number of steps, and no longer |
| `ProducerConsumerQueue.AccessWrites` | c++/src/benchmark/common.h:113-125 | a step changes no node but the one it is said to write |
| `ProducerConsumerQueue.AccessReads` | c++/src/benchmark/common.h:113-125 | a step depends on no part of a node but the one it is said to access |
| `ProducerConsumerQueue.RaceFree` | c++/src/benchmark/common.h:113-125 | in every reachable state the steps the two threads can take next never conflict on a field of a node |
| `ProducerConsumerQueue.Destroy` | c++/src/benchmark/common.h:104-111 | frees every remaining node; all nodes ever allocated are then freed exactly once |
| `FastRand.StepIsBijective` | c++/src/benchmark/common.h:47-61 | the step has a two-sided inverse |
| `FastRand.RunsNeverMeet` | c++/src/benchmark/common.h:47-61 | different states stay different |
| `FastRand.ZeroOnlyFromZero` | c++/src/benchmark/common.h:49 | the all-zero state is reached if and only if it was the seed |
| `FastRand.Generator.NextFastRand` | c++/src/benchmark/common.h:48-61 | one step in place: three words move up and the fourth is the xorshift expression of the source, spelled out; never gets stuck at zero |
| `FastRand.Shr19Is` | c++/src/benchmark/common.h:55-59 | the named operation is the C++ operator: shift right by 19 |
| `FastRand.Shr8Is` | c++/src/benchmark/common.h:55-59 | the named operation is the C++ operator: shift right by 8 |
| `FastRand.Shl11Is` | c++/src/benchmark/common.h:55-59 | the named operation is the C++ operator: shift left by 11 |
| `FastRand.XorIs` | c++/src/benchmark/common.h:55-59 | the named operation is the C++ operator: exclusive or |
| `PipeIo.WriteAll` | c++/src/benchmark/common.h:155-165 | completes when no call fails, having written the buffer in order; on failure exactly a prefix |
| `PipeIo.ReadAll` | c++/src/benchmark/common.h:167-177 | completes when no call fails and enough was written, having taken exactly the next bytes; on failure exactly a prefix |
| `PipeIo.SendAndReceive` | c++/src/benchmark/common.h:155-177 | whatever the positive counts, what arrives is what was sent, and while no call fails it arrives |
| `PipeIo.Interleaved` | c++/src/benchmark/common.h:155-177 | the same with writer and reader running at once |
| `MegaTest.ParseComplete` | mega-test.py:31 | whenever the regular expression matches, the parser finds the match, with greedy groups |
| `MegaTest.ParseSound` | mega-test.py:31 | what the parser returns is a match of the regular expression |
| `MegaTest.IntOfDecimal` | mega-test.py:98-105 | reading a printed number gives it back |
| `MegaTest.LinesMeans` | mega-test.py:98 | the lines joined are the file; a newline ends each but perhaps the last |
| `MegaTest.ParseLinesMeans` | mega-test.py:98-105 | the tests are what the lines that are not comments parse to, in order; else the first that does not parse is reported |
| `MegaTest.ReadConfig` | mega-test.py:98-105 | the loop over the lines: comments left out, the first bad line reported |
| `MegaTest.WriteConfig` | mega-test.py:133-138 | the rewritten file, with observed counts exactly for passing tests |
| `MegaTest.Columns` | mega-test.py:136 | the widths of a formatted line, spelled out |
| `MegaTest.DecimalExample` | mega-test.py:136 | a printed number |
| `MegaTest.LineRoundTrip` | mega-test.py:133-138 | a formatted line parses back to the test |
| `MegaTest.FileRoundTrip` | mega-test.py:98-138 | a file written from storable tests reads back as those tests, in order |
| `MegaTest.ParsedAreStorable` | mega-test.py:98-105 | every test the parser can produce is storable |
| `MegaTest.RewriteRoundTrip` | mega-test.py:98-138 | whatever file was read and however the tests went, the rewritten file reads back with the same names and commands in the same order, observed counts for exactly the passing tests and the old ones for the others |
| `MegaTest.StorableExactly` | mega-test.py:133-138 | a test survives being written if and only if it is storable |
| `MegaTest.SilentTestBreaksNextRun` | mega-test.py:76-77 | the next run can print its bars if and only if every passing test printed a line |
| `MegaTest.NewlinesAreLines` | mega-test.py:69 | newlines counted are lines |
| `MegaTest.Update` | mega-test.py:60-74 | reads exactly what is available, counts its newlines, and is done if and only if the end is shown with everything read |
| `MegaTest.Handle` | mega-test.py:126-129 | one event updates its test and unregisters it when done |
| `MegaTest.PollLoop` | mega-test.py:117-131 | each test is credited with exactly the lines made available to it and is done if and only if its end was shown after all its output; active_count is the number of unfinished tests and zero if and only if all ended |

## Left out

- The RPC runtime, capability hooks, membranes, reconnection and flow control: a protocol of its own.
- Far pointers, deep copies, canonicalization and the contents behind pointers: a pointer is null or names an opaque object.
- `BuilderArena::allocate`, read-only external segments and segments without storage: only writable segments with storage are modelled.
- `ReadLimiter::unread` and `ReadLimiter::reset`: both raise the limit, so neither the bound nor conservation is meant to survive them.
- Orphan.OrphanBuilder.Euthanize: zeroing an object, with everything below it, is one event that cannot fail.
- Orphan.Program.Adopt: the pointer that is written, relative to its position or through a far pointer, is represented by the object it names.
- Orphan.Program.Disown: far pointers are represented by the object they lead to.
- The memory order of the relaxed accesses to the limit: they concern one location, for which loads and stores in some single order are what C++ promises.
- NaN canonicalization and floating-point arithmetic: a float is its raw bits, as with the option switched off.
- `Void` and text elements of lists: nothing is stored for the former, the latter are byte lists.
- Builder getters that allocate a default object behind a null pointer: the pointer they leave behind is covered by the setters.
- Continuing after an error with exceptions disabled: an operation that fails ends with the error.
- The contents of the output buffer after a failed read, and of the stream after a failed skip.
- Reads of packed data whose sizes are not whole words: the original requires word alignment.
- Unpacked framing, asynchronous framing and flat arrays: packed streams use the same segment table.
- Failing `fcntl`, `poll` and process handling of the test driver; the terminal output beyond its division.
- Schemas, the dynamic API, text formats, the compiler, the other benchmark drivers and the documentation site: type dispatch, tables or I/O.
