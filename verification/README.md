# A model of lavatube's capture and replay core

lavatube records the Vulkan calls of an application to one compressed stream per thread and replays them on another
device. Its two sides are written separately and have to agree over every run. This project models the places where
they meet, in Dafny, and proves what has to hold there:

- **The trace stream.** `TraceFile` is the form of the file, `WriterPipeline` the writer as a step system of three
  threads, `FileWriter` the writer as an object with pointers into its chunks, each method tied to a step.
  `ReaderProtocol` is the replaying thread with the decompressor that runs ahead of it, `FileReader` the reader as an
  object. `RecordAndReplay` joins them: what one side recorded, patches included, is what the other side reads.
- **Memory updates.** `PatchCodec` is the delta encoding and its round trip, `PatchWriter` the loops that produce it.
- **Containers.** `Handles` has the handle maps of both sides and the simulation between them, `AddressRemapper` the
  interval lookup of addresses, `HostWriteRegions` the record of which packet wrote which byte, against a plain map.
- **Replay fixups.** `MarkedAddresses`, `DescriptorRewrites` and `GroupHandles` exchange the capture form of an
  address, a descriptor or a shader group handle for the replay form and back, `MarkedChecksum` is the checksum over
  spliced spans, and `MarkedBuffers` puts them together for a whole buffer of marks. `PendingSubmissions` is the
  bookkeeping of command buffers and fences against what the device has in flight, `ScratchLayout` the memory for
  acceleration structure builds.
- **Recognition.** `AddressTiling` puts an address together from pieces and marks where the host wrote it,
  `DescriptorArray` finds the slots of a descriptor array.
- **Import.** `ImportBarriers` keeps threadless work apart from application threads.
- **pNext chains.** `PNextCodec` is the generated codec.

`Bytes` and `Sorting` hold what they share. A specification is stated on values: a step system with its invariant, an interval or
byte-by-byte specification, a recursive function. Where the program changes objects in place there is a class whose
methods are proved to do what the specification says, and the lemmas are about the specification.

Integers are unbounded; 32-bit and 64-bit limits appear where the code relies on them. Atomics are sequentially
consistent and a section under a mutex is one step.

Where the code and what it says about itself differ, the model follows the code:

- the assert at `src/filereader.h:36` rejects reads that are legal: a wait can trip it exactly when the last chunk that
  ends before the bytes asked for ends less than their size before the end of the stream
  (`ReaderProtocol.WaitTripsExactly`, `ReaderProtocol.LegalReadTrips`);
- a memory span with offset 0 and size 0 is its own terminator (`PatchCodec.MemorySpanReadsBack`);
- `write_patch` counts a gap, a run and a run with its header in 32 bits, so a patch restores its buffer exactly when
  every gap has less than 2^32 bytes and every run less than 2^32 - 8 (`PatchCodec.PatchRoundTrip`,
  `PatchCodec.FarChangeIsLost`, `PatchCodec.LongRunIsLost`);
- with compression off the stored length of a frame counts its header (`TraceFile.RawCodecIsLawful`);
- `unset` leaves a dead handle pointing at index 0 (`Handles.ReverseLookup`);
- the loops over all command buffers start at index 1 (`PendingSubmissions.WaitIdleIsRight`,
  `PendingSubmissions.CleanPoolIsRight`);
- only the last submission of a command buffer is remembered, which is enough exactly when the waits in front of a
  submission include what its buffers have pending on other queues (`PendingSubmissions.RerecordIsSafeExactly`,
  `PendingSubmissions.TwoQueuesAreUnsafe`);
- only the first metacommand of a threadless region gets a barrier, so what an application thread writes inside an open
  region can be overtaken by the next metacommand (`ImportBarriers.MetacommandIsOrderedExactly`);
- an address marked twice passes the checksum but is translated twice: it survives exactly when its replay address is
  translated to itself (`MarkedBuffers.DuplicateMark`, `MarkedBuffers.DuplicateMarkIsLost`);
- a registered object that has no replay address yet holds its captured addresses all the same, and they are translated
  to nothing (`MarkedAddresses.UnaddressedIsLost`);
- a marked address that is zero comes back from the checksum, but the translation asserts that there is none
  (`MarkedBuffers.OnceFoundAndReturned`);
- acceleration structures are never taken out of the reverse search, so one that was destroyed hides a later one at the
  same replay address (`MarkedAddresses.StaleStructureIsFound`); where capture used an address again, the living one is
  preferred (`MarkedAddresses.ReusedCaptureAddress`);
- a string is cut to its length modulo 2^16, and an empty one comes back as null (`PNextCodec.BodyRoundTrip`).

`dafny verify dfyconfig.toml` checks everything.

## Model

| member | source | states |
|---|---|---|
| TraceFile.FrameReadsBack | src/filewriter.cpp:246-302 | the first frame of a file reads back as the chunk it was made from, and the rest of the file is what follows it, for any lawful codec and whatever payload it chose |
| TraceFile.FirstFrameIsPrefix | src/filereader.cpp:191-228 | bytes behind the first frame never change how that frame is read |
| TraceFile.DecodeAppend | src/filereader.cpp:191-228 | appending a frame, with any payload the codec may choose for its chunk, appends exactly the chunk to what the file decodes to |
| TraceFile.RawCodecIsLawful | src/filewriter.cpp:264-300 | switching compression off is still a lawful codec, although the stored length counts the header and every frame ends in 16 bytes of no meaning, whatever they are |
| TraceFile.FrameLayout | src/filewriter.cpp:289-293 | a frame is the size of its payload and that of its chunk in eight bytes each, then the payload |
| Bytes.LaterBytesCountMore | src/filewriter.h:62-71 | numbers are stored with the least significant byte first |
| WriterPipeline.StepIsCorrect | src/filewriter.h:19-60 | every step of the producer, the compressor and the serializer keeps the invariant and changes the stream only as that step promises |
| WriterPipeline.NoByteIsLost | src/filewriter.cpp:212-345 | in every interleaving of the three threads, what is on disk, in flight, queued, held back and in the current chunk together is what was written, in order, and the disk decodes to what was handed to it |
| WriterPipeline.ClosedFileIsComplete | src/filewriter.cpp:146-184 | after finalize both lists are empty, as its asserts demand, and the file alone decodes to everything written |
| WriterPipeline.FinalizeIsNeverStuck | src/filewriter.cpp:146-184 | from the last feed on some thread can always move until the file is closed |
| WriterPipeline.WorkShrinks | src/filewriter.cpp:212-345 | every such step uses up a bounded amount of work, so there is no livelock either |
| WriterPipeline.FinalizeCompletes | src/filewriter.cpp:146-184 | hence every run can be driven to a closed file within that bound |
| WriterPipeline.StoreIsCorrect | src/filewriter.h:142-153 | a store through a pinned pointer changes its own bytes of the stream, no others, and nothing handed to the compressor |
| WriterPipeline.StoreKeepsPositions | src/filewriter.h:142-153 | a store leaves every other live pointer standing for the same place in the stream |
| WriterPipeline.MakeSpaceKeepsPositions | src/filewriter.h:19-55 | filling a chunk while frozen leaves live pointers standing for the same place in the stream |
| WriterPipeline.ThawIsCorrect | src/filewriter.h:210-217 | splicing the held chunks into the work list keeps the stream and its order, and hands over exactly the held ones |
| WriterPipeline.FreezeHoldsBack | src/filewriter.h:207-217 | from a freeze or a pointer given out until the thaw nothing new is handed to the compressor, whatever is written and stored meanwhile |
| WriterPipeline.FeedIsCorrect | src/filewriter.cpp:152-166 | moving the last chunk to the work list keeps the stream |
| WriterPipeline.CompressorStepIsCorrect | src/filewriter.cpp:304-345 | taking, compressing and queueing a chunk keeps the stream, empty chunks included |
| WriterPipeline.FramingIsKept | src/filewriter.cpp:212-345 | the bytes behind the compressor are always whole frames of the chunks that went through it |
| FileWriting.FileWriter.constructor | src/filewriter.cpp:106-110 | a new writer is the initial state of the step system, with no live pointers |
| FileWriting.FileWriter.MakeSpace | src/filewriter.h:19-55 | implements the step that hands over or holds back the filled chunk; live pointers stay live and keep their place |
| FileWriting.FileWriter.CheckSpace | src/filewriter.h:57-60 | makes room for the next write without changing the stream |
| FileWriting.FileWriter.WriteArray | src/filewriter.h:79-93 | appends exactly the given bytes to the stream, across chunk boundaries |
| FileWriting.FileWriter.WriteValueLater | src/filewriter.h:142-153 | appends the value and returns a pointer that stands for its place in the stream |
| FileWriting.FileWriter.Store | src/filewriter.h:142-153 | a store through a live pointer splices its bytes into the stream at the pointer's place and nowhere else, never into what was handed over |
| FileWriting.FileWriter.Freeze | src/filewriter.h:207-207 | keeps the stream; later chunks are held back |
| FileWriting.FileWriter.Thaw | src/filewriter.h:210-217 | keeps the stream and its order and ends the life of every pointer |
| FileWriting.FileWriter.Feed | src/filewriter.cpp:152-166 | implements the first part of finalize |
| FileWriting.FileWriter.Advance | src/filewriter.cpp:168-183 | implements the raising of the flags and the joins, each only when it is due |
| FileWriting.FileWriter.CompressorTake | src/filewriter.cpp:311-319 | takes the oldest chunk off the work list |
| FileWriting.FileWriter.CompressorPush | src/filewriter.cpp:327-337 | queues the frame of the taken chunk, with the payload the library made of it, behind all earlier ones; an empty chunk is dropped |
| FileWriting.FileWriter.SerializerTake | src/filewriter.cpp:219-226 | takes the oldest compressed chunk |
| FileWriting.FileWriter.SerializerWrite | src/filewriter.cpp:234-237 | appends it to the file |
| FileWriting.FileWriter.WorkerExit | src/filewriter.cpp:320-324 | a worker leaves only when its list is empty and nothing more can come |
| PatchCodec.RunsAreMaximal | src/filewriter.cpp:67-98 | the plain block scan yields exactly the maximal runs of differing blocks, the incomplete last block included |
| PatchCodec.DiffFollowsRuns | src/filewriter.cpp:67-98 | the i-th record carries the i-th maximal run, and its distance from the run before |
| PatchCodec.LaterOffsetsArePositive | src/filewriter.cpp:84-97 | every record but the first has a positive relative offset |
| PatchCodec.SizeIsDiffering | src/filewriter.cpp:69-97 | the records together carry as many bytes as lie in differing blocks of eight, no more and no fewer; that is what write_patch returns |
| PatchCodec.RecordReadsBack | src/filewriter.cpp:84-97 | a record is four bytes of offset, four of size, then the changed bytes |
| PatchCodec.ParseEncode | src/filereader.h:96-117 | the byte form of any encodable patch reads back exactly, the terminator included and nothing after it |
| PatchCodec.DiffIsEncodable | src/filewriter.cpp:59-104 | below 2^32 no record of the diff is taken for the terminator and all its fields fit in 32 bits |
| PatchCodec.DiffRestores | src/filereader.h:96-117 | applying the diff gives the changed bytes on the range and leaves all others alone |
| PatchCodec.PatchRoundTrip | src/filereader.h:96-117 | for any two buffers and any range: if the patch gets its space, it is read back exactly as it was written, fields cut to 32 bits, and consumed with its terminator; there is a patch whose application gives the changed bytes on the range and leaves all others alone if and only if every gap is shorter than 2^32 bytes and every run, with the eight bytes of its header, is, and then nothing was cut |
| PatchCodec.FarChangeIsLost | src/filewriter.cpp:84-97 | an input that fails: one byte changed 2^32 bytes into a range is not restored |
| PatchCodec.LongRunIsLost | src/filewriter.cpp:84-97 | the other input that fails: 2^32 - 8 bytes that all changed fit both fields of their record, but no space is asked for it |
| PatchCodec.MemorySpanReadsBack | src/filewriter.cpp:10-25 | a memory span reads back as one change, unless it is empty at offset 0: then its own record is taken for the terminator and eight bytes are left over |
| PatchWriting.FindPatchStart | src/filewriter.cpp:34-57 | the scan by 256 bytes stops at the same place as a plain scan by 8-byte blocks |
| PatchWriting.NextRun | src/filewriter.cpp:69-82 | one round skips what is equal and copies one maximal run of differences into the clone, nothing else |
| PatchWriting.WritePatch | src/filewriter.cpp:59-104 | the records are the diff of the range as 32-bit fields show it, the clone ends equal to the changed buffer there and untouched elsewhere, and the count is the total size of the records; there is no patch exactly when some record is written beyond the space asked for it |
| PatchWriting.PiecesAreRecorded | src/filewriter.cpp:84-102 | written piece by piece, in whatever chunks they end up, the records and the terminator are exactly the patch in the stream |
| ReaderProtocol.StepKeepsValid | src/filereader.h:191-213 | the chain of positions that self_test asserts holds after every step of the replayer and the decompressor |
| ReaderProtocol.ReadsAreFaithful | src/filereader.h:119-128 | a read returns the next part of the stream, and no page it touches has been released |
| ReaderProtocol.ReadsAreInOrder | src/filereader.h:119-128 | over every run of both threads the reads together return the stream byte by byte, in order and with nothing left out |
| ReaderProtocol.WaitIsServed | src/filereader.cpp:231-270 | while the replayer waits for bytes still to come the throttle is off, and the decompressor can take a step that brings them nearer |
| ReaderProtocol.WaitEnds | src/filereader.h:26-50 | hence every wait ends, after a bounded number of steps of the decompressor alone |
| ReaderProtocol.WaitTripsExactly | src/filereader.h:26-50 | from any valid state, some round of a wait for bytes still to come can trip the assert if and only if the last chunk boundary before the bytes asked for, plus their size, reaches the end of the stream |
| ReaderProtocol.LegalReadTrips | src/filereader.h:26-50 | a reachable state in which a legal read trips it although its first round passed: the first twenty bytes of three chunks of ten |
| ReaderProtocol.ReadAheadIsBounded | src/filereader.cpp:231-270 | in every state reachable from the start the positions are in order, and the decompressor is at most the preload size and one chunk beyond what is read or needed |
| ReaderProtocol.FreedStaysBehind | src/filereader.cpp:138-158 | releasing pages never passes the checkpoint and leaves less than two pages in front of it |
| ReaderProtocol.CheckpointIsReleased | src/filereader.cpp:138-158 | over any run: releasing a checkpoint releases all that was read before it was set, up to two pages, and nothing behind it |
| ReaderProtocol.PreloadIsServed | src/filereader.cpp:272-294 | after the wait at the start of a measurement the bytes of the preload can be read without another wait |
| ReaderProtocol.ThrottleLeavesPreload | src/filereader.cpp:231-270 | the decompressor is only held back once it is as far ahead as the preload asks |
| FileReading.FileReader.DecompressChunk | src/filereader.cpp:191-228 | adds exactly the next chunk of the file to what can be read |
| FileReading.FileReader.CheckSpace | src/filereader.h:26-50 | decompresses until the bytes are there, and reads on unchanged |
| FileReading.FileReader.ReadArray | src/filereader.h:119-128 | returns the next bytes of the decoded stream and moves behind them |
| FileReading.FileReader.ReadPatch | src/filereader.h:96-117 | applies the patch at the front of the stream to the buffer, or skips it, and consumes exactly that patch |
| RecordAndReplay.OpenRecorded | src/filereader.cpp:190-228 | whatever the interleaving of the three writing threads: a reader opened on the closed file will read exactly the stream that was recorded |
| RecordAndReplay.OpenWriter | src/filewriter.cpp:146-184 | the same for the writer object whose file it is |
| RecordAndReplay.WorkersDoNotMatter | src/filewriter.cpp:212-345 | the recorded stream depends on the steps of the recording thread alone |
| RecordAndReplay.PatchIsRecorded | src/filewriter.cpp:84-102 | a patch written in a run stays where it was recorded, as long as no store behind it goes through a pointer into it |
| RecordAndReplay.ReplayPatch | src/filereader.h:96-117 | reading the closed file up to a recorded patch and applying it restores the buffer on the range and nothing else, if and only if every gap is shorter than 2^32 bytes and every run, with its header, is; the reader goes on behind the patch in any case |
| Handles.TraceRemap.Add | src/containers.h:758-776 | gives the handle a fresh index (the next one, or the desired one) and keeps every other live handle's |
| Handles.TraceRemap.Remove | src/containers.h:778-785 | the handle stops being live, every other stays as it was |
| Handles.TraceRemap.IndexOrNull | src/containers.h:795-801 | the index of a live handle, the null marker for the null handle |
| Handles.TraceRemap.Contains | src/containers.h:803-806 | true exactly for live handles |
| Handles.ReplayRemap.Set | src/containers.h:679-685 | the index holds the replayed handle, and the way back leads to the index |
| Handles.ReplayRemap.At | src/containers.h:695-701 | null for the null marker; otherwise the handle replay holds under the index, which while the two sides are in step is the handle of the live capture object with that index |
| Handles.ReplayRemap.IndexOrInvalid | src/containers.h:709-714 | the way back from a handle, by what was last noted for it |
| Handles.ReplayRemap.Remove | src/containers.h:722-728 | the index is free again; the dead handle is left pointing at index 0 |
| Handles.CreateSimulates | scripts/util.py:1655-1682 | creating an object on both sides keeps the two maps in step, even when the driver hands out a dead handle value again |
| Handles.DestroySimulates | scripts/util.py:1785-1785 | so does destroying it |
| Handles.HistorySimulates | src/containers.h:666-833 | over every legal history of creations and destructions the two maps stay in step |
| Handles.ReplayFindsTheSameObject | scripts/util.py:1075-1080 | over every legal history, the index written for a live capture handle is the one under which replay holds the handle of the same creation, and no assert of either container fails |
| Handles.ReverseLookup | src/containers.h:703-728 | the way back is exact for live handles; the null handle gives the null marker, a dead one looks like index 0, and one never seen is invalid |
| AddressRemapping.MeetsIsUnique | src/containers.h:488-503 | the interval specification allows only one answer |
| AddressRemapping.AddressRemapper.ChooseBest | src/containers.h:444-486 | none exactly when no object of the base may hold the address; otherwise the last of the most preferred ones (has an address, then bound over alive over destroyed, then size) |
| AddressRemapping.BestIsPreferred | src/containers.h:444-486 | the choice, criterion by criterion: a replay address first, then a living object, one bound to memory, the larger one, and of equals the one registered last |
| AddressRemapping.AddressRemapper.FindCandidate | src/containers.h:488-512 | none exactly when no eligible registered interval holds the address; otherwise the best object at the greatest base that has one |
| AddressRemapping.AddressRemapper.TranslateAddress | src/containers.h:515-521 | keeps the distance from the base, and gives 0 when there is nothing to translate to |
| AddressRemapping.AddressRemapper.Add | src/containers.h:531-540 | the object is registered at the address, once, behind those already there; no other address changes |
| AddressRemapping.AddressRemapper.Remove | src/containers.h:543-552 | the object is no longer registered there, and nothing else changes |
| MarkedChecksum.Adler32Update | src/hardcode_read.cpp:4160-4171 | from the checksum of a text, that of the text with the new bytes behind it, in 32 bits |
| MarkedChecksum.UpdateConcat | src/hardcode_read.cpp:4160-4171 | updating with two parts one after the other is updating once with both |
| MarkedChecksum.AdlerMeetsStandard | src/util.h:229-239 | the checksum of any buffer is that of section 2.2 of RFC 1950: the sum of sums modulo 65521 in the high half, one plus the sum of the bytes modulo 65521 in the low half, although the code reduces after every byte |
| MarkedChecksum.SumsFromFront | src/util.h:229-239 | what the two unreduced sums are: a byte counts once in the first, and in the second once for itself and once for every byte behind it |
| MarkedChecksum.SubstitutedAt | src/hardcode_read.cpp:4418-4455 | byte by byte: under a span the span's byte, elsewhere the buffer's |
| MarkedChecksum.SubstitutedIsOrderFree | src/hardcode_read.cpp:4418-4455 | the order of the spans, and repeating one, does not matter |
| MarkedChecksum.ChecksumSpliced | src/hardcode_read.cpp:4418-4455 | the loop over sorted spans and gaps accepts exactly the sets of spans that do not conflict, identical repeats included, and then gives the Adler-32 of the substituted buffer |
| MarkedChecksum.PartsShow | src/hardcode_read.cpp:4418-4455 | a buffer some parts of which are replaced and some left alone shows a given text if and only if every part does |
| MarkedAddresses.FindBufferByReplayAddress | src/hardcode_read.cpp:1120-1139 | the first of the largest bound buffers that hold the bytes, none only if there is none |
| MarkedAddresses.ReverseTranslate | src/hardcode_read.cpp:4139-4158 | the captured address behind a replay address: anywhere in a buffer, only at the base of an acceleration structure |
| MarkedAddresses.OnceReturns | src/hardcode_read.cpp:4139-4158 | whatever is registered where: an address translated and taken back is the captured one if and only if it is zero, or the object found at its replay address lies as far from it as the object found at the captured one, and for a structure was captured at that very address |
| MarkedAddresses.MirroredExactly | src/hardcode_read.cpp:4139-4158 | where objects do not overlap these are zero, the addresses in a registered buffer that has a replay address, and the bases of such structures that no earlier one hides |
| MarkedAddresses.ValueReturns | src/hardcode_read.cpp:4139-4158 | where objects do not overlap, with or without replay addresses yet: an address translated n times and once back is the captured one if and only if it is one of those, and no translation after the first changes it |
| MarkedAddresses.LandsExactly | src/containers.h:488-521 | an address finds a replay address if and only if, at the greatest base where some object may hold it, one that may has a replay address; zero never does |
| MarkedAddresses.LandsInRegistered | src/containers.h:488-521 | where registered objects do not overlap at capture: an address finds a replay address if and only if it lies in a registered object that has one |
| MarkedAddresses.UnaddressedIsLost | src/hardcode_read.cpp:3160-3173 | objects are registered before they have a replay address: until then the addresses in them are translated to nothing |
| MarkedAddresses.StructureReturns | src/hardcode_read.cpp:4148-4158 | the reverse search gives the base of a structure if and only if that structure is registered, is the first of the table at the address, and has it at replay |
| MarkedAddresses.StaleStructureIsFound | src/hardcode_read.cpp:4148-4158 | two structures that got the same replay address: the later one is turned back into the earlier one |
| MarkedAddresses.SharedBaseReturns | src/containers.h:444-486 | when capture gave one address to several structures, the most preferred one is translated to, and the address comes back if and only if the first structure found at the replay address was captured there too |
| MarkedAddresses.ReusedCaptureAddress | src/containers.h:444-486 | so the address of a living structure survives although a destroyed one had it before |
| DescriptorRewrites.FindRewrite | src/hardcode_read.cpp:4688-4698 | the bytes of the first queued rewrite of this type whose captured bytes are found |
| DescriptorRewrites.FindOrigin | src/hardcode_read.cpp:4204-4230 | captured bytes only when all rewrites to what is found agree on them, unknown only when there are none, ambiguous only when two disagree |
| DescriptorRewrites.DescriptorReturns | src/hardcode_read.cpp:4204-4230 | a descriptor exchanged and taken back is the captured one if and only if every rewrite to its replay bytes was from it |
| GroupHandles.FindGroup | src/hardcode_read.cpp:2401-2427 | none, the only group of the pipeline with this handle, or the answer that there are several |
| GroupHandles.Exchange | src/hardcode_read.cpp:2429-2493 | the handle of the one group of one pipeline that owns it, taken from the other side; an abort if none owns it, more than one does, or the other side has no handle for it |
| GroupHandles.CaptureReplayKeepsHandles | src/hardcode_read.cpp:2429-2493 | a handle owned by a pipeline with capture replay is left as it is |
| GroupHandles.OthersExchangeHandles | src/hardcode_read.cpp:2429-2493 | of any other pipeline it becomes the handle of the same group among the replayed ones, or the program aborts for lack of one |
| GroupHandles.HandleReturns | src/hardcode_read.cpp:4260-4310 | a handle exchanged for its replay handle comes back if and only if no other group shows that handle at replay |
| MarkedBuffers.TranslateMarkedOffsets | src/hardcode_read.cpp:4650-4727 | in place, each mark in turn is exchanged for its replay form; it gets through exactly when every mark resolves at its turn |
| MarkedBuffers.TranslatedAt | src/hardcode_read.cpp:4650-4727 | marks that repeat or lie apart are each translated as often as they are listed, and nothing around them changes |
| MarkedBuffers.ResolvesExactly | src/hardcode_read.cpp:4650-4727 | hence the translation gets through if and only if every mark resolves as often as it is listed |
| MarkedBuffers.ChecksumMarkedBufferRange | src/hardcode_read.cpp:4312-4456 | it succeeds exactly when every mark can be taken back and the spans do not conflict; the result is the checksum of the reconstructed bytes |
| MarkedBuffers.ChecksumSurvivesTranslation | src/hardcode_read.cpp:4312-4456 | whatever is registered, with marks of any type that repeat or lie apart: the checksum of the translated buffer is taken over exactly the captured bytes if and only if every mark returns from as many translations as it is listed |
| MarkedBuffers.OnceFoundAndReturned | src/hardcode_read.cpp:4650-4727 | whatever is registered, without repeats: the translation gets through iff every address finds a replay address and every group handle has one owner with a handle on the other side; then the checksum survives iff every address comes back in the sense of `MarkedAddresses.OnceReturns`, no other captured descriptor has the same replay bytes, and only one group shows each replay handle |
| MarkedBuffers.ListedAndReturned | src/hardcode_read.cpp:4312-4456 | where objects do not overlap, marks of every type listed any number of times: of a list that the translation gets through, the checksum survives if and only if each mark would survive being listed once and no translation after its first changes its bytes |
| MarkedBuffers.AddressReturnsOnce | src/hardcode_read.cpp:4340-4365 | a marked address listed once returns if and only if its value does, in the sense of `MarkedAddresses.OnceReturns` |
| MarkedBuffers.AddressReturns | src/hardcode_read.cpp:4340-4365 | a marked address listed any number of times returns if and only if its value does, in the sense of `MarkedAddresses.ValueReturns` |
| MarkedBuffers.UpdateThenChecksum | src/hardcode_read.cpp:4650-4727 | updating memory and asserting its checksum gives the Adler-32 of the captured bytes when every mark resolves and returns, and nothing when one does not resolve |
| MarkedBuffers.DuplicateMark | src/hardcode_read.cpp:4426-4435 | where objects do not overlap, of an address listed twice the captured bytes come back if and only if it is zero, or it is returnable and its replay address is translated to itself |
| MarkedBuffers.DuplicateBufferMark | src/hardcode_read.cpp:4426-4435 | for a buffer that means: zero, or returnable and replayed at the very address it was captured at |
| MarkedBuffers.DuplicateMarkIsLost | src/hardcode_read.cpp:4426-4435 | a device and a buffer for which the mark survives when it is listed once and does not when it is listed twice |
| HostWrites.CollectSpans | src/containers.h:336-381 | without full coverage, ordered spans that say all that is known about the range; with it, failure exactly when a byte is unknown |
| HostWrites.ExtendedCollects | src/containers.h:326-334 | merging a contiguous span into the one before says the same |
| HostWrites.HostWriteRegions.RegisterUnlocked | src/containers.h:383-393 | each byte of the range gets its own origin, every other byte keeps its own |
| HostWrites.HostWriteRegions.RegisterSource | src/containers.h:217-259 | plain, packed or strided: a byte in some element has the source, the stage and its distance behind the first element; all other bytes keep theirs |
| HostWrites.HostWriteRegions.CopySources | src/containers.h:261-289 | each known source byte's origin lands at its destination as it was before the call, also when an object is copied onto itself and the ranges overlap; unknown bytes leave the destination alone |
| HostWrites.HostWriteRegions.TryGetReference | src/containers.h:173-187 | succeeds if and only if every byte of the range has one source and stage with contiguous object offsets |
| PendingSubmissions.WaitIsRight | src/hardcode_read.cpp:1538-1579 | waiting for a buffer keeps the bookkeeping right, blocks only on work that was submitted, and leaves the buffer neither pending nor in flight |
| PendingSubmissions.PreSubmitLeaves | src/hardcode_read.cpp:1739-1758 | the waits in front of a submission finish exactly the executions that the wait for some listed buffer includes, although an earlier wait may have cleared a later buffer |
| PendingSubmissions.SubmitIsRight | src/hardcode_read.cpp:1847-1873 | a submission keeps the bookkeeping right if and only if nothing it resubmits is still in flight on another queue |
| PendingSubmissions.SingleQueueIsEnough | src/hardcode_read.cpp:1739-1758 | keeping simultaneous use on one queue is enough for the waits, and so for that; for a single buffer it is also necessary |
| PendingSubmissions.RerecordAfterSubmit | src/hardcode_read.cpp:1189-1207 | only the last submission is remembered: re-recording right after is safe if and only if nothing resubmitted was in flight on another queue |
| PendingSubmissions.RerecordIsSafeExactly | src/hardcode_read.cpp:1189-1207 | and from what replay has recorded alone: it is safe whatever the device may have in flight if and only if each listed simultaneous-use buffer pending on another queue has its last submission included in the wait for another listed buffer |
| PendingSubmissions.TwoQueuesAreUnsafe | src/hardcode_read.cpp:1189-1207 | a run from the start that fails: one simultaneous-use buffer submitted to two queues is still in flight after the clean-up for its next recording |
| PendingSubmissions.StepKeepsValid | src/hardcode_read.cpp:1173-1248 | every step keeps: a live buffer is on a live fence's list exactly once when it is pending with that fence, and what is recorded suffices to wait for all that is in flight |
| PendingSubmissions.ReachedIsValid | src/hardcode_read.cpp:1173-1248 | so in every state of every run whose waits suffice in front of each submission |
| PendingSubmissions.FlagIsLast | src/hardcode_read.cpp:1760-1767 | in every run a buffer is taken for one in simultaneous use exactly when its last recording said so |
| PendingSubmissions.OneExecution | src/hardcode_read.cpp:1739-1758 | in every run a buffer last recorded without simultaneous use never executes twice at once, and the waits in front of its next submission leave nothing of it in flight |
| PendingSubmissions.ScratchIsBuilt | src/hardcode_read.cpp:1639-1658 | in every run a buffer holds exactly the scratch memory that was built into it since its last clean-up |
| PendingSubmissions.ScratchIsFree | src/hardcode_read.cpp:1639-1658 | in every reachable state scratch memory is destroyed on re-recording only once nothing of its buffer is in flight |
| PendingSubmissions.ObservedFenceIsEmpty | src/hardcode_read.cpp:1976-2018 | in every reachable state, a fence found signalled takes exactly the buffers that have it recorded off the pending ones |
| PendingSubmissions.WaitIdleIsRight | src/hardcode_read.cpp:1946-1974 | an idle wait clears exactly the buffers pending there, except the one with index 0 |
| PendingSubmissions.IdleIsRight | src/hardcode_read.cpp:1946-1974 | of a queue these are exactly the buffers last submitted to it, of a device all of its buffers |
| PendingSubmissions.CleanPoolIsRight | src/hardcode_read.cpp:1802-1830 | resetting a pool leaves its buffers neither pending nor in flight and without scratch, except the one with index 0, whose scratch stays |
| PendingSubmissions.PendingTracker.ClearPendingCommandbuffer | src/hardcode_read.cpp:1173-1187 | forgets the buffer, and takes it off its fence's list |
| PendingSubmissions.PendingTracker.MarkPendingCommandbuffer | src/hardcode_read.cpp:1189-1207 | replaces whatever was recorded by the new queue and fence |
| PendingSubmissions.PendingTracker.ClearPendingFence | src/hardcode_read.cpp:1231-1248 | clears exactly the live buffers on the list that have this fence recorded, and the list |
| PendingSubmissions.PendingTracker.WaitForPendingCommandbuffer | src/hardcode_read.cpp:1538-1579 | implements the wait: by fence, else by queue |
| PendingSubmissions.PendingTracker.CleanupForRerecord | src/hardcode_read.cpp:1649-1658 | waits, then drops the scratch buffers |
| PendingSubmissions.PendingTracker.QueueSubmit | src/hardcode_read.cpp:1739-1758 | waits for each buffer, submits, then marks each buffer |
| PendingSubmissions.PendingTracker.BeginCommandBuffer | src/hardcode_read.cpp:1760-1767 | cleans up before the new recording and notes the flag of this recording, as `PendingSubmissions.FlagIsLast` relies on |
| PendingSubmissions.PendingTracker.ResetCommandPool | src/hardcode_read.cpp:1802-1830 | cleans up the pool's buffers from index 1 on |
| PendingSubmissions.PendingTracker.IdleCallback | src/hardcode_read.cpp:1946-1974 | clears the matching buffers from index 1 on |
| ImportBarriers.NeverStuck | src/read.h:511-577 | whatever state the replay is in, as long as a thread has packets left some thread can go on, since a barrier is counted before it waits |
| ImportBarriers.HandleKeepsValid | src/gfxreconstruct_import.cpp:57-111 | every import event only adds packets, each behind everything it waits for |
| ImportBarriers.CallsGoToTheirThread | src/gfxreconstruct_import.cpp:67-111 | whatever is imported: every stream is that of one application thread, or thread 0 for metacommands, and holds exactly the calls of that writer, all of them and in order |
| ImportBarriers.ReplayIsBounded | src/read.h:511-577 | however the threads are scheduled, a replay takes a bounded number of steps, so together with the absence of deadlock it finishes |
| ImportBarriers.ImportReplays | src/gfxreconstruct_import.cpp:57-111 | whatever was imported, its replay never gets stuck |
| ImportBarriers.ReplayKeepsPassed | src/read.h:511-541 | in every replay state, what a packet waits for is complete once its thread has left it behind, barrier or call |
| ImportBarriers.UsesComeFirst | src/read.h:543-577 | no call is complete before the packets of other threads that last touched what it uses |
| ImportBarriers.RegionComesAfter | src/gfxreconstruct_import.cpp:88-97 | everything written before a threadless region is complete before any packet of the region executes |
| ImportBarriers.MetacommandIsOrderedExactly | src/gfxreconstruct_import.cpp:88-111 | an application thread writes a packet, then a metacommand one that does not use it: every replay completes all that was written before it executes the metacommand's packet if and only if the region was closed; in an open region some replay executes it first |
| ImportBarriers.ThreadsComeAfterRegion | src/gfxreconstruct_import.cpp:99-111 | everything on thread 0 up to the end of a region is complete before any packet another thread writes after it executes |
| ImportBarriers.NewThreadsComeAfter | src/gfxreconstruct_import.cpp:67-86 | a thread that appears later starts only behind everything written until then |
| ImportBarriers.InjectedComesFirst | src/write.cpp:197-221 | everything written before a barrier that the writer puts in by itself is complete before any later packet of its thread executes |
| ImportBarriers.ImportContext.SelectThread | src/gfxreconstruct_import.cpp:67-86 | binds the thread, or starts a new one behind a barrier and binds that, so that its calls go to its own stream (`ImportBarriers.CallsGoToTheirThread`); fails exactly when there are too many |
| ImportBarriers.ImportContext.ThreadlessMetacommandBegin | src/gfxreconstruct_import.cpp:88-97 | binds thread 0, with one barrier per region |
| ImportBarriers.ImportContext.ThreadlessMetacommandEnd | src/gfxreconstruct_import.cpp:99-111 | the same endpoints on every other thread, and the region is closed |
| ImportBarriers.ImportContext.InjectThreadBarrier | src/write.cpp:197-221 | a barrier on the current thread behind everything written so far |
| AddressTiling.CollectContiguous | src/execute_commands.cpp:260-305 | recognises an address if and only if each of its eight bytes has exactly one component and all come from one run of one range |
| AddressTiling.RecognisedExactly | src/execute_commands.cpp:260-305 | an address is recognised at a place if and only if each of its eight bytes has exactly one source, and all sources that count and lie somewhere in memory lie along that place |
| AddressTiling.SuppliesExactly | src/execute_commands.cpp:271-282 | a source is used if and only if its bits are whole bytes of the address and it lies somewhere in memory, and then for exactly those bytes |
| AddressTiling.BytesLieAtTheirSource | src/execute_commands.cpp:260-305 | byte by byte: a byte of a recognised address lies in memory where its one source says |
| AddressTiling.FindSourceRange | src/execute_commands.cpp:155-219 | the place in the first range that holds the bytes `byteOffset` behind the pointer, and there the very address of those bytes; failing that, for a storage class, the place at `byteOffset` in the first long enough range bound where it says; otherwise none |
| AddressTiling.MarkContiguous | src/execute_commands.cpp:260-332 | nothing is marked if and only if the pieces do not tile an address; tiled bytes are marked if and only if one host write explains all eight, with its packet and its place in the object, and otherwise end the program |
| AddressTiling.TiledIsInRange | src/execute_commands.cpp:290-305 | a recognised address lies in its range with all eight bytes |
| AddressTiling.ContinuesIsTiling | src/execute_commands.cpp:283-305 | the gapless walk over the sorted components accepts exactly the tilings |
| AddressTiling.TilingIsOrderFree | src/execute_commands.cpp:283-286 | the order in which the components come does not matter |
| ScratchLayout.AlignmentIsLeast | src/hardcode_read.cpp:1581-1585 | rounds up to a multiple of the alignment, by less than one alignment |
| ScratchLayout.TotalScratchSize | src/hardcode_read.cpp:2055-2086 | the sizing pass ends where the layout ends |
| ScratchLayout.PlaceScratch | src/hardcode_read.cpp:2105-2112 | the placement pass leaves builds without scratch alone and gives every other an address aligned in the buffer, inside the size asked for and behind the regions of the builds before it |
| ScratchLayout.LayoutIsSound | src/hardcode_read.cpp:2055-2112 | placed regions are aligned in the buffer, inside the size asked for, and disjoint |
| ScratchLayout.LayoutIsTight | src/hardcode_read.cpp:2055-2112 | and the last one ends where the buffer does |
| ScratchLayout.CanPreserve | src/hardcode_read.cpp:1596-1630 | true if and only if every region lies in a bound buffer and no two meet in the same one |
| ScratchLayout.PreservedRegionsAreApart | src/hardcode_read.cpp:1596-1630 | when bound buffers do not overlap, preserved regions are pairwise disjoint in memory |
| DescriptorArray.FindResource | src/execute_commands.cpp:1165-1184 | empty only if no known descriptor matches the slot; the last match when all matches name the same resource; an abort if and only if they do not |
| DescriptorArray.MaxStride | src/execute_commands.cpp:1229-1231 | the divided bound admits exactly the strides with which the last slot starts in the binding |
| DescriptorArray.PossibleStrides | src/execute_commands.cpp:1231-1241 | each stride to try exactly once, in increasing order |
| DescriptorArray.FindStride | src/execute_commands.cpp:1225-1262 | the one stride under which every slot matches, none when there are none or several, and an abort if and only if a slot it has to look at, behind occupied ones under a possible stride, is ambiguous |
| DescriptorArray.GuardIsSafe | src/execute_commands.cpp:1270-1270 | the guard before the multiplication turns away only slots behind the end |
| DescriptorArray.ResolveSlots | src/execute_commands.cpp:1264-1281 | every slot with its own descriptor, failure only when some slot is empty or lies behind the end, and an abort if and only if an ambiguous slot comes behind occupied ones |
| DescriptorArray.ResolveBinding | src/execute_commands.cpp:1216-1293 | aborts if and only if a slot it has to look at is ambiguous; otherwise resolves the array whenever it has a resolution, and to it; in every other case the outputs are untouched |
| DescriptorArray.OffsetsIncrease | src/execute_commands.cpp:1264-1281 | resolved offsets strictly increase and stay below the end of the binding |
| PNextCodec.ChainRoundTrip | scripts/lava.py:278-314 | reading back any written chain gives it with loader structures dropped and cut at the first unknown type, at every depth, and consumes exactly the bytes written |
| PNextCodec.EarlyComeFirst | scripts/struct.py:137-148 | in the order both generators share every misordered count stands in front of every other member, and each group keeps its declared order |
| PNextCodec.FoundExactly | scripts/struct.py:137-148 | hence an array is read after its count if and only if the count is one of the early members or declared in front of it, both being early or both not |
| PNextCodec.BodyRoundTrip | scripts/struct.py:137-148 | a structure each of whose arrays has its count early or declared in front comes back member by member, with strings, handles and arrays of structures |
| PNextCodec.BodyReturnsExactly | scripts/struct.py:137-148 | why counts are moved to the front: whatever is early, a body comes back if and only if each of its arrays is empty or has its count early or declared in front |
| PNextCodec.KeptTypes | scripts/lava.py:369-387 | which structures come back: all but the loader's, up to the first unknown one |
| PNextCodec.ChainStartsWithType | scripts/lava.py:369-387 | a written chain starts with the type of the first structure that comes back; with none it is a zero and nothing else |
| PNextCodec.PresenceComesFirst | scripts/util.py:930-938 | an optional member is a zero byte, or a one and the member |
| PNextCodec.LateCountLosesArray | scripts/struct.py:190-201 | a body that does not come back: an array of one byte declared before its count |
| PNextCodec.EarlyCountReturns | scripts/struct.py:190-201 | the same body with its count moved to the front: the count is written first, and it comes back |
| PNextCodec.WriteExtension | scripts/lava.py:369-387 | appends the chain's bytes to the stream and nothing else |
| PNextCodec.WriteStruct | scripts/struct.py:190-201 | appends the members in the shared order |
| PNextCodec.ReadExtension | scripts/lava.py:278-314 | takes one chain off the stream, or fails where the generated code aborts |
| PNextCodec.ReadStruct | scripts/struct.py:137-148 | takes the members in the shared order, into zeroed memory |
| PNextCodec.NumbersRoundTrip | scripts/util.py:1198-1204 | arrays of fixed-width numbers read back exactly |
| PNextCodec.NumbersLayout | scripts/util.py:1198-1204 | the numbers of an array lie one behind the other, each as wide as its type |
| PNextCodec.NumberLayout | scripts/util.py:1198-1204 | a single number takes exactly the bytes of its type |
| PNextCodec.TextRoundTrip | src/filewriter.h:95-109 | a string comes back as far as its 16-bit length counts, null if that is zero |
| PNextCodec.TextLayout | src/filewriter.h:95-109 | two bytes of length, then as many bytes of the text; a null pointer is the length zero |
| PNextCodec.HandleRoundTrip | src/write.h:147-164 | a handle comes back with the thread and packet that last changed its object; null as the null marker |
| PNextCodec.HandleLayout | src/write.h:147-164 | index, thread and packet in four, one and four bytes; the null handle has the null marker of the containers as its index |
| PNextCodec.BodiesRoundTrip | scripts/util.py:282-292 | an array of structures comes back element by element |

## Left out

- PatchWriting.WritePatch: returns the records it appends instead of calling the writer object; `PatchWriting.PiecesAreRecorded` joins the two. What writing a record beyond its space does to memory is not modelled: there is no patch then, and no claim about the clone.
- FileWriting.FileWriter: keeps only the contents of chunks that were handed over, not their buffers; the destructor and the default chunk size change are not modelled.
- WriterPipeline: only the default mode, with both worker threads; `thaw` fits no other. Switching a worker off while it runs is not modelled, and a failed write to disk neither.
- ReaderProtocol: the throttle is evaluated in one step, and the wall-clock sleeps and the stall abort are left out.
- FileReading.FileReader: reads with frames decompressed on demand; the thread that runs ahead is in `ReaderProtocol`.
- TraceFile: LZ4 and Density are any codec whose unpacking undoes every packing it may choose; the file header of 39 bytes is left out.
- Handles.HistorySimulates: handles of one type on one device; `replace`, which some rare calls need, is left out.
- AddressRemapping.AddressRemapper: objects are entries of a table; `is_candidate` only combines two translations.
- MarkedBuffers.TranslateMarkedOffsets: replay only; outside it the program leaves group handles alone and does not assert. All rewrites of a descriptor type have one size, as the code that queues them gives them.
- MarkedBuffers.ChecksumMarkedBufferRange: aborts are the absent result.
- HostWrites.HostWriteRegions: the interval tracker of the SPIR-V simulator is not part of this model; any tracker with the stated contract of ordered, disjoint, single-fragment answers will do. The packet type is carried but, as in the code, never compared. Statistics are left out.
- PendingSubmissions.StepKeepsValid: waits succeed; device loss ends a replay. Secondary command buffers are not tracked by their primary's submission and are left out, as are the fixups between waiting and submitting.
- PendingSubmissions.PendingTracker.IdleCallback: the device being idle is part of the step, not of the method.
- ImportBarriers.ImportReplays: packets are complete when another thread is bound; what a packet does is not modelled.
- AddressTiling.MarkContiguous: addresses that one source holds as a whole, and those inside composite values, are found by other functions.
- ScratchLayout.PlaceScratch: alignments are powers of two, so that masking rounds down; the sizes come from the driver.
- DescriptorArray.ResolveBinding: the buffer behind a descriptor's address is a parameter.
- PNextCodec.ChainRoundTrip: unions, arrays of strings and of handles, and the special cases by member name are left out. Reading a handle waits for the packet it names; that wait is not part of the value.
- Merging copies and markings the simulator reports (`merge_simulator_source_copies`, `merge_discovered_markings`) is left out: it needs the simulator's own records.
- Swapchains, surfaces, screenshots, feature enabling, JSON output, the command line and its socket, and the SPIR-V simulator are left out.
