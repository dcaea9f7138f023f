# A crash-safe span store over a mapped file

The library keeps telemetry spans in a memory-mapped file, so that a process that dies leaves
them for the next one. The file is a header and a fixed array of marked slots. The store adds
spans, removes them by moving the last one into the hole, sets attributes and end times, and
drops the oldest span when it is full. The next start-up scans the marked slots, returns what it
finds, and makes the file ready again. This project models that at the level of bytes in the
file and proves what the store promises: what a crash leaves can be read, no survivor is lost, at
most one span is found twice, and the whole is a bounded queue in insertion order. Where a promise
does not hold it gives the input and the exact condition under which it does.

## How the model is laid out

| file | what it holds |
|---|---|
| `Bytes.dfy`, `Memory.dfy` | bytes, 64-bit words, stores, and memory written in place with a log of its stores |
| `CopyString.dfy`, `Utf8.dfy` | bounded strings: truncation, key comparison, copies, UTF-8 |
| `Codec.dfy` | spans and their packed images |
| `Layout.dfy` | header, slots, addresses; byte stores and slot stores are the same thing |
| `Format.dfy` | the file format in plain numbers, which files recovery accepts, capacities, reuse |
| `Attributes.dfy`, `AttributeMap.dfy` | setting an attribute: its stores, its crashes, the map it amounts to |
| `AttributeText.dfy` | when a crash in setting an attribute leaves text, and when it leaves a whole value |
| `SlotQueue.dfy`, `SpanStore.dfy` | slots in scan order and in mark order; the operations and the queue they refine |
| `SlotOrder.dfy` | which span lies in which slot, as a function of the calls |
| `Crash.dfy` | a crash between any two stores of any call |
| `RawSpanData.dfy`, `MutableSpanData.dfy` | the two classes that write the file |
| `Startup.dfy`, `Initialize.dfy` | recovery and start-up, the context, and a crash on the way |
| `SpanQueue.dfy`, `SpanCrash.dfy` | the store, and a crash in it, without its bytes |
| `Sessions.dfy`, `Restarts.dfy`, `History.dfy`, `Client.dfy` | whole sessions, several crashed start-ups, all of these in any order, and a process that uses the classes |

Every operation appears twice. The classes are imperative: they write an array of bytes in place.
Beside them stands the list of stores of each call. A `Memory` logs every store it makes, and the
methods' contracts equate the log with that list, so the order of the stores is part of what is
proved, not only their sum. A crash keeps a prefix of the list. `Client.RunSession` makes the
stores of a whole process, and `Client.ProcessCrash` says of each of them what a crash there leaves.

## Assumptions

- Stores reach the file in program order. The library has no fences and its comments reason the
  same way.
- A 64-bit word is written whole or not at all. The assignment of a whole span can be cut with
  anything in its place. `memset` and `memcpy` on strings are byte stores in ascending order;
  `PartlyZeroedReadsPrefix` says what holds in any order.
- Page sizes hold a header, and where a file is cut inside a slot they are multiples of 8.
- Span ids are not zero, as the constructor of a span asserts (include/firebase/telemetry/persistence/span.h:93),
  and a session adds fewer than 2^64 - 1 spans, so that marks neither wrap nor reach the sentinel
  of the search for the oldest.

## Where the code and its comments part

- The comment at include/firebase/telemetry/persistence/detail/raw_span_data.h:131-133 says that an
  interrupted overwrite of an attribute never leaves it inconsistent. It leaves a prefix of the new
  value, which can end inside a character: `OverwriteSplitsCharacter` shows it on a stored span.
  `SetAttrTextSafeIff` gives the condition, which is exact and can be checked before the call: the
  span has no attribute with that key yet, or the value is ASCII. The same comment says that the
  value is lost in the worst case, and it can also come back as a proper prefix:
  `OverwriteWholeIff` says that it never does exactly for values of at most one byte, and of two if
  the old value is the first of them.
- A NUL inside a key makes the key comparison take different keys for equal, and not symmetrically.
  `KeyEqualsExactly` says what it decides for all keys, `KeyEqualsSoundIffStoredNulFree` when that
  is equality.
- One crash in a start-up is harmless. Two can be harmful: the first after the file was shrunk, the
  second after it was grown again, leave a header that vouches for slots whose tail is zero.
  `SmallThenLargeLoses` is an instance. `ManyCrashesExact` gives the condition on the sizes for any
  row of start-ups, which is exact: none cuts into the live slots before a later one makes room for
  the layout again. `ManyCrashesReadable` says that even then recovery stays in range.

## Model

| member | source | states |
|---|---|---|
| `CopyString.ContinuationMask` | include/firebase/telemetry/persistence/detail/copy_string.h:25-28 | the mask test is the test that truncation uses, on every byte |
| `CopyString.GetUtf8Length` | include/firebase/telemetry/persistence/detail/copy_string.h:30-42 | the loop returns the last split point of the source, at most N - 1, with no continuation byte after it |
| `CopyString.Utf8LengthIsLastBoundary` | include/firebase/telemetry/persistence/detail/copy_string.h:30-42 | the same of the specification function, for every byte string |
| `CopyString.TruncateComposes` | include/firebase/telemetry/persistence/detail/copy_string.h:30-42 | truncating for M and then for N is truncating once for the smaller, for all byte strings |
| `CopyString.KeyEqualsExactly` | include/firebase/telemetry/persistence/detail/copy_string.h:44-50 | for all keys: the comparison holds exactly if the truncations are equal, or the probe adds NULs, or the stored key goes on after a NUL where the probe ends |
| `CopyString.KeyEqualsIffSameTruncation` | include/firebase/telemetry/persistence/detail/copy_string.h:44-50 | for NUL-free truncations the comparison decides whether they are equal, so it is an equivalence |
| `CopyString.KeyEqualsSoundIffStoredNulFree` | include/firebase/telemetry/persistence/detail/copy_string.h:44-50 | a stored key is told apart from every other NUL-free key if and only if its stored part is NUL-free |
| `CopyString.KeyEqualsNotSymmetric` | include/firebase/telemetry/persistence/detail/copy_string.h:44-50 | two keys of which the comparison accepts one way and refuses the other |
| `CopyString.CopyStringTo` | include/firebase/telemetry/persistence/detail/copy_string.h:52-61 | zeroes the buffer and only then fills it, byte by byte in that order; the rest of memory is unchanged |
| `CopyString.CopyStringTo2` | include/firebase/telemetry/persistence/detail/copy_string.h:63-78 | zeroes both buffers before it fills either |
| `CopyString.BothClearedFirst` | include/firebase/telemetry/persistence/detail/copy_string.h:66-75 | the copy of two strings writes only zeros, as many as both buffers hold, before any other byte |
| `CopyString.Fill2Prefix` | include/firebase/telemetry/persistence/detail/copy_string.h:74-77 | from then on each prefix of its stores is a prefix of the first string over zeros and, only once that is whole, one of the second |
| `CopyString.FillPrefix` | include/firebase/telemetry/persistence/detail/copy_string.h:52-61 | after any number of byte stores of a copy the buffer is zeros over the old bytes, or a prefix of the new ones over zeros, and nothing else changed |
| `CopyString.HalfFilledReadsBack` | include/firebase/telemetry/persistence/detail/copy_string.h:54-60 | at each of them the buffer ends in a NUL and reads as the old string, as empty, or as a prefix of the new one |
| `CopyString.PartlyZeroedReadsPrefix` | include/firebase/telemetry/persistence/detail/copy_string.h:54-60 | whatever the order of the byte stores, a partly zeroed buffer reads as a prefix and stays terminated |
| `CopyString.RawCutIsHarmless` | include/firebase/telemetry/persistence/android/detail/managed_jstring.h:46-62 | the raw cut to N bytes before a copy into N bytes changes nothing |
| `CopyString.ShorterRawCutSplitsCharacter` | include/firebase/telemetry/persistence/android/detail/managed_jstring.h:46-62 | a cut to N - 1 bytes would split a character |
| `CopyString.CreateBoundedJString` | include/firebase/telemetry/persistence/android/detail/managed_jstring.h:29-44 | on both branches Java gets what a buffer of that size would read back |
| `Utf8.WellFormedIffEncodes` | include/firebase/telemetry/persistence/detail/copy_string.h:35-40 | the text that must not be corrupted: what is well-formed by section 4 of RFC 3629 is exactly what encodes a sequence of characters by its section 3 |
| `Utf8.SplitIsBoundary` | include/firebase/telemetry/persistence/detail/copy_string.h:25-42 | in well-formed UTF-8 a prefix is well-formed exactly if the next byte is not a continuation byte, and then so is the rest |
| `Utf8.BoundaryIsNear` | include/firebase/telemetry/persistence/detail/copy_string.h:36-40 | in well-formed UTF-8 such a split point is at most three bytes back |
| `Utf8.TruncateKeepsWellFormed` | include/firebase/telemetry/persistence/detail/copy_string.h:30-42 | for every well-formed source and size, truncation gives the longest well-formed prefix that fits and gives up at most three bytes |
| `Utf8.CutCopyWellFormedIffBoundary` | include/firebase/telemetry/persistence/detail/copy_string.h:54-60 | a copy cut short reads back as well-formed text if and only if what is read back ends between characters |
| `Utf8.CutCopiesWellFormedIffAscii` | include/firebase/telemetry/persistence/detail/copy_string.h:54-60 | wherever a copy of a text stops, text is read back: if and only if the text, up to its first NUL and as far as it fits, is ASCII |
| `AttributeText.SetAttrTextSafeIff` | include/firebase/telemetry/persistence/detail/raw_span_data.h:125-154 | wherever a call crashes every recovered value is text: if and only if the key is new to the span or the value is ASCII |
| `AttributeText.OverwriteSplitsCharacter` | include/firebase/telemetry/persistence/detail/raw_span_data.h:131-139 | a stored span, one attribute of which is overwritten with a two-byte character: after 129 byte stores recovery shows half of it |
| `AttributeText.OverwriteWholeIff` | include/firebase/telemetry/persistence/detail/raw_span_data.h:131-139 | wherever an overwrite crashes the value is the old one, empty, or the whole new one: if and only if the new one is at most one byte long, or two of which the old value is the first |
| `Bytes.WordIsLittleEndian` | include/firebase/telemetry/persistence/detail/marked_span.h:32-41 | a 64-bit field lies in the file with its low byte first |
| `Format.RawSpanInFile` | include/firebase/telemetry/persistence/detail/marked_span.h:25-42 | the offset and size of every field of a stored span, in numbers, without gaps |
| `Format.NameComesBackIff` | include/firebase/telemetry/persistence/detail/marked_span.h:38 | a name without NULs is recovered whole if and only if it has at most 63 bytes |
| `Format.AttributeComesBackIff` | include/firebase/telemetry/persistence/detail/marked_span.h:25-28 | an attribute without NULs and with a value is recovered whole if and only if its key has at most 63 bytes and its value at most 127 |
| `Format.HoldsUpTo` | include/firebase/telemetry/persistence/detail/mmap_config.h:33-42 | after adds of distinct ids an empty store holds as many, but at most 128, 1024 or 2048 |
| `Format.KeepsAttributesUpTo` | include/firebase/telemetry/persistence/detail/mmap_config.h:33-42 | a span is stored with its first 16, 64 or 128 attributes |
| `Format.SlotInFile` | include/firebase/telemetry/persistence/detail/memory_layout.h:27-31 | the address of the count and of the mark and span of every slot, in numbers, for each layout |
| `Format.HeaderInFile` | src/header.cpp:23-48 | a current header for a layout is signature 0x48535243 at 0, version 2 at 8, and 0, 1 or 2 at 16 |
| `Format.RecoveryAccepts` | src/initialize.cpp:47-59 | recovery looks into a file if and only if it has that signature, that version, one of the three sizes, a count above 0, and at least the bytes of its layout |
| `Format.RefusedIsReset` | src/initialize.cpp:115-156 | from any other file nothing is recovered, and it is resized and its header set anew |
| `Format.StartFileSize` | src/initialize.cpp:41-45 | a start-up leaves whole pages, at least the layout and less than a page more |
| `Format.ReusedIff` | src/initialize.cpp:133-144 | the file of a session is used as it is, its header left alone but for the count, if and only if the session left spans and the next asks for the same layout and size |
| `Codec.ToRawSpan` | include/firebase/telemetry/persistence/span.h:113-139 | builds the packed image in a zeroed buffer, attributes up to the limit |
| `Codec.RawUpToHolds` | include/firebase/telemetry/persistence/span.h:118-137 | each word, name, key and value of the image is at its own place, untouched by the others |
| `Codec.SpanFromRaw` | include/firebase/telemetry/persistence/span.h:96-111 | reads the words and C strings back and keeps, in order, the attributes with a non-empty value |
| `Codec.RoundTrip` | include/firebase/telemetry/persistence/span.h:96-139 | encoding and decoding a span truncates each string and cuts it at its first NUL, keeps the first attributes up to the limit, then drops empty values; the image is fit to read |
| `Codec.NormaliseIdentityIffWithinLimits` | include/firebase/telemetry/persistence/span.h:96-139 | the round trip is the identity if and only if the span is within the limits |
| `Codec.NormaliseIdempotent` | include/firebase/telemetry/persistence/span.h:96-139 | a recovered span survives the next round trip unchanged |
| `Attributes.SetAttrEffect` | include/firebase/telemetry/persistence/detail/raw_span_data.h:125-154 | the stores of a call amount to replacing the value of the first matching key, or to appending and then counting, or to nothing when full |
| `Attributes.OverwriteCrash` | include/firebase/telemetry/persistence/detail/raw_span_data.h:131-139 | at every byte of an overwrite the span is fit to recover, every other field and attribute is as it was, and the value reads as before, empty, or as a prefix of the new one |
| `Attributes.AppendCrash` | include/firebase/telemetry/persistence/detail/raw_span_data.h:141-151 | until the count is stored a new attribute leaves the used part of the span untouched |
| `Attributes.SameUsedReadsSame` | include/firebase/telemetry/persistence/span.h:104-110 | a span with the same used part reads back the same |
| `Attributes.SetAttrKeepsOk` | include/firebase/telemetry/persistence/detail/raw_span_data.h:125-154 | a call keeps a span fit to recover, with its id, times and name |
| `AttributeMap.SetAttrIsListSet` | include/firebase/telemetry/persistence/detail/raw_span_data.h:125-154 | on the list of attributes a call replaces, appends, or when full does nothing |
| `AttributeMap.SetsRefineMap` | include/firebase/telemetry/persistence/detail/raw_span_data.h:125-154 | any run of calls with NUL-free keys is a run of a bounded last-write-wins map; keys stay distinct, the count stays in range, a key keeps its slot |
| `AttributeMap.RecoveredEntries` | include/firebase/telemetry/persistence/span.h:104-110 | recovery shows exactly the entries of that map whose value is not empty |
| `Layout.SlotsDisjoint` | include/firebase/telemetry/persistence/detail/memory_layout.h:27-31 | for all parameters the header and the slots are in order and do not overlap |
| `Layout.SlotsAligned` | include/firebase/telemetry/persistence/detail/marked_span.h:51-62 | for all parameters every slot and its size are word-aligned |
| `Layout.LayoutSizes` | include/firebase/telemetry/persistence/detail/memory_layout.h:33-43 | the sizes of the three layouts |
| `Layout.SlotStore` | include/firebase/telemetry/persistence/detail/memory_layout.h:27-31 | a store inside one slot changes no other slot and not the count |
| `Layout.RunPutsIsRunStores` | include/firebase/telemetry/persistence/detail/raw_span_data.h:107-213 | any run of byte stores at the slots' addresses, read back as a count and slots, is the run of slot stores |
| `Layout.CrashPutsIsCrashStores` | include/firebase/telemetry/persistence/detail/raw_span_data.h:107-213 | the same when a crash cuts it, torn span included |
| `Layout.HeaderUntouched` | include/firebase/telemetry/persistence/detail/header.h:27-32 | no store of the span store reaches signature, version or size |
| `SlotQueue.QueueIsScan` | src/initialize.cpp:124-131 | slot order and mark order hold the same spans |
| `SlotQueue.ScanUpdate` | src/initialize.cpp:127-131 | changing one slot changes the scan by exactly what that slot adds |
| `SpanStore.AddAppends` | include/firebase/telemetry/persistence/detail/raw_span_data.h:107-123 | in mark order a new span goes to the end |
| `SpanStore.RemoveDeletes` | include/firebase/telemetry/persistence/detail/raw_span_data.h:181-213 | in mark order a removal with its swap only takes the span out; the moved span keeps its age |
| `SpanStore.EvictsHead` | src/mutable_span_data.cpp:33-47 | the scan over the marks finds the unique live span that was added longest ago |
| `SpanStore.RoomIsMade` | src/mutable_span_data.cpp:33-48 | a full store drops exactly the head of the queue, so that the add that follows always has room |
| `SpanStore.QueueOfState` | src/mutable_span_data.cpp:31-77 | the index knows exactly the ids in the queue, which are distinct, and the queue is as long as the count |
| `SpanStore.AddKeepsIndex` | src/mutable_span_data.cpp:50-52 | adding keeps the index a bijection between live ids and slots |
| `SpanStore.RemoveKeepsIndex` | src/mutable_span_data.cpp:64-77 | so does removing, with the moved span re-indexed before the target is erased |
| `SpanStore.RemoveKeepsMarks` | include/firebase/telemetry/persistence/detail/raw_span_data.h:181-213 | live marks stay distinct and in range, and every slot beyond the count has mark 0 |
| `SlotOrder.StepRefinesOrder` | src/mutable_span_data.cpp:31-77 | every call leaves the spans in the slots where appending and swap-with-last removal on a list of ids puts them |
| `SlotOrder.RunRefinesOrder` | src/mutable_span_data.cpp:31-77 | so which span lies in which slot after any run is a function of the calls alone |
| `SpanStore.StepRefinesQueue` | src/mutable_span_data.cpp:31-93 | every call keeps the invariant and is the step of a bounded insertion-ordered queue |
| `SpanStore.Run` | src/mutable_span_data.cpp:31-93 | every state a run reaches has index, marks and spans in agreement |
| `SpanStore.RunRefinesQueue` | src/mutable_span_data.cpp:31-93 | any run of calls is the same run of the bounded queue |
| `SpanStore.AddsKeepTheLast` | src/mutable_span_data.cpp:31-53 | after any run of adds of distinct ids on an empty store its queue is exactly the last of them, oldest first |
| `SpanStore.EndKeepsOk` | include/firebase/telemetry/persistence/detail/raw_span_data.h:156-162 | setting the end time changes the end time and nothing else that is read back |
| `Crash.AddCrash` | include/firebase/telemetry/persistence/detail/raw_span_data.h:107-123 | before its last store an add, torn or not, does not change what the scan finds |
| `Crash.AddStates` | include/firebase/telemetry/persistence/detail/raw_span_data.h:112-120 | the whole image at every store of an add: the slot is unmarked while its span is written, torn or not, then marked, and the count comes last |
| `Crash.NoTornSlotIsMarked` | include/firebase/telemetry/persistence/detail/raw_span_data.h:107-213 | at every store of every call, torn or not, each marked slot is live and holds a whole span, but for the one that is being added, which is marked, whole, before it is counted |
| `Crash.RemoveCrash` | include/firebase/telemetry/persistence/detail/raw_span_data.h:181-213 | at every store of a removal, exactly what the scan finds: all spans before the first store, all survivors after it, and after the third store of a swap also the moved span, and no other, a second time |
| `Crash.EditCrash` | include/firebase/telemetry/persistence/detail/raw_span_data.h:125-162 | every prefix of the stores of an edit leaves a span that reads as before, is the edited one, or has one existing value cut short |
| `Crash.OpStoresRun` | src/mutable_span_data.cpp:31-93 | the stores of a call, all made, are the step of the store |
| `Crash.CrashInCall` | src/mutable_span_data.cpp:31-93 | a crash at any store of any call leaves in the scanned slots the queue from before, from after, or one of the named mixtures; the only span found twice is the one in the last live slot, while a live one is taken out |
| `RawSpanStore.RawSpanData.Add` | include/firebase/telemetry/persistence/detail/raw_span_data.h:107-123 | makes its four stores in order: mark cleared, span, mark, count; returns the slot |
| `RawSpanStore.RawSpanData.Remove` | include/firebase/telemetry/persistence/detail/raw_span_data.h:181-213 | makes its two or five stores in order and returns the id of the moved span or 0 |
| `RawSpanStore.RawSpanData.SetAttributeOnSpan` | include/firebase/telemetry/persistence/detail/raw_span_data.h:125-154 | makes its byte stores in order, the count last; returns the slot written |
| `RawSpanStore.RawSpanData.SetEndTime` | include/firebase/telemetry/persistence/detail/raw_span_data.h:156-162 | one word store, at the end time of that span |
| `RawSpanStore.RawSpanData.RemoveAll` | include/firebase/telemetry/persistence/detail/raw_span_data.h:215-220 | clears the count first, then zeroes the slots |
| `RawSpanStore.RawSpanData.GetMark` | include/firebase/telemetry/persistence/detail/raw_span_data.h:164-167 | the mark of a slot |
| `MutableSpanStore.MutableSpanData.OldestSpanId` | src/mutable_span_data.cpp:34-43 | the loop finds the id of the head of the queue |
| `MutableSpanStore.MutableSpanData.DropOldestIfFull` | src/mutable_span_data.cpp:33-48 | when full, the state and the stores are those of removing the oldest; otherwise nothing happens |
| `MutableSpanStore.MutableSpanData.Add` | src/mutable_span_data.cpp:31-53 | a live id is left alone; else the queue drops its head if full and gains the span; its stores in order |
| `MutableSpanStore.MutableSpanData.Remove` | src/mutable_span_data.cpp:64-77 | the queue loses the span with that id, if any; its stores in order |
| `MutableSpanStore.MutableSpanData.SetAttributeOnSpan` | src/mutable_span_data.cpp:55-62 | the span with that id, if any, is edited; its stores in order |
| `MutableSpanStore.MutableSpanData.End` | src/mutable_span_data.cpp:79-93 | the span with that id, if any, gets the end time, or the clock's when none is given |
| `MutableSpanStore.MutableSpanData.Count` | src/mutable_span_data.cpp:27-29 | the count in the file is the length of the queue |
| `Startup.AlignedSizeIsLeast` | src/initialize.cpp:41-45 | for every positive page size the aligned size is the least number of whole pages that holds the layout, less than a page more than it |
| `Startup.ResetHeaderStates` | src/header.cpp:50-57 | every word of the header after each of its four stores: count first, then size, version and signature |
| `Startup.HeaderIsNeverMixed` | src/header.cpp:50-57 | so at none of them does the header vouch for a layout other than the one that was found or the target |
| `Startup.ResetHeaderEffect` | src/header.cpp:50-57 | after its four stores the header is valid, current and names the target |
| `Startup.RemoveAllEffect` | include/firebase/telemetry/persistence/detail/raw_span_data.h:215-220 | count 0, every byte of every slot 0, signature, version and size untouched |
| `Startup.StartUpIsFresh` | src/initialize.cpp:97-162 | whatever file is found, start-up ends with a current header for the target, count 0 and no mark set |
| `Startup.CountGoesFirst` | src/header.cpp:50-57 | from the first store of a start-up on, nothing is left to recover |
| `Startup.ResizedSpans` | src/initialize.cpp:47-59 | cutting or extending a whole file leaves all its spans or none |
| `Startup.StartUpCrashSafe` | src/initialize.cpp:97-162 | a crash at any step of a start-up, between any two sizes, leaves a file from which the next one recovers exactly the original list or nothing |
| `Initialize.RecoverSpans` | src/initialize.cpp:124-131 | the loop returns the decoded spans of the marked slots, in slot order |
| `Initialize.ResetHeader` | src/header.cpp:50-57 | four stores in order: count, size, version, signature |
| `Initialize.InitializeSpanData` | src/initialize.cpp:97-162 | recovers what the file holds, reuses or resizes it, and leaves the file, the bytes it started from, the stores in order, and an empty valid store |
| `Initialize.Context.constructor` | src/initialize.cpp:65-74 | keeps the recovered spans, starts unrecovered, with an empty index over a cleared store |
| `Initialize.Context.TakeRecoveredSpans` | src/initialize.cpp:82-85 | hands the spans over once |
| `Initialize.GetRecoveredSpans` | src/initialize.cpp:164-170 | the first call returns the recovered spans, later calls and a null context none |
| `Initialize.GetMutableSpanData` | src/initialize.cpp:172-179 | the store is out of reach exactly until the spans were taken |
| `SpanQueue.MeaningOfStored` | include/firebase/telemetry/persistence/span.h:113-139 | a stored span with NUL-free keys stands for that span cut to the limits |
| `SpanQueue.MeaningOfEdit` | src/mutable_span_data.cpp:55-93 | an edit of the bytes is the edit of the span they stand for |
| `SpanQueue.RunMeans` | src/mutable_span_data.cpp:31-93 | any run of calls with NUL-free keys is a run of a queue of spans that knows no bytes |
| `Sessions.FileAfter` | src/mutable_span_data.cpp:31-93 | after any session the file has its size, its header, and read as slots is the state of the store |
| `Sessions.SessionIsRecovered` | src/initialize.cpp:112-138 | whatever file a session found, the next start-up, if the file has a page for it, recovers exactly its live spans, in the order of their slots, and they are those of the queue |
| `Sessions.SessionIsSpecified` | src/initialize.cpp:112-138 | with NUL-free keys they are what the byte-free queue shows, each span in the place where the calls leave it |
| `Sessions.ChainRecoversLastSession` | src/initialize.cpp:97-162 | over any chain of sessions of any layouts and page sizes a start-up recovers the spans of the session before it in the order of their slots, nothing older and nothing lost |
| `Sessions.CrashAnywhere` | include/firebase/telemetry/persistence/detail/raw_span_data.h:107-213 | a crash at any store of any call in any run of any session: the next start-up can read the file and recovers the queue from before, from after, or with one of the named deviations |
| `SpanCrash.CrashMeans` | include/firebase/telemetry/persistence/detail/raw_span_data.h:107-213 | with NUL-free keys each queue a crash can leave in the bytes shows the byte-free queue before the call, after it, or with the oldest dropped, the moved span twice, or one value cut short |
| `Sessions.CrashIsSpecified` | include/firebase/telemetry/persistence/detail/raw_span_data.h:107-213 | so what is recovered after a crash at any store of any call in any session is said without the bytes |
| `Sessions.CrashThenCrashedStartUp` | src/initialize.cpp:97-162 | if the start-up after that crashes too, the one after it recovers the same spans or nothing |
| `Restarts.ManyCuts` | src/initialize.cpp:140-154 | a row of crashed start-ups leaves the file as it was, or with count 0, or cut at one of the sizes and as long as that or a later one |
| `Restarts.ManyCrashesSafe` | src/initialize.cpp:97-162 | any number of crashed start-ups leave all the spans or none, unless one asks for a size that cuts into the live slots and a later one for a size that holds the layout |
| `Restarts.ManyCrashesExact` | src/initialize.cpp:97-162 | for any row of sizes that condition is exact: all files with n live spans and all ways to crash keep all or nothing if and only if it holds |
| `Restarts.SmallThenLargeLoses` | src/initialize.cpp:140-154 | 17 spans, the small and then the large layout, pages of 4096 bytes: two crashes lose spans in part |
| `Restarts.ShrunkThenGrownIsReached` | src/initialize.cpp:140-144 | two crashed start-ups do leave the file shrunk and grown under its old header |
| `Restarts.ManyCrashesReadable` | src/initialize.cpp:47-59 | whatever the sizes, any row of crashed start-ups leaves a file that recovery can read in range |
| `History.HistoryIsReadable` | src/initialize.cpp:47-59 | whatever happened to a file since it was new, sessions that ended, sessions cut at any store and start-ups cut at any step, recovery can scan it in range |
| `Client.SessionCrash` | src/initialize.cpp:97-179 | every prefix of the stores of a process, torn or not, is that step of its start-up; or, from its last store on, a crash in the call whose stores come next, after those of them that were made |
| `Client.ProcessCrash` | src/initialize.cpp:97-179 | so a process that crashes before its first store leaves all the spans it found or none, during its start-up none, and from then on what a crash in the call in flight can leave |
| `Client.RunSession` | src/initialize.cpp:97-179 | a process that starts up, takes the spans and calls the store returns what the theorems say is recovered, leaves, byte for byte, the file they speak of, and makes exactly its stores in order |

## Left out

- Opening, closing and mapping the file, and their error returns: the file is its bytes, resizing cuts or extends with zeros.
- Ownership of the mapping and moves of the objects around it.
- The registration with Java, class caching and building of Java objects, and the Swift packaging; of the Java strings only the lengths are modelled, not their modified encoding.
- The dispatch over the three sizes in `src/span_data_impl.cpp` and the forwarding in `src/recovered_span_data.cpp`: a configuration parameter stands for both.
- `include/firebase/telemetry/persistence/detail/entry.h`, which the store does not use.
- The system clock and the page size are parameters.
- Threads, and two contexts on one file: the code has a single writer.
- Power loss, write-back order of pages and reordering by the compiler.
- InitializeSpanData: takes files that the recovery scan can read; a foreign file whose valid header lies about its count or whose marked spans lack a NUL makes the original read out of range. `HistoryIsReadable` says that no history of the library's own leaves such a file.
- RunSession: takes the files that its start-up takes.
- StartUpCrashSafe: speaks of files that are not shorter than a header with live spans asks for, which is what the store and a crash in a session leave; `ManyCrashesExact` says what follows for shorter ones.
- SetsRefineMap: is about NUL-free keys, distinct at the start; `KeyEqualsExactly` says what other keys do.
- SetAttributeOnSpan: reads the raw span as a snapshot before it writes, since nothing is written until the slot is found.
