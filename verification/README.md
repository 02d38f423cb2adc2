# A verified model of a Git packfile and object library

This project models the part of the Go package `gg-scm.io/pkg/git` that reads and writes Git's
own data, and proves what it promises: the packfile engine (`packfile/`), the codecs for trees
and commits (`object/`), and the stream multiplexers (`internal/pktline`, the packfile reader of
`packfile/client`, the line-merging writer of `log.go`). `dafny verify dfyconfig.toml` checks
everything.

## How it is built

Bytes are integers from 0 to 255, and bit operations are written as arithmetic. What the source
does step by step is a method with loops, or a class whose methods update its fields, proved
against a function on byte strings; the theorems are about those functions, and hold for the
methods by their contracts.

zlib, SHA-1 and CRC-32 are fields of a value `Library` that the theorems quantify over. Where a
result needs a property of them it says so: `InflatesDeflated` (what was compressed is
decompressed, whatever follows), `SelfDelimiting` (decompression does not look behind the end of
a stream), and `CollisionFree`, which speaks only of the objects that occur in one pack.

### The packfile engine

* `Pack` says what a pack means. It maps offsets to whole objects, deltas by offset and deltas by
  ID; a chain of offsets resolves to an object by applying each delta to the object below it.
  A row is `Expected` in the complete index if some chain yields its object at its offset.
* `Crawler` is the concurrent part of `BuildIndex` as a transition system: the main goroutine,
  the crawl goroutines, the semaphore with two indexers, the wait group, the two maps of waiting
  children and the growing index. A list of enabled actions is an interleaving; `Tokens`,
  `Claims` and `Soundness` are its invariants, and `Crawl` has the theorems.
* `BasePass` is the serial pass that hands the crawl its base index. `BuildIndex` joins the two
  and relates the result to `Undeltify`, the chain walk and the loop that swaps two buffers;
  `WalkEnds` says when that walk ends.
* `Delta` is the incremental delta interpreter, a refinement of the whole-delta function
  `Semantics`; `DeltaSize` relates it to `DeltaObjectSize` and to lists of instructions, and
  `DeltaEnds` and `DeltaParse` say for every delta where, how and why its output ends.
* `OffsetCode`, `Varint` and `PackFormat` are the number and header codes. `PackWriter` and
  `PackReader` are the two state machines, `PackBytes` the file they agree on and `Session`
  complete uses of them.
* `FanOut`, `OffsetTables`, `IndexCodec` and `IndexFile` are the index file formats, as functions
  and as loops. `EndToEnd` takes a built index through a file and back to the objects.

### Objects

* `TreeOrder` is the comparison of tree entries and what order it is; `Tree` searches, sorts and
  finds duplicates with it; `TreeCodec` is the serialized form.
* `Commits` is the commit format as parsing and printing functions, built from `HexLines` (tree
  and parents), `UserLines` and `Zones` (author and committer) and `HeaderLines` (extra fields
  and signature); `CommitCodec` has the loops, `CommitFields` the lookup of extra fields.

### Streams

* `PktLine` and `PackStream` are packets and their demultiplexing. The leftover of a packet is
  modelled as a window onto the packet reader's array, so that reuse of the buffer is part of
  the proof.
* `Seeker` is buffering in front of a source that can seek.
* `MuxWriter` merges lines of several handles into one sink. A handle's buffer is its own and the
  sink is only used under the lock, so an interleaving is a sequence of whole operations.

### The formats by their bytes

Round trips hold for any pair of inverse codes, so the formats are also stated by the bytes Git
names, in modules that use literal bytes and plain arithmetic: `DeltaBytes` (delta instructions),
`PackRules` (packfiles), `ObjectIds` (what the IDs and checksums of a built index are computed
from), `IndexLayout` and `IndexReads` (index files, written and read), `TreeModes` (mode bits, the
tree order, entries), `CommitText` (commits), `PktBytes` (packets) and `MuxAccept` (which writes
are accepted).

## Where code and documentation differ

The model follows the code.

* `DeltaReader.Size` is documented as the expected size, and nothing compares it with the bytes
  produced; no statement here uses it as a bound.
* `EncodeV1` says that it refuses packfiles larger than 4 GiB and refuses only offsets of 2^33 and
  more; `OffsetsKeptV1` gives the exact condition, and `OffsetLostV1` an index that fails it.
* `Tree.MarshalBinary` is documented to refuse duplicates and refuses only neighbours out of
  order; `TreeCodec.MarshalUnmarshal` gives the exact condition, and `DuplicatePrinted` a tree.
* After `WriteHeader` has failed for lack of objects left, the last compressed stream is closed,
  and `Close` closes it again: it succeeds, with stray bytes before the trailer.
  `Session.AnySession` gives the exact condition for a complete file, and
  `Session.SurplusHeader` is such a session.
* `Commit.Extra` is documented as the lines before the signature; a line in it that starts with
  `gpgsig ` passes `IsValid` and is read back as the signature; `Commits.MarshalUnmarshal` gives the
  exact condition, and `SignatureInExtra` such a commit.

## Model

| member | source | states |
|---|---|---|
| Crawl.Outcome | packfile/buildindex.go:102-150 | Every interleaving that reaches the end reports an error if and only if some delta whose base can be obtained does not apply; without one, the index holds each row of the complete index exactly once (all whole objects, and each delta that some chain of offset and ID links reaches) and nothing else |
| BuildIndex.Deterministic | packfile/buildindex.go:40-151 | Two interleavings, even from differently arranged base indexes, never disagree whether the pack can be indexed, return the same rows as multisets, and the very same sorted sequence when IDs are distinct |
| BuildIndex.IndexableIff | packfile/buildindex.go:102-151 | From any valid base some interleaving returns an index if and only if every delta whose base can be obtained applies to it |
| Crawl.Reachable | packfile/buildindex.go:279-380 | Every state of every interleaving satisfies the token, claim, soundness and progress invariants together |
| Crawl.TokensConserved | packfile/buildindex.go:293-337 | In every reachable state free indexers plus indexers held by goroutines are two, no indexer is in two places, and the wait group counts exactly the goroutines that have not finished |
| Crawl.NoSharing | packfile/buildindex.go:317-337 | Two goroutines never hold the same indexer, and a held indexer is not in the semaphore |
| Crawl.BlockedHoldsNone | packfile/buildindex.go:309-337 | A live goroutine that cannot move is waiting for the semaphore, which is then empty, and holds no indexer |
| Crawl.NoDeadlock | packfile/buildindex.go:309-337 | As long as BuildIndex has not passed its wait, some goroutine can move |
| Crawl.EveryRunEnds | packfile/buildindex.go:317-371 | The length of every interleaving is bounded by eight steps per delta, two per root and waiting ID, and four more |
| Crawl.Completes | packfile/buildindex.go:102-151 | Every partial interleaving can be continued to one in which BuildIndex has returned |
| Crawl.WaitIsFinal | packfile/buildindex.go:364-371 | When wait has returned no goroutine is live and none can start: no action is enabled any more |
| Crawl.BrokenReported | packfile/buildindex.go:317-323 | A delta that does not apply is always found and reported, whatever the interleaving |
| Tokens.TokenStep | packfile/buildindex.go:309-337 | Every action keeps both indexers in exactly one place each and the wait group exact |
| Claims.ClaimStep | packfile/buildindex.go:341-362 | Every action keeps the account: each delta is waiting in a map, owed by one goroutine, or has one row, never two of these |
| Soundness.SoundStep | packfile/buildindex.go:341-362 | Every action keeps this: a row is justified by a chain all of whose members have rows, and what a goroutine is about to process is a base that some chain yields |
| Soundness.ProgressStep | packfile/buildindex.go:341-362 | Every action keeps this: no delta waits for an offset or an ID that already has a row |
| Pack.ContentUnique | packfile/buildindex.go:341-362 | Without ID collisions inside the pack, every chain that leads to an offset yields the same object, even if a delta names its base by an ID that several offsets share |
| BasePass.ScanObjects | packfile/buildindex.go:178-268 | The serial pass fails exactly when the bytes are not that many objects of their declared sizes, and otherwise yields a valid base: whole objects as rows, every delta waiting exactly once under its base, every present offset base among the roots, and the reader just behind the last object |
| BasePass.BaseIndexPass | packfile/buildindex.go:178-268 | The same after sorting the rows by ID |
| BasePass.ReadBase | packfile/buildindex.go:40-70 | From a whole file: refused exactly when header, objects, checksum or length are wrong, otherwise a valid sorted base |
| BasePass.AddObject | packfile/buildindex.go:193-261 | Adding one object in file order keeps the pass invariant; a whole object of type code 1, 2, 3 or 4 adds one row, whose ID is the hash of "commit", "tree", "blob" or "tag", a space, the length in decimal, NUL and the data, and a delta adds no row |
| BasePass.AddOfs | packfile/buildindex.go:227-236 | A delta by offset is put under its base, and the base is a root exactly when it is a whole object; the search relies on offsets ascending during the pass |
| BasePass.SearchInt64 | packfile/buildindex.go:270-276 | Binary search in ascending offsets finds a position of the value, or -1 exactly when there is none |
| BasePass.ReadObject | packfile/buildindex.go:195-213 | Reading header and compressed data at a position gives the object stored there and stops at its end |
| PackFile.ReadSection | packfile/buildindex.go:341-349 | The bytes that belong to one object, cut out of the file, are read as the same data even though the header is parsed as if at offset zero |
| PackFile.ObjectsAscend | packfile/buildindex.go:193-261 | Objects read one after the other lie one behind the other, each readable again at its offset |
| BuildIndex.IndexedUndeltifies | packfile/delta.go:270-351 | For a built index with pairwise distinct IDs, undeltifying at any indexed offset ends and yields an object whose hash is the indexed ID |
| BuildIndex.FollowsChain | packfile/delta.go:318-351 | Undeltification follows any chain of recorded objects and computes exactly what the chain means |
| BuildIndex.TypeResolved | packfile/delta.go:235-241 | ResolveType gives the type of the object that Undeltify gives |
| WalkEnds.EndsIff | packfile/delta.go:331-349 | The walk from an offset ends if and only if it meets no offset twice, by offset links, by ID links or both; and if it ends at all, within as many deltas as the file has bytes |
| WalkEnds.EndsByOffset | packfile/delta.go:331-349 | Where every delta on the way names its base by offset, the walk ends if and only if none of them has distance zero |
| WalkEnds.SelfDelta | packfile/delta.go:331-349 | Two bytes on which the walk never ends: a delta at distance zero |
| WalkEnds.RefCycle | packfile/delta.go:331-349 | A delta by ID and an index that has the ID at the delta itself: the walk never ends either |
| BuildIndex.SelfBaseNeverEnds | packfile/delta.go:331-349 | In any file, a delta whose encoded distance is zero is its own base, and following it never ends: one family that EndsIff describes |
| BuildIndex.NoDeltas | packfile/buildindex.go:72-75 | The early return for a pack without deltas returns exactly the complete index |
| Undeltify.WalkedMeaning | packfile/delta.go:298-310 | For chains of every length, patching the root object through the stack from its top down gives what the recursive definition gives: my delta applied to my base's content |
| Undeltify.WalkDeltaChain | packfile/delta.go:318-351 | The loop finds the root header and stacks the compressed bodies from target to root, leaving the reader at the root's data, or fails where the definition does |
| Undeltify.FindBase | packfile/delta.go:331-344 | The base of a delta: its offset, or where the index has its ID |
| Undeltify.ResolveType | packfile/delta.go:235-241 | The type of the object at the end of the chain |
| Undeltify.Undeltifier.Undeltify | packfile/delta.go:270-310 | Type and content equal the recursive definition, whatever the two buffers held before |
| Undeltify.Undeltifier.Unwind | packfile/delta.go:298-310 | The loop that swaps the two buffers computes the whole patch sequence |
| Undeltify.Undeltifier.Expand | packfile/delta.go:355-381 | One step writes the target buffer only and leaves the base buffer it reads as it was |
| Delta.ReadCopyBaseInstruction | packfile/delta.go:185-216 | The bit-accumulating loops read the arguments that the format function ParseCopy finds and stop behind them; DeltaBytes.CopyByRule says in plain arithmetic which bit stands for which byte |
| Delta.ReadDeltaHeader | packfile/delta.go:70-79 | Both sizes are read and the second returned |
| Delta.DeltaReader.Init | packfile/delta.go:52-68 | The header is consumed once; sizes of 2^63 and more are refused; what is pending does not change |
| Delta.DeltaReader.Read | packfile/delta.go:93-116 | Each call returns the next bytes of the pending output, whatever the buffer size and however short the reads of base and delta; an error is the output's own ending, reported when nothing before it is left |
| Delta.DeltaReader.ReadInstruction | packfile/delta.go:118-146 | Decoding an instruction sets up its source without changing what is pending |
| Delta.Drain | packfile/delta.go:93-116 | Reading to the end delivers exactly the whole-delta semantics: bytes and ending |
| DeltaSize.ExpandEncoded | packfile/delta.go:118-216 | For every list of copy and insert instructions with operands in range, the interpreter run on their encoding yields the concatenation of the copied ranges and inserted data |
| DeltaEnds.ExpandBehind | packfile/delta.go:93-146 | Good instructions in front produce what they describe, and the interpreter then goes on with whatever follows |
| DeltaEnds.CopyOutside | packfile/delta.go:93-146 | A copy that leaves the base delivers what there is of the base and ends the output with an unexpected end, whatever comes after it; one half of TruncatedIff, with the bytes |
| DeltaEnds.CutAnywhere | packfile/delta.go:93-146 | An encoding cut at any byte yields a prefix of what it describes, and ends cleanly exactly between instructions and with an unexpected end inside of one |
| DeltaParse.TakeApart | packfile/delta.go:118-216 | Every string of bytes is a list of good instructions and then nothing, the reserved instruction, an instruction cut off inside, or a copy that leaves the base |
| DeltaParse.TruncatedIff | packfile/delta.go:93-146 | For every delta and base: the end is unexpected if and only if, behind good instructions, the delta is cut off inside an instruction or a copy leaves the base |
| DeltaParse.SemanticsTruncatedIff | packfile/delta.go:52-146 | The same for a whole delta with its header, which is the ending Read reports |
| DeltaParse.CleanIff | packfile/delta.go:93-146 | For every delta and base: the end is clean if and only if the delta is good instructions and nothing else, and the output is then what they describe |
| DeltaParse.UnknownIff | packfile/delta.go:142-144 | For every delta and base: an unknown instruction is reported if and only if the byte behind good instructions is zero |
| DeltaSize.SizeAgrees | packfile/delta.go:150-216 | A delta runs cleanly if and only if its sizes can be summed and every copy lies inside the base; the sum is then the number of bytes produced |
| DeltaSize.ObjectSizeAgrees | packfile/delta.go:150-183 | The same with the header: applying succeeds if and only if DeltaObjectSize succeeds, every copy lies inside the base and the declared size is below 2^63; DeltaObjectSize is then the length of the result |
| DeltaSize.DeltaObjectSize | packfile/delta.go:150-183 | The loop computes that sum, and fails where it is undefined |
| OffsetCode.DecodeEncode | packfile/writer.go:195-214 | Encode then decode gives the distance back if and only if it is below 2^7+2^14+...+2^56, whatever follows; larger ones are refused |
| OffsetCode.EncodeDecode | packfile/reader.go:235-251 | Whatever is decoded, the bytes consumed are the very encoding of the value: no overlong forms |
| OffsetCode.EncodeUnique | packfile/writer.go:195-214 | Every complete group sequence is the encoding of its value: the code is onto |
| OffsetCode.EncodeSize | packfile/reader.go:238-250 | The encoding has at most eight bytes exactly for the distances the reader accepts |
| OffsetCode.LoopEndsIff | packfile/writer.go:195-208 | The shift in the encoding loop ever gives zero, which alone ends it, if and only if the argument is neither positive nor the least int64 |
| OffsetCode.AppendOffset | packfile/writer.go:195-214 | For those arguments the loop and the reversal append exactly the encoding; every intermediate value is an int64 |
| OffsetCode.ReverseFrom | packfile/writer.go:209-212 | The swapping loop reverses the tail and leaves the rest alone |
| OffsetCode.ReadOffset | packfile/reader.go:235-251 | The loop decodes and negates, never overflowing an int64, and stops where the code ends |
| Varint.DecodeEncode | packfile/writer.go:186-192 | Every 64-bit number in base 128 comes back, whatever follows it |
| Varint.Read | packfile/reader.go:215-218 | binary.ReadUvarint as a loop, with its limit of ten bytes and 64 bits |
| PackFormat.HeaderRoundTrip | packfile/reader.go:182-202 | A written object header is read back, with the fields its type does not use cleared, unless the base is too far away |
| PackFormat.LengthTypeRoundTrip | packfile/writer.go:174-183 | Every valid type and every size below 2^63 come back, whatever follows |
| PackFormat.HeaderSection | packfile/reader.go:174-202 | Parsing a header consumes the same bytes at any assumed offset |
| PackFormat.ReadObjectHeader | packfile/reader.go:182-202 | The reader follows the header grammar and stops behind it |
| PackFormat.ReadLengthType | packfile/reader.go:204-232 | Type and size, with types 0 and 5 and sizes of 2^63 and more refused |
| PackWriter.AppendVarint | packfile/writer.go:186-192 | The loop appends the base-128 form |
| PackWriter.AppendLengthType | packfile/writer.go:174-183 | Type and size are appended in the form the reader parses |
| PackWriter.Writer.WriteHeader | packfile/writer.go:75-124 | Succeeds exactly for a valid type and base, a completed previous object and an object left to write; returns the offset where the header really lies, and closes the previous object's stream; when no object is left it has closed that stream all the same, and otherwise a refusal changes nothing |
| PackWriter.Writer.Write | packfile/writer.go:126-151 | Accepts at most the declared size, and reports an error exactly when given more |
| PackWriter.Writer.Close | packfile/writer.go:153-172 | Succeeds exactly when the declared number of objects was begun and the last is complete; the output is then the objects, the stray bytes and a checksum, and the complete file if and only if there are no stray bytes, that is if no header was offered in excess and no Close had succeeded |
| PackWriter.SpoiltIff | packfile/writer.go:75-172 | A session is spoilt if and only if one of its calls was a header too many or a Close that succeeded |
| Session.AnySession | packfile/writer.go:75-172 | For every sequence of calls and a Close at its end: it succeeds exactly when the objects promised were begun and nothing is missing of the last, and leaves the complete file if and only if no earlier call was a header too many or a Close that succeeded |
| Session.SurplusHeader | packfile/writer.go:93-105 | The session that fails: one empty object, one header too many, and a Close that succeeds without leaving a complete file |
| PackReader.Reader.Next | packfile/reader.go:86-122 | Skips what is left of the current object, reports an object that does not have its declared size, then the next header or the end of the pack |
| PackReader.Reader.Read | packfile/reader.go:126-146 | Never hands out more than the declared size; the end of the object is reported exactly when size and data end together, and a short or long object otherwise |
| Session.WriteSession | packfile/writer.go:75-172 | Writing any acceptable objects, however each is split into writes, produces the file of those objects, and the returned offsets are where they lie |
| Session.ReadSession | packfile/reader.go:86-146 | Reading that file back gives the same headers at those offsets and then the end of input, whatever is skipped; data arrives in order however reads are split, completely if enough is read |
| PackBytes.WrittenAt | packfile/reader.go:182-202 | In a written file, with anything behind it, each object can be read at its offset |
| PackBytes.WrittenIndexes | packfile/buildindex.go:40-70 | A written file passes every check of BuildIndex's serial part and holds exactly the objects written |
| Index.FindID | packfile/index.go:402-413 | Binary search finds the first row with the ID, or -1 exactly when there is none |
| FanOut.EncodeFanOut | packfile/index.go:356-377 | The runs written by the loops are the table whose entry for a byte is the number of IDs that start with it or a lower one |
| FanOut.FanShape | packfile/index.go:356-377 | The table has exactly 256 entries of four bytes, entry b counting the IDs whose first byte is at most b |
| FanOut.CountMonotone | packfile/index.go:356-377 | The entries never go down, and the last one is the number of IDs |
| OffsetTables.OffsetsRoundTrip | packfile/index.go:261-286 | Through the 32-bit and the large table offsets come back in any mixture, if and only if none is negative |
| OffsetTables.EntryOwned | packfile/index.go:133-170 | Each large entry is referred to, and owned, by just the row it was written for |
| OffsetTables.LargeCountIs | packfile/index.go:133-155 | The reader expects exactly as many large entries as were written |
| IndexCodec.RoundTripV2 | packfile/index.go:236-299 | A version 2 file reads back as the very index written, consuming the stream exactly, if and only if no offset is negative |
| IndexCodec.RoundTripV1 | packfile/index.go:304-336 | A version 1 file keeps IDs and the low 32 bits of the offsets, and is read as version 1 |
| IndexCodec.OffsetsKeptV1 | packfile/index.go:304-336 | Version 1 keeps the offsets if and only if all are in [0, 2^32), although the encoder refuses only those of 2^33 and more |
| IndexCodec.OffsetLostV1 | packfile/index.go:313-323 | An index with one object at offset 2^32 is encoded and read back with offset zero |
| IndexCodec.NeverMagic | packfile/index.go:67-82 | The magic test never mistakes a version 1 file for version 2, because its fan-out table cannot go down |
| IndexCodec.DecodeWellFormed | packfile/index.go:67-223 | Whatever file is accepted, of either version, the index has as many offsets as IDs, IDs strictly ascending and offsets in [0, 2^63) |
| IndexCodec.BuiltValid | packfile/index.go:338-354 | A built index passes validate exactly when its IDs are pairwise distinct |
| IndexFile.Validate | packfile/index.go:338-354 | Comparing neighbours decides whether all IDs ascend strictly |
| IndexFile.WriteV2 | packfile/index.go:236-299 | The loops write the version 2 format, or refuse what validate refuses |
| IndexFile.WriteV1 | packfile/index.go:304-336 | The loops write the version 1 format, or refuse |
| IndexFile.WriteSmall | packfile/index.go:261-277 | The 32-bit entries and the count of large ones |
| IndexFile.ReadIds | packfile/index.go:122-131 | Reading and checking IDs one by one accepts exactly the strictly ascending tables |
| IndexFile.ReadOffsets | packfile/index.go:138-163 | The growing list records the last row that refers to each large entry, -1 where none does |
| IndexFile.ReadLarge | packfile/index.go:164-177 | Each large entry is patched into its own row; unused ones are skipped; a used one of 2^63 or more is refused |
| IndexFile.ReadV2 | packfile/index.go:111-179 | The whole version 2 reader agrees with the format function, result and stream position |
| IndexFile.ReadV1 | packfile/index.go:181-210 | So does the version 1 reader behind the eight bytes read ahead |
| IndexFile.ReadIndex | packfile/index.go:67-97 | Version test, body and checksum of everything read agree with the format function |
| EndToEnd.StoredIndexServes | packfile/index.go:67-97 | A built index with distinct IDs, written as a file and read back, still finds every object by its ID, and undeltifying there with the index read ends and yields an object with that ID as its hash |
| TreeOrder.LessIsKeyOrder | object/tree.go:248-283 | The branches compute lexicographic order of names with a slash behind directory names, for all arguments but one family: a directory and another directory named like it with a slash appended |
| TreeOrder.SlashBreaksOrder | object/tree.go:248-283 | On that family the order fails: different entries compare as equal both ways |
| TreeOrder.StrictTotalOrder | object/tree.go:151-153 | On slash-free names it is a strict total order up to equal name and kind |
| Tree.AdjacentSorts | object/tree.go:50-85 | Checking neighbours decides whether the whole tree is strictly sorted |
| Tree.SearchKind | object/tree.go:131-136 | The binary search for a name and kind finds it in an orderly tree, and never returns a wrong name in any tree |
| Tree.SearchName | object/tree.go:116-129 | In an orderly tree an entry with the name is returned exactly when there is one, for every query |
| Tree.IsLastDuplicated | object/tree.go:176-192 | Exact on sorted slash-free trees however far file and directory of one name are apart, and without false alarms on any tree |
| Tree.SortTree | object/tree.go:164-172 | Entries are only rearranged and distinct names never reported, whatever the names; with slash-free names the tree ends up sorted, in the order that TreeModes.OrderByMask gives by bytes and mode bits, and a duplicate is reported whenever there is one |
| Tree.SortedDistinct | object/tree.go:164-172 | A tree that Sort accepts is strictly sorted, so it can be printed and searched |
| Tree.SortedTreeUnique | object/tree.go:101-112 | The sorted tree, and so its hash, depends on the entries alone, not on their order before |
| TreeCodec.MarshalUnmarshal | object/tree.go:50-85 | What is printed is accepted and read back as the same tree exactly when no two entries share a name |
| TreeCodec.DuplicatePrinted | object/tree.go:50-85 | A file "a" and a directory "a" are printed, and the result is not accepted |
| TreeCodec.UnmarshalMarshal | object/tree.go:67-85 | An accepted tree prints as the bytes it was read from exactly when no mode has zeros in front |
| TreeCodec.MarshalBinary | object/tree.go:50-63 | Refuses exactly trees out of order and names with NUL |
| TreeCodec.UnmarshalBinary | object/tree.go:67-85 | Accepts every ordered tree with distinct names; what it accepts is ordered, and with slash-free names free of duplicates |
| TreeCodec.ParsePrinted | object/tree.go:201-242 | A printed entry is parsed back, whatever follows it |
| Commits.MarshalUnmarshal | object/commit.go:82-224 | A written commit is read back, with its times in normal form, if and only if both zones fit their text and no extra line starts with "gpgsig " |
| Commits.MarshalUnmarshalSame | object/commit.go:82-224 | It is read back as the very same commit if and only if, besides, both zones are named by their offsets |
| Commits.SignatureInExtra | object/commit.go:140-147 | Extra lines "gpgsig " pass every check of the printer and do not come back |
| Commits.UnmarshalMarshal | object/commit.go:82-224 | An accepted commit prints as the very bytes it was read from if and only if they have lower-case IDs, canonical timestamps and no NUL in users and extra lines |
| Commits.UnmarshalWellFormed | object/commit.go:82-168 | Whatever is read has zones named by their offsets, extra lines without blank ones and without signature lines, and a signature that can be printed |
| CommitCodec.UnmarshalBinary | object/commit.go:82-168 | The loops over parents, extra lines and signature lines compute the grammar |
| CommitCodec.MarshalBinary | object/commit.go:176-203 | The buffer ends up with the printed commit, or the commit is refused |
| CommitCodec.ConsumeSignature | object/commit.go:307-326 | The signature is the first line and the spaced lines behind it, without their spaces |
| CommitCodec.WriteGPGSignature | object/commit.go:362-384 | Every terminated line is written behind a space; an unterminated one is refused |
| CommitCodec.ConsumeTail | object/commit.go:132-158 | Extra lines up to the signature or the blank line |
| HeaderLines.ParsePrintedSignature | object/commit.go:307-384 | A printed signature is read back, and the blank line behind it ends the header |
| HeaderLines.PrintParsedTail | object/commit.go:132-158 | Extra lines and signature read print as what they were read from |
| HeaderLines.GoodExtra | object/commit.go:451-456 | Fields that pass IsValid are read back as extra lines exactly when none starts with "gpgsig " |
| UserLines.ParsePrintedUser | object/commit.go:205-305 | A user line is read back for any safe user and timestamp, unless the zone does not fit its text |
| UserLines.PrintParsedUser | object/commit.go:205-305 | A user line read prints as itself exactly when its timestamp is canonical |
| Zones.FormatParses | object/commit.go:216-224 | The text of an offset is parsed back, cut to whole minutes, exactly below 100 hours, and longer texts are refused; CommitText.ZoneByRule and FormatByRule say which sign and digits mean what |
| Zones.TextParses | object/commit.go:216-350 | A zone name that says its offset is kept verbatim, any other becomes the offset's text |
| HexLines.ParsePrintedParents | object/commit.go:102-118 | The parent list is read back, up to the first line of another kind |
| HexLines.PrintParsedParents | object/commit.go:102-118 | Parent lines read print as themselves exactly when all IDs are in lower case |
| CommitFields.LookupFields | object/commit.go:497-511 | Looking a key up among fields put together from pairs gives the first such pair's value, line for line |
| CommitFields.CutFirstField | object/commit.go:459-472 | The first field ends at the first line end that no continuation follows |
| CommitFields.CutLoop | object/commit.go:459-472 | The loop computes that cut |
| CommitFields.Get | object/commit.go:497-507 | The loop computes the lookup |
| CommitFields.NormalizeFold | object/commit.go:509-511 | Folding a value onto continuation lines and normalizing it gives the value back |
| CommitFields.FieldsNoBlank | object/commit.go:451-456 | Fields put together from pairs contain no blank line, so only NUL can make them invalid |
| Numerals.ParsePrintedInt | object/commit.go:292-295 | Printed 64-bit integers are parsed back |
| Numerals.PrintParsedInt | object/commit.go:292-295 | A parsed number prints as its text exactly when that had no plus sign, no zeros in front and was not "-0" |
| PktLine.AppendThenRead | internal/pktline/pktline.go:65-205 | Every sequence of packets that can be appended is read back, and what follows them is left as it is |
| PktLine.EncodeParsed | internal/pktline/pktline.go:73-114 | A packet is consumed exactly; it prints as the bytes consumed exactly when the length was in lower case and a data packet is not empty |
| PktLine.Reader.Next | internal/pktline/pktline.go:65-114 | The packet read is the first of the input, the buffer is replaced only by a larger one, and an error is final |
| PackStream.DemuxSent | packfile/client/pull.go:281-313 | What was sent on channels 1 and 2 arrives separately and in order, up to the packet that ends the stream, which decides the error |
| PackStream.PackfileReader.Read | packfile/client/pull.go:265-279 | Each call delivers the next pack bytes owed and writes the next progress messages owed, for every buffer size; an ending is reported only when nothing is owed, and stays |
| PackStream.PackfileReader.ReadPackets | packfile/client/pull.go:281-313 | The leftover is a window onto the packet buffer; packets are read into it only when the window is empty |
| PackStream.ReadAll | packfile/client/pull.go:265-313 | Reading to the end with buffers of any sizes delivers exactly the channels' content |
| Seeker.BufferedReadSeeker.Seek | packfile/delta.go:427-450 | For all three whence values the position returned and reached is that of a plain source at the position the caller sees, including the path that only discards buffered bytes |
| Seeker.Bufio.Read | packfile/delta.go:416-418 | The contract of a plain source's Read at the position the caller sees |
| Seeker.Bufio.ReadByte | packfile/delta.go:422-424 | The contract of a plain source's ReadByte at that position |
| Seeker.Run | packfile/delta.go:391-450 | Over every sequence of Read, ReadByte, full reads and Seek the answers are ones an unbuffered source may give at the position the caller sees, for every buffer size and however short the source's reads are; only the length of a single short read is open |
| MuxWriter.FreshRuns | log.go:301-371 | In every interleaving of any number of handles, whatever the sink accepts and whenever it fails, each handle's accepted bytes are its share of the sink and then its buffer; while the sink accepts everything and nobody flushes, the sink holds whole lines only, each of one handle |
| MuxWriter.RunConserves | log.go:319-371 | Every run keeps accepted bytes equal to share plus buffer for all handles |
| MuxWriter.RunLines | log.go:319-350 | Every run without sink errors and flushes keeps the lines whole |
| MuxWriter.WriteConserves | log.go:319-350 | One write, with every way the sink can answer: no byte is lost or doubled, and a short count comes with an error |
| MuxWriter.Stream.Write | log.go:319-350 | The method on the fixed-size buffer does just that; all data is taken without an error exactly when, without a line end, it fits the 1024 bytes behind what is buffered, and otherwise when the sink reports no error to the flush and the lines and at most 1024 bytes follow the last line end; the sink is called for the buffer and the lines only |
| MuxWriter.Stream.FlushLocked | log.go:358-371 | What the sink did not take is moved to the front of the buffer |
| ObjectIds.IndexedId | packfile/buildindex.go:383-420 | Every row of a built index with distinct IDs: the walk from its offset ends at a whole object, bits 4 to 6 of the file byte there are 1, 2, 3 or 4, undeltifying gives that type and some data, and the ID is the SHA-1 of "commit", "tree", "blob" or "tag", a space, the length in decimal, NUL and the data |
| ObjectIds.WholeIndexed | packfile/buildindex.go:238-261 | An object whose header byte has type code 1 to 4 has a row in every index built, and every row at its offset has that hash as ID and the CRC of exactly its bytes in the file, from its header to the end of its stream |
| ObjectIds.WholeReads | packfile/reader.go:278-291 | At an object whose header byte has type code 1, 2, 3 or 4, undeltifying and resolving the type give Commit, Tree, Blob or Tag and the inflated data, with any index |
| ObjectIds.RootCode | packfile/delta.go:318-351 | The root of every delta chain is a whole object, and its type is bits 4 to 6 of the byte at its offset |
| PackFile.IdBytes | object/object.go:121-127 | The bytes an ID is the hash of, for each of the four type codes, written out |
| Numerals.DecimalDigits | object/object.go:121-127 | Decimal text, digit by digit: a number below ten is one character from 0x30 up, and ten times a number plus a digit is its text and that character |
| DeltaBytes.CopyByRule | packfile/delta.go:185-216 | A copy instruction in plain arithmetic: bit i of the first byte announces byte i of four offset bytes and three size bytes, least significant first, those not written being zero; size zero means 0x10000; it expands to exactly that range of the base and then to what follows, and adds that size to the computed size |
| DeltaBytes.InsertByRule | packfile/delta.go:138-141 | A first byte from 1 to 127 inserts as many of the bytes behind it, and adds that number to the computed size |
| DeltaBytes.ZeroByRule | packfile/delta.go:142-144 | A first byte of zero is reported as unknown, and no size is computed |
| DeltaBytes.HeaderByRule | packfile/delta.go:52-79 | Two sizes in groups of seven bits, lowest first; the second is the declared size, refused from 2^63 on; what follows is interpreted |
| DeltaBytes.SizeReadIff | packfile/reader.go:215-218 | A variable-length number is read exactly where groups of seven bits, at most ten and below 2^64, are written |
| DeltaBytes.CopyThenInsert | packfile/delta.go:93-183 | A whole delta of eight literal bytes: it makes the first five bytes of the base and three of its own, and its computed size is eight |
| PackRules.PackByRule | packfile/buildindex.go:40-70 | A file is the pack of these objects if and only if it starts with "PACK", version 2 and their number, they lie end to end behind that with the sizes they declare, and its last twenty bytes, right behind them, are the hash of all before |
| PackRules.FileHeaderByRule | packfile/reader.go:63-84 | A file header is accepted exactly when the first eight bytes are "PACK" and version 2; the count is the 32-bit big-endian number behind them |
| PackRules.WrittenByRule | packfile/writer.go:53-73 | A written file starts with those bytes and the number of its objects, and ends with the hash of all before |
| PackRules.ObjectByRule | packfile/reader.go:182-202 | An object from its bytes: type in bits 4 to 6 of the first byte, size in its low four bits and the groups behind, then for type 6 a distance back, for type 7 twenty bytes of ID, then the compressed data; types 0 and 5 are refused |
| PackRules.DistanceByRule | packfile/reader.go:235-251 | A distance is the number its seven-bit groups make, highest first, plus 2^7 + 2^14 + ... for each group but the first |
| PackRules.SizeTooLarge | packfile/reader.go:215-230 | A size of 2^63 or more is refused |
| PackRules.DistanceTooLong | packfile/reader.go:235-251 | A distance of more than eight bytes is refused |
| IndexLayout.LayoutV2 | packfile/index.go:236-299 | Where everything lies in a version 2 file: magic, for each b the number of IDs whose first byte is at most b, and for each row its ID, checksum and offset, a large one through its place in the 64-bit table; then the pack checksum and the hash of all before |
| IndexLayout.LayoutV1 | packfile/index.go:304-336 | Where everything lies in a version 1 file: the counts, then for each row the low 32 bits of its offset and its ID, and both checksums |
| IndexReads.ReadByRule | packfile/index.go:67-179 | Every file with the magic of version 2, whoever wrote it: accepted if and only if it is as long as its last count and the rows require, the IDs ascend strictly, no large offset in use is 2^63 or more, and the checksum is right; the rows are then those at the stated positions |
| IndexReads.OffsetByRule | packfile/index.go:138-177 | The offset read for a row: the 32-bit number below 2^31, else the 64-bit number at its place if it is the last row to refer to that, else zero |
| IndexReads.ReadByRuleV1 | packfile/index.go:181-210 | Every other file: accepted as version 1 if and only if it is long enough, the IDs ascend strictly and the checksum is right, with the rows at the stated positions |
| Common.LexFirstDifference | packfile/index.go:425-428 | One byte string is below another exactly when the first byte in which they differ is lower, or it is a proper prefix |
| TreeModes.OrderByMask | object/tree.go:248-340 | On slash-free names the order of entries is the byte order of the names with 0x2f behind exactly those whose mode, bit by bit with 0o170000, is 0o040000 |
| TreeModes.DirByMask | object/tree.go:338-340 | For every mode, the bits it shares with 0o170000 are 0o040000 exactly when it is taken for a directory |
| TreeModes.SourceModes | object/tree.go:308-325 | Of the six modes of the source only 0o040000 is a directory |
| TreeModes.SubmoduleBeforeFile | object/tree.go:248-283 | A submodule "s" comes before a file "s." and a directory "s" behind it |
| TreeModes.SubmoduleTree | object/tree.go:50-85 | The tree of that submodule and that file, in literal bytes, is printed as them and accepted |
| TreeModes.EntryByRule | object/tree.go:230-242 | An entry is its mode in octal, 0x20, the name, NUL and the twenty bytes of the ID |
| Numerals.OctalDigits | object/tree.go:230-242 | Octal text, digit by digit |
| CommitText.CommitByRule | object/commit.go:82-224 | A whole commit in literal text, with any parents, extra lines, signature lines and zones "+hhmm" or "-hhmm": it is read with exactly the fields that stand there, offsets positive behind 0x2b and negative behind 0x2d, and these fields print as that text |
| CommitText.ZoneByRule | object/commit.go:328-350 | Four digits behind 0x2b are so many hours and minutes in seconds, and behind 0x2d the negative of that |
| CommitText.ShortZone | object/commit.go:328-360 | With one to three digits the missing ones in front count as zero |
| CommitText.FormatByRule | object/commit.go:216-224 | An offset of less than 100 hours prints as 0x2d from one minute west on and 0x2b otherwise, and its hours and minutes in two digits each |
| CommitText.IntByRule | object/commit.go:292-295 | Numbers print in decimal, negative ones behind 0x2d; behind 0x2d they are read as negative and behind 0x2b as positive |
| CommitText.SignatureByRule | object/commit.go:362-384 | The lines of a signature print as "gpgsig" and each of them between 0x20 and 0x0a |
| CommitText.FieldsByRule | object/commit.go:459-511 | Two fields in literal bytes, one with a value of two lines: looking either up gives its value |
| HexLines.HexByRule | object/object.go:129-135 | Each byte of an ID is two of "0123456789abcdef", the higher half first |
| PktBytes.ReadByRule | internal/pktline/pktline.go:73-114 | Every four lower-case digits of length: 0 is a flush and 1 a delimiter, 2, 3 and more than 65520 are refused, and otherwise the length counts the data and four more |
| PktBytes.EncodeByRule | internal/pktline/pktline.go:159-205 | "0000", "0001", and four hexadecimal digits of length in front of 1 to 65516 bytes, no more and no fewer |
| PktBytes.ChannelByRule | packfile/client/pull.go:281-313 | A packet whose data starts with 1 adds pack bytes, with 2 a progress message, with anything but 1, 2 and 3 ends the stream with an error; "0000" ends it |
| PktBytes.ErrorByRule | packfile/client/pull.go:300-320 | A packet whose data starts with 3 ends the stream with the message behind it, without one final 0x0a |
| Seeker.SeekThenRead | packfile/delta.go:427-450 | A seek relative to the start, the position or the end, and a full read behind it, on a plain source: the bytes at that place of the data, and no move to before the start |
| MuxWriter.StartAccepted | log.go:324-331 | Text without 0x0a is taken whole without an error exactly when it and the buffered text are at most 1024 bytes; the sink is not called |
| MuxWriter.LinesAccepted | log.go:333-349 | Text with 0x0a is taken whole without an error exactly when the sink reports no error to the flush and the lines and at most 1024 bytes follow; the whole outcome in each other case |
| MuxAccept.NothingRefused | log.go:301-350 | From fresh handles, a run of writes is free of errors if and only if each fits and the sink never fails; each handle's share of the sink and its buffer are then all it was given, in order |

## Left out

- Undeltify.WalkDeltaChain: requires that the walk ends (`Ends`), because the source has no cycle check and its loop then runs for good; EndsIff gives the exact condition, no offset met twice, and IndexedUndeltifies proves it for every indexed offset.
- Undeltify.ResolveType: requires that the walk ends, for the same reason.
- Undeltify.Undeltifier.Undeltify: requires that the walk ends, for the same reason; a whole object is returned as content rather than as a lazy stream, and when a later header cannot be read the failure while formatting the error is a plain failure.
- OffsetCode.AppendOffset: requires an argument on which the source's loop ends; LoopEndsIff shows that it is exactly these.
- PackWriter.Writer.WriteHeader: requires, of a header it accepts, a base offset not beyond the object and an offset that fits an int64, which the source does not check and on which its encoding loop relies (LoopEndsIff); object sizes are not negative.
- PackWriter.Writer.Close: compressed bytes appear in the output when a stream is closed, not as zlib emits them during the writes.
- PackReader.Reader.Read: a corrupt compressed stream is reported when the object is reached, not at the read that meets it.
- Seeker.BufferedReadSeeker.Seek: offsets are unbounded, so subtracting the buffered count does not wrap around near the smallest int64.
- IndexCodec.RoundTripV2: states the limits of the file's fields as a condition (fewer than 2^32 IDs, at most 2^31 large offsets, 32-bit checksums, 63-bit offsets).
- Crawler: goroutine steps are atomic between points where another goroutine can observe them, and index slices are values, so that appending to the new index while it shares storage with the base index is not visible here.
- Errors of the underlying readers and writers other than the end of input; which of several errors is reported first, and error texts.
- Memory limits (the 16 MiB limits on deltas and their bases), allocation sizes and capacity hints.
- The nil index, which is written as the index of an empty packfile.
- Options of BuildIndex and Undeltify other than the index; thickening of packs is not in the source either.
- Tag objects, object prefixes as a separate codec, file mode and hash formatting, and splitting a user into name and email.
- Times are seconds, zone name and zone offset; calendar arithmetic is not part of this model.
- Requests, negotiation and transports of the packfile client, and every wrapper that runs Git as a subprocess: they move bytes and build arguments.
- The compression, hash and checksum algorithms themselves.
