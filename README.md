# oneway-filesync, receiver and sender core, in Dafny

oneway-filesync copies files over a one-way UDP link. The sender does the following:

- cuts each file into chunks;
- pads each chunk and splits it into Reed-Solomon shares;
- encodes every share as a self-describing datagram.

The receiver does the following:

- decodes the datagrams;
- regroups the shares by (hash, offset) in the share assembler;
- rebuilds each chunk in the FEC decoder;
- writes the chunk at its offset into a temp file, keyed by the file's path and hash (the file writer);
- hands a temp file that has been idle for more than 30 seconds to the file closer.

The file closer checks the SHA-256 of the temp file, renames it to `filepath.Join(outdir, normalizePath(Path))` and records the outcome. That name is under the output directory only while the normalized path has no ".." segment, because `filepath.Join` resolves ".." against the directory. On the sending side, a directory watcher debounces change events and queues each file once it has been quiet for 30 seconds.

This project models that core sequentially. Each goroutine's loop body is one step. A channel is a sequence that the step appends to or reads from. The modules are:

| module | file | models |
|---|---|---|
| `Wire` | wire.dfy | big-endian u32/i64 fields of the packer, and two's-complement `int64` |
| `Structs` | structs.dfy | `Chunk`, `Encode`, `DecodeChunk`, `ChunkOverhead`, the flag tables, `OpenTempFile` |
| `Erasure` | erasure.dfy | the Reed-Solomon library, as a contract: a systematic split, parity, and reconstruction from any `required` shares |
| `FecEncoder` | fecencoder.dfy | the encoder worker: the padding rule, and `total` share records per chunk |
| `FecDecoder` | fecdecoder.dfy | the decoder worker: shards slotted by index, the copy loop, the padding strip |
| `ShareAssembler` | shareassembler.dfy | the share cache (a class over `RWMutexMap`), the worker's append/drain step, the manager's 10-second sweep |
| `Utils` | utils.dfy | `RWMutexMap` (one class for both copies of the file) and `formatFilePath` |
| `Paths` | paths.dfy | `strings.Split`, `strings.ReplaceAll` on one character, and `filepath.Join`/`Clean` with '/' as separator |
| `FileSystem` | filesystem.dfy | the receiver's files as a map from name to content: open with create, `WriteAt`, `Rename` |
| `FileWriter` | filewriter.dfy | `pathReplace`, the temp name, the worker (write, then cache), the manager's 30-second sweep |
| `FileCloser` | filecloser.dfy | `normalizePath`, the destination rule, `closeFile`'s decisions, the transfer record |
| `Watcher` | watcher.dfy | the debounce cache: an event stamps a file, a tick queues and drops the quiet ones |

Modelling conventions:

- **Strings.** A Go string is a byte string, so it is modelled as a Dafny string whose every character is below 256 (`Structs.IsByteString`).
- **Bytes.** A byte is `Wire.Byte`, the integers 0 to 255.
- **Panics.** A Go panic is an explicit outcome. Examples are a flag byte above 1 indexing past `i2b`, a share index of `total` or more, and a padding larger than the rebuilt data. They are `Structs.DecodeError.FlagOutOfRange` and `FecDecoder.Panicked`. The source has no `recover`, so such a panic aborts the whole process, every stage included, and not one worker only. `FlagOutOfRange` therefore stands for a crash, unlike `Truncated`, which the receiver logs before dropping the datagram. In the model a panic ends the run of the worker that raised it, and nothing is said about the other stages after it.
- **Clocks.** The assembler's clock is in Unix seconds. The writer's and the watcher's clocks are in nanoseconds. `time.Since(t).Seconds() > 30` holds exactly when more than 30 000 000 000 ns have passed.
- **Operating-system outcomes.** Whether a call succeeds is an input to the step: open, write, read, close, mkdir, rename and stat.
- **SHA-256.** SHA-256 over the temp file is a function parameter.

Where the prose description of the system and the code disagree, the model follows the code:

- The wire layout carries a flag byte for `Encrypted` between the hash and the offset (pkg/structs/structs.go:68, 88-90). The prose layout leaves it out.
- The share assembler keeps an entry after it drains a batch. Only the idle sweep deletes entries (pkg/shareassembler/shareassembler.go:45-51, 70-76). Surplus shares therefore form later batches. `ShareAssembler.ArriveAllDeliversInOrder` states that, between two sweeps, every share of a key comes out in arrival order, delivered or still buffered. A sweep that removes a part-filled entry drops its buffered shares, and that lemma does not cover runs with a sweep inside them.
- The temp name is keyed by `pathReplace(Path)`, not by the path itself. Two paths that differ only where one has '/', '\' or ':' and the other has '_' share a temp file when their hashes agree. `FileWriter.SeparatorsShareTempName` states this.
- The destination of a closed file is `filepath.Join(outdir, normalizePath(Path))`, and `normalizePath` keeps ".." segments. A sender-supplied Path can therefore name a file outside the output directory: with outdir "/srv/out", the Path "../../etc/passwd" is moved to "/etc/passwd" (`FileCloser.DestinationEscapesOutdir`). A path of plain names stays inside (`FileCloser.DestinationInsideOutdir`).
- The `formatFilePath` test expects "d.tmp" for a backslash path. The code splits only on '/' and returns such a path whole (`Utils.BackslashPathIsKept`).

## Model

| member | source | states |
|---|---|---|
| Wire.BigEndianRoundTrip | pkg/structs/structs.go:64-72 | reading back a big-endian field of `width` bytes gives the value written |
| Wire.FromBigEndianRoundTrip | pkg/structs/structs.go:91-94 | every byte string of a given width is the big-endian spelling of the value read from it |
| Wire.I64BitsRoundTrip | pkg/structs/structs.go:69 | the two's-complement bits of an int64 convert back to the same int64 |
| Wire.Uint32RoundTrip | pkg/structs/structs.go:65 | a u32 field read after write gives the value, and every 4 bytes are the field of the value read from them |
| Wire.Int64RoundTrip | pkg/structs/structs.go:69 | the same for the i64 field over 8 bytes, negative offsets included |
| Structs.StringBytesRoundTrip | pkg/structs/structs.go:61 | `[]byte(s)` and `string(b)` are inverse on byte strings |
| Structs.FlagByte | pkg/structs/structs.go:46 | b2i yields 0 or 1, and 1 exactly for true |
| Structs.FlagValue | pkg/structs/structs.go:48 | i2b succeeds exactly on 0 and 1 and inverts b2i; a larger byte is a failure (the index panics in Go) |
| Structs.EncodeLength | pkg/structs/structs.go:60-76 | the encoding is 4 + len(path) + 32 + 1 + 8 + 4 + 4 + 4 + len(data) bytes long |
| Structs.EncodeChunk | pkg/structs/structs.go:60-76 | pushing the fields one by one into the buffer produces exactly the specified encoding |
| Structs.ChunkOverhead | pkg/structs/structs.go:53-56 | the overhead of a path is 57 + len(path) |
| Structs.EncodedSizeIsOverheadPlusData | pkg/structs/structs.go:53-56 | every encoding is exactly ChunkOverhead(path) + len(data) long |
| Structs.FetchBytes | pkg/structs/structs.go:86 | fetching n bytes succeeds iff n bytes remain, and yields those bytes and the rest |
| Structs.FetchUint32 | pkg/structs/structs.go:92-93 | a u32 fetch succeeds iff 4 bytes remain and reads them big-endian |
| Structs.FetchInt64 | pkg/structs/structs.go:91 | an i64 fetch succeeds iff 8 bytes remain and reads them as two's complement |
| Structs.DecodeChunk | pkg/structs/structs.go:79-97 | the unpacker's cursor walk returns exactly the specified decoding: the chunk, Truncated when a length runs past the buffer, FlagOutOfRange for a flag above 1 |
| Structs.DecodeEncode | pkg/structs/structs.go:60-97 | decoding an encoded chunk whose path and data fit in u32 gives the chunk back, whatever bytes follow it |
| Structs.DecodeEncodeExact | pkg/structs/structs.go:60-97 | DecodeChunk(Encode(c)) == c with no error |
| Structs.DecodeInverse | pkg/structs/structs.go:79-97 | a successful decode yields an encodable chunk whose encoding is a prefix of the datagram (decode is injective up to trailing bytes) |
| Structs.DecodeHeadInverse | pkg/structs/structs.go:84-87 | a successful decode reads a length-prefixed byte-string path and then 32 hash bytes |
| Structs.DecodeFieldsInverse | pkg/structs/structs.go:88-94 | the fields after the hash are the encoding of the decoded chunk's tail |
| Structs.DecodeNumbersInverse | pkg/structs/structs.go:91-94 | the offset, padding and index come from the next 16 bytes, and the data after them |
| Structs.DecodeDataInverse | pkg/structs/structs.go:94 | the data is the length-prefixed block that follows, and only the data field changes |
| Structs.EncodeLayout | pkg/structs/structs.go:64-68 | the first 4 bytes are the big-endian path length, then the path bytes, the hash, and a flag byte that is 0 or 1 |
| Structs.OverlongPathIsTruncated | pkg/structs/structs.go:84-96 | a path length beyond the remaining bytes is an error |
| Structs.OverlongDataIsTruncated | pkg/structs/structs.go:94-96 | a data length beyond the remaining bytes is an error |
| Structs.AllOnesDatagramIsRejected | pkg/udpreceiver/udpreceiver_test.go:226-248 | a 4096-byte datagram of 0xff does not decode |
| Structs.FlagAboveOneRefused | pkg/structs/structs.go:88-90 | any flag byte above 1 after a well-formed head is refused |
| Structs.DecodedHashFollowsPath | pkg/structs/structs.go:85-87 | the decoded hash is exactly the 32 bytes after the path |
| Erasure.CeilDivision | pkg/fecencoder/fecencoder.go:40 | the per-shard size ceil(d/k) covers the data, exactly when k divides d |
| Erasure.Split | pkg/fecencoder/fecencoder.go:40-47 | Split fails exactly on empty data, and otherwise gives k shards of one positive length |
| Erasure.ConcatOfSlices | pkg/fecencoder/fecencoder.go:40 | the first i slices of width per concatenate to the first i*per bytes |
| Erasure.SplitConcat | pkg/fecencoder/fecencoder.go:40 | the shards of a split concatenate to the data plus zero fill, and to the data itself when k divides its length |
| Erasure.Codeword | pkg/fecencoder/fecencoder.go:50 | Encode keeps the data shards in front (systematic) and fills slots k..n-1 with parity |
| Erasure.ReplicationIsSound | pkg/fecencoder/fecencoder.go:26 | the library contract is satisfiable: a replication code meets it for k = 1 |
| FecEncoder.Padding | pkg/fecencoder/fecencoder.go:36 | the padding is below required, aligns the length to a multiple of required, and is 0 iff the length is already aligned |
| FecEncoder.PaddingAligns | pkg/fecencoder/fecencoder.go:36 | the source's expression (required - len % required) % required aligns the length |
| FecEncoder.EncodeChunk | pkg/fecencoder/fecencoder.go:36-69 | an empty chunk yields no share records, any other chunk exactly `total` records |
| FecEncoder.Worker | pkg/fecencoder/fecencoder.go:25-72 | parameters New refuses (required < 1, total < required, or more than 256 shards) emit nothing; otherwise the output is each chunk's records, in input order |
| FecEncoder.EncodeOne | pkg/fecencoder/fecencoder.go:36-69 | one chunk's padding, split, parity and emission loop yields the chunk's share records |
| FecEncoder.EmitShares | pkg/fecencoder/fecencoder.go:59-69 | the loop emits one record per shard, record i carrying shard i |
| FecEncoder.SharesCarryMetadata | pkg/fecencoder/fecencoder.go:60-67 | each share copies path, hash and offset, has Encrypted false, and carries the padding and its index as uint32 |
| FecEncoder.ShareIndexIsSlot | pkg/fecencoder/fecencoder.go:59-65 | with total <= 2^32, share i has ShareIndex i and the exact padding |
| FecEncoder.DataSharesAreSplit | pkg/fecencoder/fecencoder.go:37-50 | the payloads are the codeword of the split of the padded data, and the first `required` concatenate to the padded data |
| FecEncoder.SharesHaveEqualLength | pkg/fecencoder/fecencoder.go:40-66 | every payload is (len + padding) / required bytes long |
| FecDecoder.Slots | pkg/fecdecoder/fecdecoder.go:45-48 | the shard array has `total` slots |
| FecDecoder.CopyAt | pkg/fecdecoder/fecdecoder.go:60 | copy places src at the offset and leaves every other byte alone, within the buffer |
| FecDecoder.Assemble | pkg/fecdecoder/fecdecoder.go:58-61 | the data buffer is always len(shares[0]) * required bytes long |
| FecDecoder.FillSlots | pkg/fecdecoder/fecdecoder.go:45-48 | the slot loop reports whether every index is in range, and if so leaves the specified slots |
| FecDecoder.CopyInto | pkg/fecdecoder/fecdecoder.go:60 | the copy loop writes the shard at the offset and nothing else |
| FecDecoder.CopyOut | pkg/fecdecoder/fecdecoder.go:58-61 | the copy loop over the restored shards fills the buffer as specified |
| FecDecoder.CopyShard | pkg/fecdecoder/fecdecoder.go:59-61 | one iteration of the copy loop adds one shard |
| FecDecoder.DecodeStep | pkg/fecdecoder/fecdecoder.go:44-67 | one batch: emitted chunk, dropped on a failed reconstruction, or a panic on an empty batch, an out-of-range index or an oversize padding |
| FecDecoder.Worker | pkg/fecdecoder/fecdecoder.go:34-70 | parameters New refuses (required < 1, total < required, or more than 256 shards) return with no output; otherwise the run over the batches, ending at the first panic |
| FecDecoder.PanicIsFinal | pkg/fecdecoder/fecdecoder.go:44-67 | after a panic, later batches change nothing |
| FecDecoder.SlotsLastWins | pkg/fecdecoder/fecdecoder.go:46-47 | a slot holds the data of the last share naming it |
| FecDecoder.SlotsUnnamedEmpty | pkg/fecdecoder/fecdecoder.go:45 | a slot no share names stays empty |
| FecDecoder.SlotsComeFromShares | pkg/fecdecoder/fecdecoder.go:46-47 | every filled slot holds the data of a share naming it |
| FecDecoder.PresentSlots | pkg/fecdecoder/fecdecoder.go:45-48 | the filled slots are among the named indices, and are exactly those when no share is empty |
| FecDecoder.LastNaming | pkg/fecdecoder/fecdecoder.go:46-47 | finds the last share with a given index |
| FecDecoder.AssembleIsConcat | pkg/fecdecoder/fecdecoder.go:58-61 | after i rounds the buffer is the first i shards concatenated, then zeros |
| FecDecoder.AssembleAll | pkg/fecdecoder/fecdecoder.go:58-61 | the filled buffer is the concatenation of the shards |
| FecDecoder.EmittedChunkFields | pkg/fecdecoder/fecdecoder.go:62-67 | an emitted chunk takes path, hash and offset from chunks[0], has index and padding 0, and len(shares[0]) * required - DataPadding bytes |
| FecDecoder.EmittedDataIsConcat | pkg/fecdecoder/fecdecoder.go:58-66 | the emitted data is the restored data shards concatenated, minus the last DataPadding bytes |
| FecDecoder.TooFewSharesEmitNothing | pkg/fecdecoder/fecdecoder.go:49-56 | fewer than `required` distinct indices never emit a chunk |
| FecDecoder.EncodedShare | pkg/fecencoder/fecencoder.go:59-67 | every encoder share of a chunk has an in-range index, the codeword's shard at that index, the chunk's padding and metadata |
| FecDecoder.SlotsOfEncodedShares | pkg/fecdecoder/fecdecoder.go:45-48 | slotting shares of one encoded chunk gives a received view of its codeword, filled at exactly the named indices |
| FecDecoder.EncodeDecodeRoundTrip | pkg/fecdecoder/fecdecoder.go:44-67 | any batch of shares of one encoded chunk with `required` distinct indices decodes to the original unpadded data and metadata |
| FecDecoder.AssembleSplit | pkg/fecdecoder/fecdecoder.go:58-61 | copying out the split of padded data rebuilds the padded data |
| FecDecoder.DecodeRecovered | pkg/fecdecoder/fecdecoder.go:49-67 | when reconstruction succeeds and the shards rebuild data + padding, the output is that data with chunks[0]'s metadata |
| ShareAssembler.KeyOf | pkg/shareassembler/shareassembler.go:62-63 | the key is (Hash, DataOffset) |
| ShareAssembler.KeyIgnoresPath | pkg/shareassembler/shareassembler.go:17-20 | two shares share a key iff hash and offset agree, whatever their paths |
| ShareAssembler.CacheValue.constructor | pkg/shareassembler/shareassembler.go:62-64 | a new entry is empty, never stamped, with capacity total*2 |
| ShareAssembler.CacheValue.Push | pkg/shareassembler/shareassembler.go:65-66 | the share joins the back of the buffer and the stamp is now |
| ShareAssembler.CacheValue.Drain | pkg/shareassembler/shareassembler.go:71-74 | the drain loop removes the first n shares in order and returns them |
| ShareAssembler.Arrive | pkg/shareassembler/shareassembler.go:61-81 | after a step the share's key is present and no other key appears |
| ShareAssembler.ArriveUpdates | pkg/shareassembler/shareassembler.go:62-79 | a step that does not block replaces only the share's entry, with what the buffer holds after the push and drain |
| ShareAssembler.ArriveAfterLookup | pkg/shareassembler/shareassembler.go:62-64 | creating the entry first (LoadOrStore) does not change the step |
| ShareAssembler.ArriveKeepsOthers | pkg/shareassembler/shareassembler.go:62-64 | entries of other keys are untouched |
| ShareAssembler.ArriveAppends | pkg/shareassembler/shareassembler.go:62-79 | the push blocks iff the buffer is full; otherwise the stamp is now, a batch goes out iff the buffer reaches `required`, and batch + remaining buffer == old buffer + share |
| ShareAssembler.ArriveStaysBelowRequired | pkg/shareassembler/shareassembler.go:64-79 | with 1 <= required <= total*2 and every buffer below `required`, no push blocks and every buffer stays below `required` |
| ShareAssembler.ArriveKeepsKeyed | pkg/shareassembler/shareassembler.go:62-65 | every buffered share sits under its own key, and every batch is of the arriving share's key |
| ShareAssembler.Sweep | pkg/shareassembler/shareassembler.go:45-51 | the sweep keeps exactly the entries that are not stale, unchanged |
| ShareAssembler.SweptByKeeps | pkg/shareassembler/shareassembler.go:45-51 | after visiting some keys, exactly the stale ones among them are gone |
| ShareAssembler.SweptByAll | pkg/shareassembler/shareassembler.go:45-51 | visiting every key performs the sweep |
| ShareAssembler.SweepKeepsInvariants | pkg/shareassembler/shareassembler.go:45-51 | the sweep keeps the keying and below-required invariants, and is idempotent |
| ShareAssembler.ArriveAllNeverBlocks | pkg/shareassembler/shareassembler.go:56-83 | over any arrival sequence no push blocks, the invariants hold, and every batch is `required` shares of one key |
| ShareAssembler.ArriveStreamFor | pkg/shareassembler/shareassembler.go:61-79 | one step extends a key's delivered-then-buffered stream by exactly its share |
| ShareAssembler.ArriveAllDeliversInOrder | pkg/shareassembler/shareassembler.go:56-83 | for every key, the shares delivered in batches followed by those still buffered are its arrivals, in order (no loss, duplication or reordering) |
| ShareAssembler.SharesFor | pkg/shareassembler/shareassembler.go:62-65 | the arrivals of one key are a subsequence, all of that key |
| ShareAssembler.ShareAssembler.constructor | pkg/shareassembler/shareassembler.go:85-97 | a new assembler has an empty cache and no output |
| ShareAssembler.ShareAssembler.Lookup | pkg/shareassembler/shareassembler.go:62-64 | LoadOrStore returns the entry under the key, creating an empty one only when absent, and keeps every other entry |
| ShareAssembler.ShareAssembler.Worker | pkg/shareassembler/shareassembler.go:56-83 | one arriving share moves the cache contents and the output exactly as Arrive specifies |
| ShareAssembler.ShareAssembler.Deliver | pkg/shareassembler/shareassembler.go:65-79 | push, stamp and (TryLock held) drain of `required` shares as one batch |
| ShareAssembler.ShareAssembler.SweepKey | pkg/shareassembler/shareassembler.go:45-49 | one key of the sweep is deleted iff it is stale |
| ShareAssembler.ShareAssembler.Manager | pkg/shareassembler/shareassembler.go:38-54 | the range over the cache leaves exactly the non-stale entries and outputs nothing |
| Utils.FormatFilePath | pkg/utils/utils.go:14-17 | the result is the suffix after the last '/', or the whole path without one, and has no '/' |
| Utils.LastPartIsSuffix | pkg/utils/utils.go:15-16 | the last element of the split is a suffix of the path, preceded by '/' when shorter |
| Utils.UnixPathKeepsFileName | pkg/utils/utils_test.go:22 | "/a/b/c/d.tmp" gives "d.tmp" |
| Utils.BackslashPathIsKept | pkg/utils/utils.go:14-17 | a backslash path comes back whole (the test at pkg/utils/utils_test.go:23 expects otherwise) |
| Utils.RWMutexMap.constructor | pkg/utils/utils.go:47-50 | the zero map is empty |
| Utils.RWMutexMap.Load | pkg/utils/utils.go:52-57 | ok iff the key is present, with its value, else the zero value; the map is unchanged (the same method in the verbatim copy, pkg/utils.go/utils.go:14-19) |
| Utils.RWMutexMap.Store | pkg/utils/utils.go:59-66 | the key maps to the value and every other key is unchanged (the same method in the verbatim copy, pkg/utils.go/utils.go:21-28) |
| Utils.RWMutexMap.LoadOrStore | pkg/utils/utils.go:68-80 | present: the old value, loaded, map unchanged; absent: the new value is stored and returned, not loaded (the same method in the verbatim copy, pkg/utils.go/utils.go:30-42) |
| Utils.RWMutexMap.LoadAndDelete | pkg/utils/utils.go:82-93 | loaded iff present, with the old value or the zero value; the key is gone afterwards (the same method in the verbatim copy, pkg/utils.go/utils.go:44-55) |
| Utils.RWMutexMap.Delete | pkg/utils/utils.go:95-99 | removes the key and nothing else; an absent key leaves the map as it was (the same method in the verbatim copy, pkg/utils.go/utils.go:57-61) |
| Utils.RWMutexMap.Keys | pkg/utils/utils.go:102-107 | the snapshot lists every key once |
| Utils.RWMutexMap.Range | pkg/utils/utils.go:101-118 | f sees snapshot keys at most once each, all but the last returned true, and it stops early only on false (the same method in the verbatim copy, pkg/utils.go/utils.go:63-80) |
| Paths.SplitOn | pkg/utils/utils.go:15 | strings.Split always yields at least one element |
| Paths.SplitPartsLackSeparator | pkg/filecloser/filecloser.go:20-24 | no element of a split holds the separator |
| Paths.JoinSplit | pkg/filecloser/filecloser.go:20-24 | joining a split with its separator gives the string back |
| Paths.SplitJoin | pkg/filecloser/filecloser.go:20-24 | splitting a join of separator-free parts gives the parts back |
| Paths.ReplaceChar | pkg/filewriter/filewriter.go:18-20 | ReplaceAll of one character substitutes it position by position |
| Paths.RemoveChar | pkg/filecloser/filecloser.go:18 | ReplaceAll with "" leaves no occurrence and does not lengthen |
| Paths.RemoveCharKeeps | pkg/filecloser/filecloser.go:18 | the characters kept are exactly the others |
| Paths.Clean | pkg/filecloser/filecloser.go:20-24 | filepath.Clean never returns the empty string |
| Paths.Join | pkg/filecloser/filecloser.go:54 | filepath.Join is empty exactly when every element is |
| Paths.CleanSegmentsFromParts | pkg/filecloser/filecloser.go:20-24 | Clean keeps only non-empty parts other than ".", plus ".." |
| Paths.CleanChars | pkg/filecloser/filecloser.go:20-24 | Clean adds no character but '/' and '.' |
| Paths.JoinPathChars | pkg/filecloser/filecloser.go:54 | Join adds no character but '/' and '.' to its elements |
| Paths.CleanKeepsLastName | pkg/filewriter/filewriter.go:59 | a plain last element survives Clean at the end |
| Paths.JoinEndsWithName | pkg/filewriter/filewriter.go:59 | Join(dir, name) ends with a plain name |
| Paths.JoinNoDir | pkg/filewriter/filewriter.go:59 | Join("", name) is the name |
| Paths.CleanJoinedNames | pkg/filecloser/filecloser.go:20-24 | a '/'-join of plain names is already clean |
| Paths.CleanRootedNames | pkg/filecloser/filecloser.go:54 | a rooted '/'-join of plain names is already clean |
| Paths.JoinUnderDir | pkg/filecloser/filecloser.go:54 | Join of a directory of plain names and a relative path of plain names is the two with one '/' between |
| Paths.JoinOfNames | pkg/filecloser/filecloser.go:20-24 | Join drops leading empty elements and joins the plain names after them with '/' |
| FileSystem.WriteAt | pkg/filewriter/filewriter.go:70 | the data lands at the offset, bytes outside that range are unchanged, and a gap past the end reads as zeros |
| FileSystem.WritesCommute | pkg/filewriter/filewriter.go:70 | writes of shares to disjoint ranges commute, so the order in which workers write does not matter |
| FileSystem.Disk.Content | pkg/filewriter/filewriter.go:60 | a file that does not exist yet opens empty |
| FileSystem.Disk.Create | pkg/filewriter/filewriter.go:60 | O_CREATE makes the file if absent and keeps its content otherwise |
| FileSystem.Disk.Write | pkg/filewriter/filewriter.go:70 | WriteAt changes only that file, as WriteAt specifies |
| FileSystem.Disk.Rename | pkg/filecloser/filecloser.go:64 | the content moves to the new name and the old name is gone |
| FileWriter.PathReplaceIsSafe | pkg/filewriter/filewriter.go:16-22 | no '/', '\' or ':' remains, the length is kept, and every other character stays in place |
| FileWriter.Hex | pkg/filewriter/filewriter.go:59 | %x gives two digits per byte |
| FileWriter.HexInjective | pkg/filewriter/filewriter.go:59 | different hashes have different %x spellings |
| FileWriter.TempBaseIsPlain | pkg/filewriter/filewriter.go:59 | pathReplace(Path) + "___" + %x(Hash) + ".tmp" is a plain file name |
| FileWriter.TempNameEndsWithBase | pkg/filewriter/filewriter.go:59 | the temp file lies directly under tempdir, whatever the path |
| FileWriter.TempNameDeterminesHash | pkg/filewriter/filewriter.go:59 | files with different hashes never share a temp file |
| FileWriter.SeparatorsShareTempName | pkg/filewriter/filewriter.go:16-59 | "d/a_b" and "d/a/b" with one hash share a temp file |
| FileWriter.Active | pkg/filewriter/filewriter.go:42-48 | the sweep keeps exactly the entries not idle for more than 30 s, unchanged |
| FileWriter.ActiveIsQuiet | pkg/filewriter/filewriter.go:43 | no entry left after a sweep is older than 30 s, and a second sweep does nothing |
| FileWriter.SweptByKeeps | pkg/filewriter/filewriter.go:42-48 | after visiting some keys, exactly the idle ones among them are gone |
| FileWriter.SweptAll | pkg/filewriter/filewriter.go:42-48 | visiting every key leaves the active entries |
| FileWriter.IdleAlongExactlyOnce | pkg/filewriter/filewriter.go:42-48 | over distinct keys, each idle entry is output once and nothing else is |
| FileWriter.SweepOutcome | pkg/filewriter/filewriter.go:42-48 | a full sweep leaves the active entries and outputs each idle entry once |
| FileWriter.FileWriter.constructor | pkg/filewriter/filewriter.go:91-102 | a new writer has an empty cache and no output |
| FileWriter.FileWriter.Worker | pkg/filewriter/filewriter.go:58-86 | names the temp file; a failed open changes nothing; a failed write leaves the created file and the cache alone; a successful write puts the data at the offset and caches (name, path, hash, now) |
| FileWriter.FileWriter.SweepKey | pkg/filewriter/filewriter.go:42-47 | one key is removed and output iff its entry is idle |
| FileWriter.FileWriter.Manager | pkg/filewriter/filewriter.go:35-51 | the cache keeps exactly the active entries, and every idle entry is output once |
| FileCloser.NormalizePathIsPortable | pkg/filecloser/filecloser.go:17-25 | the normalized path has no ':' and no '\' |
| FileCloser.NormalizeSlashPath | pkg/filecloser/filecloser.go:23-24 | a '/' path loses its empty leading segments and keeps its names |
| FileCloser.NormalizeBackslashPath | pkg/filecloser/filecloser.go:18-22 | a '\' path is re-joined with '/' |
| FileCloser.NormalizeUnixPath | pkg/filecloser/filecloser_test.go:25 | "/tmp/out/check" becomes "tmp/out/check" |
| FileCloser.NormalizeWindowsPath | pkg/filecloser/filecloser_test.go:26 | "c:\tmp\out\check" becomes "c/tmp/out/check" |
| FileCloser.DropDriveColon | pkg/filecloser/filecloser.go:18 | the colon after a drive letter is removed |
| FileCloser.RemoveAbsentChar | pkg/filecloser/filecloser.go:18 | removing an absent character changes nothing |
| FileCloser.RemoveCharAppend | pkg/filecloser/filecloser.go:18 | removal distributes over concatenation |
| FileCloser.DestinationInsideOutdir | pkg/filecloser/filecloser.go:54-57 | with an output directory of plain names and a normalized path of plain names, the destination is the directory, '/', the normalized path and ".zip" for an archive, so it starts with the directory and a '/' |
| FileCloser.DestinationEscapesOutdir | pkg/filecloser/filecloser.go:54-57 | ".." survives normalizePath and Join resolves it: "/d1/d2" joined with "../../" and names is "/" followed by the names, outside the output directory |
| FileCloser.DestinationExtension | pkg/filecloser/filecloser.go:54-57 | the destination ends in ".zip" iff the file is encrypted, and is otherwise the joined path |
| FileCloser.CloseSucceedsExactly | pkg/filecloser/filecloser.go:26-72 | closeFile succeeds iff open, hash, compare, mkdir and rename all pass, and then names the destination |
| FileCloser.MismatchStopsEarly | pkg/filecloser/filecloser.go:49-52 | a hash mismatch is the error whatever mkdir and rename would do |
| FileCloser.CloseErrorIgnored | pkg/filecloser/filecloser.go:45-48 | a failed Close of the temp file never changes the outcome |
| FileCloser.OpenOrReadFailureIsError | pkg/filecloser/filecloser.go:33-44 | a missing temp file or a failed read is the corresponding error |
| FileCloser.CloseFile | pkg/filecloser/filecloser.go:26-72 | returns the specified outcome; success moves the temp file's content to the destination, failure changes no file |
| FileCloser.Worker | pkg/filecloser/filecloser.go:80-109 | the record copies path, hash and Encrypted, is started and finished, and succeeds iff closeFile did |
| FileCloser.IntegrityOutcome | pkg/filecloser/filecloser.go:39-52 | content that does not hash to the announced hash is never a success, and a success had matching content |
| Watcher.Notice | pkg/watcher/watcher.go:40-45 | only a regular file that stat sees is (re)stamped with the event time; other paths are untouched |
| Watcher.Unsettled | pkg/watcher/watcher.go:46-57 | a tick keeps exactly the entries changed within 30 s, unchanged |
| Watcher.LatestEventWins | pkg/watcher/watcher.go:43 | an entry holds the time of its last accepted event |
| Watcher.EntryIsLatest | pkg/watcher/watcher.go:43 | with a clock that never goes back, the entry holds the latest time seen for the file |
| Watcher.TickLeavesNoSettled | pkg/watcher/watcher.go:47-49 | no entry older than 30 s survives a tick, and a second tick does nothing |
| Watcher.Watcher.constructor | pkg/watcher/watcher.go:66-71 | the cache starts empty with nothing queued |
| Watcher.Watcher.OnEvent | pkg/watcher/watcher.go:40-45 | an event updates the cache as Notice does and queues nothing |
| Watcher.Watcher.OnTick | pkg/watcher/watcher.go:46-57 | the range loop leaves the unsettled entries and queues each settled file exactly once |

## Left out

- Concurrency: goroutines, channels, context cancellation, `sync.RWMutex` and the entry's `TryLock`. Each loop body is one sequential step. In a sequential step `TryLock` always succeeds, so concurrent double-drain races are not modelled.
- Reed-Solomon arithmetic over GF(2^8) is not modelled. The library is the `Erasure.ReedSolomon` parameter, constrained by the ghost predicates `ParityMatches`, `RecoversFromAnyK` and `FailsBelowK` (together `Sound`). `Erasure.ReplicationIsSound` shows that these predicates can be met.
- FecEncoder.SharesHaveEqualLength needs only the parity half of the library contract (`ParityMatches`), not the whole of it.
- SHA-256 and zip (`HashFile`, pkg/zip/zip.go) are not modelled: the hash is a function parameter, and the zip path of `HashFile` is not used by the core.
- Operating-system calls are outcomes supplied by the caller: open, WriteAt, read, Close, MkdirAll, Rename and Stat. The directories that `MkdirAll` creates are not part of the file map.
- `Wire`: Go's 64-bit `int` in `ChunkOverhead` and in the length prefixes. The model uses unbounded integers; the u32 length prefixes wrap modulo 2^32 explicitly, as `uint32(len(...))` does.
- FileCloser.Worker: saving the record through gorm (pkg/database) is not modelled, and a failed save is only logged by the source.
- Watcher: `QueueFileForSending` into the database is the `queued` sequence. Its error is only logged, and notify's event subscription is not modelled.
- FileWriter.FileWriter.Worker: a negative DataOffset is modelled as a failed write, the error Go's WriteAt returns. Temp file closing is not modelled.
- ShareAssembler.ShareAssembler.constructor: Go accepts a negative `total` and then panics in `make(chan, total*2)` when the first share arrives (pkg/shareassembler/shareassembler.go:64). The model requires `total >= 0` and does not model that panic.
- Erasure.ValidParams: the bound is 256 shards, which the GF(2^8) releases of the library enforce. Later releases fall back to GF(2^16) and accept up to 65536 shards when there is parity. For 257 to 65536 shards the model's workers emit nothing where such a release would encode and decode.
- ShareAssembler.ShareAssembler.Worker: a push into a full buffer blocks the Go worker for good. The model reports `blocked`, and `ArriveAllNeverBlocks` shows it cannot happen with 1 <= required <= total*2.
- Utils.RWMutexMap.Range: the callback is pure and does not touch the map. The managers that delete during a range inline the loop instead (snapshot of keys, Load, Delete).
- Paths.Clean: only the '/' separator is modelled, which is Unix `filepath`. Windows volume names are not modelled.
- The bandwidth limiter, UDP sender and receiver, socket ioctls, the file reader, the queue reader, the database, configuration, logging (`InitializeLogging`) and the command-line programs are not part of this model.
