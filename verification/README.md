# Limnx: storage, interpreter, locking, heap, inference and boot

A Dafny model of the parts of the Limnx system whose correctness spans many functions, with machine-checked proofs.

| files | what they model |
|---|---|
| `BlockTree`, `FileTree`, `Accounts`, `Inodes`, `Trim`, `Shrink`, `Release`, `FileData`, `ReadPath`, `Directory`, `FsStep`, `Names`, `LimnFs` | the LimnFS file system on top of the block cache: block map, allocator, file data, directories, create, delete, truncate, format |
| `Pitfalls` | two short runs on a new disk at which a law of directories stops |
| `Builder`, `ImageFormat` | the host-side image builder, which lays out the same trees with other loops and packs the same inodes and entries |
| `CacheModel`, `BCache` | the write-back block cache that LimnFS calls |
| `Leb128`, `WasmCode`, `WasmMachine`, `WasmArith`, `WasmSim`, `Wasm`, `WasmPrograms` | the WebAssembly interpreter, the encoders it must undo, and the generated test module |
| `Mutex` | the futex mutex, as steps of any number of threads |
| `HeapList`, `Heap` | the user heap |
| `KvCache`, `Transformer` | the key/value cache of the transformer |
| `Vocab`, `Bpe` | the vocabulary index and the byte-pair tokenizer |
| `ServiceBoot` | dependency-ordered service start |

Main results:

- **LimnFS is consistent over every run.** `LimnFs.LimnFs.Run` takes any sequence of format, create, delete, truncate and write calls. Afterwards no disk block is reached from two places (`Names.NoSharedBlock`), every reached block is in the data area and marked, and the free counter is the number of clear bits. No block is ever freed twice. Blocks are lost exactly in the calls that `LimnFs.Costs` names from the state before them.
- **LimnFS files are byte maps.** A write changes exactly the bytes it says (`LimnFs.LimnFs.WriteData`) and nothing else in the file system moves. A read hands over the bytes of blocks that are named, some of them fetched past the cache (`LimnFs.LimnFs.ReadData`); they are the file's exactly when those blocks were up to date on the device (`ReadPath.DeliveredIff`). Writing, flushing and reading returns what was written, up to the largest size an inode can record (`LimnFs.LimnFs.WriteFlushRead`).
- **Directories are finite maps from names.** Where every name is found after a creation or a deletion follows from where it was found before (`Directory.FindAdded`, `Directory.FindRemoved`), and directories stay without holes over every run that does not truncate or write one from outside.
- **Truncation and deletion free exactly the right blocks**, although parent and child pointer blocks share one scratch buffer.
- **The cache is a plain block map** over every run, and a flush is durable under any interleaving (`CacheModel.FlushDurable`).
- **The flat interpreter is the structured semantics**, in both directions (`WasmSim.Simulates`, `WasmSim.Reflects`), and its instructions compute what their opcodes stand for (`WasmArith.AluMeans`, `WasmPrograms.TwoOperandsMean`).
- **The mutex excludes and loses no wake-up** for any number of threads, and every thread that asks for it can get it (`Mutex.CanAcquire`).
- **The heap keeps its blocks disjoint** and accounts for every mapped byte.
- **The key/value cache changes nothing**: cached inference equals a cache-free causal pass.
- **Service start is confluent**: the outcome of every service is a function of the configuration and of which starts succeed.

Where the code does not keep a law, the model follows the code and states exactly when the law holds:

- Next-fit allocation stays on the disk for every bitmap exactly when the hint does (`LimnFs.NextFitExact`). The hint survives a reformat, so a new disk is valid exactly when it is at least as large as the old hint (`LimnFs.LimnFs.Format`).
- What was just written is not always read back. Runs of two or more whole adjacent blocks are fetched from the device, while a write leaves its blocks in the cache and nothing flushes in between. The read is right if device and cache agree on the blocks fetched that way, and wrong if one of them differs and is not written back meanwhile (`ReadPath.ReadsFileIff`, `ReadPath.ReadBackIff`); `ReadPath.StaleRead` is such a file.
- The spot checks of the sequential read do not imply a consecutive range (`ReadPath.SpotCheckFooled`); the sequential path is right exactly on consecutive ranges (`ReadPath.FastIfConsecutive`, `ReadPath.FastOnlyIfConsecutive`).
- The blocks kept by a truncation cover the new size exactly when rounding up does not wrap (`FsStep.KeptBlocksCover`).
- A failed addition to a directory loses one block exactly when no entry is unused, the next one lies in the double indirect range, that range has no root, and two blocks are free (`FsStep.Loses`): the root is made, and the inode that holds it is not stored. `Pitfalls.FailedAndLost` is such a run. In every other case nothing is lost; in particular pointer blocks made below an existing root are linked on disk.
- A created name is found exactly when no hole lies before its block (`Directory.Reaches`); `Pitfalls.EnteredNotFound` is a run where it is not.
- A directory looks empty exactly when it is, for every contents, if and only if no mapped entry lies behind a hole (`Directory.LooksEmptyIs`, `Directory.IslandHides`).
- The generated `fib` is right exactly up to 16: calls nested deeper than the sixteen frames print a message and return 0, which the program takes for a result (`WasmPrograms.FibRuns`).
- The free-inode count matches the inode bitmap as long as only inodes in use are freed; freeing one whose bit is clear, as deleting an entry that names it does, raises it by one (`LimnFs.LimnFs.FreeInode`, `LimnFs.LimnFs.Delete`).
- A heap block holds the request exactly when the size arithmetic does not wrap (`HeapList.NeedEnough`).
- The rows of the key/value cache stay in their layer exactly for positions below the sequence limit (`Transformer.RowFitsExact`); the code does not check the position.
- Comparing a stored token string with strings of its length is equality exactly when it has no zero byte before its last (`Vocab.SamePrefixExact`).
- A merge pass can leave a match behind exactly when the result is the right side alone and differs from the left (`Bpe.PassComplete`).

Modelling decisions:

- A disk block is its 1024 little-endian 32-bit words; an inode is 29 of them and a directory entry 16. Bytes are read out of words.
- LimnFS calls the cache for every block: `store` is what the cache presents and `bcache.disk` what the device holds. Evictions during a call reach the device. Device requests succeed, and calls are serial, as the source requires.
- The comment at `kernel/src/blk/limnfs.c:503` says 32 inodes fit a block; the code fits 35, and the model follows the code.
- Numbers of the transformer are an arbitrary type with arbitrary operations, applied in the order of the loops.
- The interpreter's runs are measured by fuel in both semantics. `Simulates` and `Reflects` together hold for every terminating run, so the fuel bounds no result.
- The heap's headers and payload bytes are two maps; `HeapList.HeadersOutsidePayloads` is the reason this is the same memory.
- Addresses granted by the kernel, results of supervisor calls and host functions are parameters.

## Model

| member | source | states |
|---|---|---|
| `LimnFs.LimnFs.AllocBlock` | kernel/src/blk/limnfs.c:642-666 | returns the least clear data block from the hint on, else the least one, and 0 only on a full disk; only its bit changes, the free counter still counts the clear bits, and the hint is the block behind it |
| `LimnFs.LimnFs.AllocTwice` | kernel/src/blk/limnfs.c:644-666 | of two calls the second takes the least clear block above the first, wraps around to the least one, and fails only when the first took the last |
| `LimnFs.NextFitFits` | kernel/src/blk/limnfs.c:644-666 | the two scans give the least clear block from the hint on, else the least clear block |
| `LimnFs.LimnFs.FreeBlock` | kernel/src/blk/limnfs.c:668-672 | frees a marked block and keeps the counter equal to the clear bits; every caller proves the block is marked |
| `LimnFs.NextFitInRange` | kernel/src/blk/limnfs.c:644-666 | with the hint on the disk, allocation fails only when no data block is free and otherwise yields a free block of the data area |
| `LimnFs.NextFitExact` | kernel/src/blk/limnfs.c:642-666 | allocation stays below the block count for every bitmap if and only if the hint is on the disk |
| `FileTree.LookupData` | kernel/src/blk/limnfs.c:104-165 | a block found through the map is a data block of the file, on the disk, and never one of its pointer blocks |
| `FileTree.LookupInjective` | kernel/src/blk/limnfs.c:104-165 | no disk block serves two logical positions of one file |
| `FileTree.FileFrame` | kernel/src/blk/limnfs.c:104-165 | writes that avoid a file's pointer blocks change neither its map nor its set of blocks |
| `LimnFs.LimnFs.GetFileBlock` | kernel/src/blk/limnfs.c:104-165 | the four ranges of the code compute the one lookup function on well-formed files, for every logical block |
| `LimnFs.LimnFs.AllocFileBlock` | kernel/src/blk/limnfs.c:169-312 | succeeds exactly when there are free blocks for the data and every missing pointer block, and then maps exactly the one logical block to a cleared, formerly free block; failure leaves the map and returns the data block; the bitmap changes by exactly the blocks that joined |
| `Accounts.Commit` | kernel/src/blk/limnfs.c:169-312 | a legal change of one file keeps the whole file system consistent, leaks nothing and touches no other file |
| `Inodes.DecodeEncode` | kernel/src/blk/limnfs.c:500-534 | reading an encoded inode gives the inode |
| `Inodes.WriteInodeTable` | kernel/src/blk/limnfs.c:519-534 | storing an inode changes that inode and no other one of the table |
| `LimnFs.LimnFs.ReadInode` | kernel/src/blk/limnfs.c:500-517 | returns the table's inode, or fails exactly for numbers out of range |
| `LimnFs.LimnFs.WriteInode` | kernel/src/blk/limnfs.c:519-534 | rewrites the slot of that inode in its table block and nothing else |
| `LimnFs.LimnFs.AllocInode` | kernel/src/blk/limnfs.c:536-547 | takes the lowest clear inode bit other than inode 0's, or fails only when all are set; the free-inode count follows the clear bits |
| `LimnFs.LimnFs.FreeInode` | kernel/src/blk/limnfs.c:549-638 | exactly the blocks of the inode's whole tree become free, the inode and its bit are cleared, every other inode keeps map and data; the free-inode count follows the clear bits exactly when the bit was set |
| `LimnFs.LimnFs.FreeLeaves` | kernel/src/blk/limnfs.c:563-572 | frees exactly a single indirect block and its entries |
| `LimnFs.LimnFs.FreeDouble` | kernel/src/blk/limnfs.c:575-594 | frees exactly a two-level tree although the child overwrites the parent's buffer |
| `LimnFs.LimnFs.FreeTriple` | kernel/src/blk/limnfs.c:597-626 | the same for a three-level tree |
| `LimnFs.LimnFs.Truncate` | kernel/src/blk/limnfs.c:1100-1272 | shrinking keeps the map below the cut and empties it above, frees exactly the blocks cut off and keeps no pointer block without entries; growing changes the size only |
| `LimnFs.LimnFs.ShrinkFile` | kernel/src/blk/limnfs.c:1115-1265 | the block-freeing part of truncation over all thirteen roots |
| `LimnFs.LimnFs.CutLeaves` | kernel/src/blk/limnfs.c:1124-1144 | cuts a single indirect block at a position and drops it when nothing is left |
| `LimnFs.LimnFs.CutDouble` | kernel/src/blk/limnfs.c:1147-1196 | the same one level up, re-reading the parent after every child |
| `LimnFs.LimnFs.CutTriple` | kernel/src/blk/limnfs.c:1199-1265 | the same two levels up |
| `FsStep.KeptBlocksCover` | kernel/src/blk/limnfs.c:1112-1113 | the kept blocks cover the new size if and only if the 32-bit rounding does not wrap |
| `LimnFs.LimnFs.WriteData` | kernel/src/blk/limnfs.c:814-855 | the bytes reported written equal the buffer, other bytes of the file are unchanged, new blocks read zero elsewhere, the size is the maximum in 32 bits, no other inode changes; a short write leaves at most one free block |
| `FileData.WroteStep` | kernel/src/blk/limnfs.c:820-846 | one round of the loop extends the written prefix and disturbs no other byte |
| `FileData.SetByteOne` | kernel/src/blk/limnfs.c:839-840 | storing a byte changes that byte of the block only |
| `LimnFs.LimnFs.ReadBlocks` | kernel/src/blk/limnfs.c:767-812 | the output is made of the blocks of the file up to the length or the first hole, each one named: those in runs of two to eight whole consecutive blocks as the device held them, the others as the cache presents them |
| `LimnFs.LimnFs.ReadSequential` | kernel/src/blk/limnfs.c:688-746 | succeeds exactly when the four spot checks hold; the output is then made of the blocks counted on from the first one, whole ones as the device held them, the others as the cache presents them |
| `LimnFs.LimnFs.ReadData` | kernel/src/blk/limnfs.c:748-812 | clamps to the size and takes one of the two paths; on ranges that are consecutive if they pass the spot checks, the output is the file if device and cache agree beforehand on the blocks fetched past the cache, and only then if the device does not change meanwhile |
| `ReadPath.SpotCheckSound` | kernel/src/blk/limnfs.c:697-704 | on an ascending map the check at the last block forces every block of the range to be consecutive |
| `ReadPath.SpotCheckFooled` | kernel/src/blk/limnfs.c:697-704 | a well-formed file of eight blocks with one elsewhere passes all four spot checks and is misread by the sequential path |
| `ReadPath.FastIfConsecutive` | kernel/src/blk/limnfs.c:707-745 | on consecutive blocks every byte of the fast path is the file's byte |
| `ReadPath.FastOnlyIfConsecutive` | kernel/src/blk/limnfs.c:707-745 | if one block is out of place, some contents of it make the fast path misread the file |
| `ReadPath.ReadsFileUnique` | kernel/src/blk/limnfs.c:748-812 | reading up to the first hole determines the bytes returned |
| `ReadPath.ReadAfterWrite` | kernel/src/blk/limnfs.c:748-855 | bytes are the file on the range just written if and only if they are the buffer |
| `ReadPath.DeliveredIff` | kernel/src/blk/limnfs.c:748-812 | the output of either path is the file if and only if every block taken past the cache equals the file's block |
| `ReadPath.ReadsFileIff` | kernel/src/blk/limnfs.c:776-798 | the same in terms of the device before the call: agreement suffices, and is necessary when the device does not change |
| `ReadPath.ReadBackIff` | kernel/src/blk/limnfs.c:776-798 | two adjacent blocks just written are read back as the buffer if and only if the device already holds both |
| `ReadPath.StaleRead` | kernel/src/blk/limnfs.c:776-798 | a well-formed new file of two adjacent blocks, written with ones, is not read back as written while the device holds zeros |
| `LimnFs.LimnFs.WriteFlushRead` | kernel/src/blk/limnfs.c:748-855 | after writing and flushing, reading the range returns the bytes written if and only if they end below 2^32 |
| `LimnFs.LimnFs.DirLookup` | kernel/src/blk/limnfs.c:859-884 | the inode of the first live entry of that name before the first hole, else -1 |
| `LimnFs.LimnFs.DirAdd` | kernel/src/blk/limnfs.c:886-954 | succeeds exactly for a legal name and a directory with an unused entry, a mapped next block or enough free blocks, and fills the first unused entry or appends one, with number, length, type and name; a failure changes no map and loses one block exactly when the next entry needs the double root that is missing and two blocks are free, else none |
| `LimnFs.LimnFs.DirRemove` | kernel/src/blk/limnfs.c:956-985 | clears number and name of exactly the first live entry of that name, and succeeds exactly when there is one; length and type stay behind |
| `LimnFs.LimnFs.DirIter` | kernel/src/blk/limnfs.c:987-1020 | finds entry number `index` exactly when more than `index` entries before the first hole are live; it is live with exactly `index` live ones before it, and the copy handed out, type included, is that entry |
| `Directory.FindUnusedIs` | kernel/src/blk/limnfs.c:897-922 | the entry an addition takes is the first unused one before the first hole |
| `Directory.FindAdded` | kernel/src/blk/limnfs.c:886-954 | after an addition the new name is found at its entry if the scans reach it and no earlier one is found; every other name is found where it was |
| `Directory.FindRemoved` | kernel/src/blk/limnfs.c:956-985 | after a removal the name is found at its next entry, every other name where it was |
| `Directory.FindIs` | kernel/src/blk/limnfs.c:859-884 | a lookup gives the first live entry of the name before the first hole, and nothing exactly when there is none |
| `Directory.FindNthIs` | kernel/src/blk/limnfs.c:987-1020 | an entry number exists exactly when enough entries before the first hole are live, and counts the live ones before it |
| `Directory.LooksEmptyIs` | kernel/src/blk/limnfs.c:1083-1088 | without mapped entries behind a hole, the emptiness test succeeds if and only if no entry is live |
| `Directory.IslandHides` | kernel/src/blk/limnfs.c:1083-1088 | with such an entry, the same map with other contents passes the test and has a live entry |
| `Directory.FillEnd` | kernel/src/blk/limnfs.c:914-918 | number, length, type and the copied, terminated name read back as they were given, and no other entry changes |
| `LimnFs.LimnFs.Create` | kernel/src/blk/limnfs.c:1024-1073 | succeeds exactly with a free inode, a legal name and a directory with room; then the new inode is an empty file or directory as asked, without blocks, with its parent recorded, and its entry carries its number, type and name; all other inodes are kept and every lookup in the directory is determined; blocks are lost exactly when the inode taken still owned some, or the failed addition loses one; directories without holes stay so |
| `Names.ResetOp` | kernel/src/blk/limnfs.c:1029-1040 | storing a fresh inode loses exactly the blocks that its slot owned, and keeps every other inode |
| `Names.LinkedNames` | kernel/src/blk/limnfs.c:1024-1073 | lookups after a creation, for every name, unless the 32-bit size of the directory wraps |
| `Names.CreatedIsFound` | kernel/src/blk/limnfs.c:1024-1073 | a name absent from a directory without holes is found after its creation, with its inode |
| `Names.SolidLinked` | kernel/src/blk/limnfs.c:886-954 | adding an entry to a directory without holes leaves none |
| `Pitfalls.EnteredNotFound` | kernel/src/blk/limnfs.c:886-954 | format, grow the root directory by a block, create: the name is entered, not found, and the directory looks empty |
| `Pitfalls.FailedAndLost` | kernel/src/blk/limnfs.c:929-935 | on a disk of 37 blocks: format, grow the root directory to the double indirect range, create: it fails and a block is lost |
| `LimnFs.LimnFs.Delete` | kernel/src/blk/limnfs.c:1075-1098 | succeeds exactly on a name that stands for a file or a directory without live entries before its first hole; removes the entry, determines every lookup afterwards and frees the child's tree without losing a block; a directory without holes is deleted only when no entry is live; failure changes nothing; the free-inode count follows the clear bits exactly when the child was in use |
| `LimnFs.LimnFs.Format` | kernel/src/blk/limnfs.c:316-411 | an empty consistent disk: the fewest bitmap blocks with a bit for each block, the table behind them, only the root directory, every data block and every other inode free and counted; it is valid if and only if the leftover allocation hint is on it |
| `FsStep.FreshTable` | kernel/src/blk/limnfs.c:384-393 | a zeroed inode table describes a consistent disk without files |
| `LimnFs.LimnFs.Run` | kernel/src/blk/limnfs.c:316-1272 | over every sequence of calls the disk stays consistent, each call loses blocks exactly when the state before it says so, and directories stay without holes unless one is truncated or written from outside; the free-inode count never falls below the clear bits, and equals them if nothing was deleted |
| `LimnFs.LimnFs.Step` | kernel/src/blk/limnfs.c:316-1272 | the same for one call |
| `LimnFs.RunLoses` | kernel/src/blk/limnfs.c:316-1272 | a run without a losing call ends with no more lost blocks than it began with, and one that touches no directory from outside leaves them without holes |
| `LimnFs.TidyCosts` | kernel/src/blk/limnfs.c:1024-1073 | while unused inodes own nothing, a creation loses a block exactly when its failed addition does |
| `ReadPath.SpotOnDisk` | kernel/src/blk/limnfs.c:697-733 | a range that passes the spot checks ends on the disk, so the fast path cannot run past it |
| `Names.NoSharedBlock` | kernel/src/blk/limnfs.c:104-312 | on a consistent disk no block is reached from two inodes, two positions, or as data and pointer block; reached blocks are marked data blocks |
| `FsStep.AbandonOp` | kernel/src/blk/limnfs.c:929-935 | when allocation fails and the inode is not stored, the disk stays consistent, every map is kept, and exactly the blocks are lost that the grown file has and the stored one does not reach |
| `FsStep.LossCount` | kernel/src/blk/limnfs.c:198-303 | without room and with the root of its range missing, an addition makes and loses one pointer block exactly in the double range with two free blocks, else none |
| `Builder.Image.AllocBlock` | tools/mklimnfs.py:91-99 | hands out blocks in order, exactly those below the next one are marked; fails exactly when the image is full |
| `Builder.Image.WriteFile` | tools/mklimnfs.py:136-234 | read by the kernel's map, the pointers lead to the file's blocks in order, contiguous, and to holes beyond; earlier blocks are not touched; it succeeds exactly when data and pointer blocks fit, and takes exactly those |
| `Builder.Image.WriteLeaf` | tools/mklimnfs.py:171-179 | a pointer block listing the next data blocks |
| `Builder.Image.WriteDouble` | tools/mklimnfs.py:181-196 | a two-level tree over the next data blocks |
| `Builder.Image.WriteTriple` | tools/mklimnfs.py:198-220 | a three-level tree over the next data blocks |
| `Builder.FileBuilt` | tools/mklimnfs.py:164-222 | thirteen roots built side by side form a well-formed file whose map is the block list |
| `Builder.KernelReadsFile` | tools/mklimnfs.py:144-222 | every byte the kernel sees is the host file's byte |
| `Builder.KernelFastReadSafe` | kernel/src/blk/limnfs.c:684-704 | the kernel's bulk reads of such a file are safe |
| `Builder.BuilderInodeInTable` | tools/mklimnfs.py:108-114 | of 1024 inode numbers exactly those below 1015 lie inside the builder's table |
| `ImageFormat.KernelReadsInode` | tools/mklimnfs.py:108-127 | an inode packed and placed by the builder, byte for byte, is the inode the kernel reads |
| `ImageFormat.KernelReadsDentry` | tools/mklimnfs.py:129-134 | so is a directory entry whose name leaves room for its end |
| `ImageFormat.EmptyPacked` | kernel/src/blk/limnfs.c:628-631 | the inode stored for a freed number is 116 zero bytes |
| `BCache.BCache.constructor` | kernel/src/blk/bcache.c:117-138 | an empty consistent cache with all entries in the LRU list |
| `BCache.BCache.DllUnlink` | kernel/src/blk/bcache.c:41-53 | takes the entry out of the list, links of the rest intact |
| `BCache.BCache.DllPushHead` | kernel/src/blk/bcache.c:55-64 | puts the entry in front of the list |
| `BCache.BCache.HashFind` | kernel/src/blk/bcache.c:72-81 | finds the valid entry of a block, and nothing exactly when the block is not cached |
| `BCache.BCache.HashInsert` | kernel/src/blk/bcache.c:83-87 | the chains then hold exactly the valid entries, each in its bucket |
| `BCache.BCache.HashRemove` | kernel/src/blk/bcache.c:89-101 | the chains then hold exactly the other valid entries |
| `BCache.BCache.WritebackEntry` | kernel/src/blk/bcache.c:104-113 | a dirty entry reaches the disk and becomes clean; callers see no change |
| `BCache.BCache.Read` | kernel/src/blk/bcache.c:140-197 | returns the block's current value, makes it most recent; a miss reuses the least recent entry and a hit leaves the disk |
| `BCache.BCache.Write` | kernel/src/blk/bcache.c:199-248 | the block reads as the new value from now on and is most recent |
| `BCache.BCache.Invalidate` | kernel/src/blk/bcache.c:250-275 | the block is no longer cached and the disk has its value; callers see no change |
| `BCache.BCache.FlushEntry` | kernel/src/blk/bcache.c:281-284 | one lock section of a flush |
| `BCache.BCache.Flush` | kernel/src/blk/bcache.c:277-286 | alone, a flush makes the disk equal to what callers see |
| `BCache.BCache.FlushAmong` | kernel/src/blk/bcache.c:277-286 | a flush whose lock sections run among any calls and other flushes records such a run, and afterwards every block on disk holds a value that callers saw since it began |
| `BCache.BCache.Run` | kernel/src/blk/bcache.c:140-286 | over every sequence of calls each read returns the last value written before it, else the initial one, and all structures stay consistent |
| `CacheModel.AfterLast` | kernel/src/blk/bcache.c:140-286 | the reference map holds the value of the last write of a block |
| `CacheModel.AfterNone` | kernel/src/blk/bcache.c:140-286 | a block never written keeps its initial value |
| `CacheModel.UnlinkLinks` | kernel/src/blk/bcache.c:41-53 | unlinking keeps a doubly linked list of the remaining entries |
| `CacheModel.RemoveHash` | kernel/src/blk/bcache.c:89-101 | removing one entry keeps every other chain and entry |
| `CacheModel.WriteBackCoherent` | kernel/src/blk/bcache.c:104-113 | writing an entry back keeps cache, disk and callers' view coherent |
| `CacheModel.FlushDurable` | kernel/src/blk/bcache.c:277-286 | after a flush every block on disk holds a value current at or after the flush began, whatever ran between its lock sections |
| `Leb128.Leb128U` | tools/gen_wasm.py:13-24 | the encoding loop produces the unsigned encoding |
| `Leb128.Leb128S` | tools/gen_wasm.py:26-37 | the encoding loop produces the signed encoding |
| `Leb128.ReadU32` | user/libc/wasm.c:151-164 | the loop computes the unsigned decoding and position on any bytes |
| `Leb128.ReadS32` | user/libc/wasm.c:166-181 | the loop computes the signed decoding and position on any bytes |
| `Leb128.RoundTripU` | user/libc/wasm.c:151-164 | decoding undoes unsigned encoding for every 32-bit value, in at most five bytes |
| `Leb128.RoundTripS` | user/libc/wasm.c:166-181 | decoding undoes signed encoding for every 32-bit value, in at most five bytes |
| `Leb128.EncodesU` | tools/gen_wasm.py:13-24 | the bytes are the base-128 digits of the number, lowest first, without leading zeros, and all but the last are marked |
| `Leb128.EncodesS` | tools/gen_wasm.py:26-37 | the same in two's complement, with the sign in bit 6 of the last byte |
| `WasmCode.Opcodes` | user/libc/wasm.c:36-65 | the opcodes of control and variable instructions, as decoded and as encoded |
| `WasmArith.AluMeans` | user/libc/wasm.c:644-700 | by opcode and operand order: wrapped sums, differences and products, truncating division, comparisons and bitwise results; no result exactly for the least word by -1 |
| `WasmArith.MeansUnique` | user/libc/wasm.c:644-700 | these laws leave one result |
| `WasmArith.StackLaws` | user/libc/wasm.c:608-643 | a pushed value can be dropped, tested, stored and fetched; `local.tee` is `local.set` followed by `local.get` |
| `WasmArith.CallBinds` | user/libc/wasm.c:591-601 | parameter `i` of the callee is the `i`-th of the topmost values, deepest first; other locals are 0 |
| `WasmArith.CallReturns` | user/libc/wasm.c:599-606 | after a call the arguments are gone and the result, if any, is on top |
| `WasmArith.BranchLaws` | user/libc/wasm.c:419-565 | a branch leaves a block and repeats a loop, and both cut the stack back to the height at entry |
| `WasmCode.SkipToEndOrElse` | user/libc/wasm.c:326-360 | the loop computes the scanning function |
| `WasmCode.SkipBlockToEnd` | user/libc/wasm.c:363-392 | the loop computes the scanning function |
| `WasmCode.SameLengths` | user/libc/wasm.c:326-392 | scanners and interpreter agree on the length of every instruction, on any bytes |
| `WasmCode.LandEnd` | user/libc/wasm.c:326-392 | from inside a body both scanners stop just behind the matching end |
| `WasmCode.LandElse` | user/libc/wasm.c:326-392 | with an else, one scanner stops behind it and the other behind the end |
| `WasmSim.Simulates` | user/libc/wasm.c:400-761 | every result or fault of the structured semantics is the interpreter's on the encoding |
| `WasmSim.Reflects` | user/libc/wasm.c:400-761 | every result or fault of the interpreter on an encoding is the structured semantics' |
| `WasmSim.ExecMono` | user/libc/wasm.c:400-713 | more fuel changes nothing but the fuel left |
| `Wasm.Interpreter.Step` | user/libc/wasm.c:408-707 | one turn of the in-place dispatch loop is one turn of the flat machine |
| `Wasm.Interpreter.ExecCode` | user/libc/wasm.c:400-713 | the loop over a body computes the flat machine's run |
| `Wasm.Interpreter.DoCall` | user/libc/wasm.c:572-606 | arguments are popped, the result pushed, and a failed lookup returns 0 |
| `Wasm.Interpreter.ExecFunction` | user/libc/wasm.c:715-761 | a call restores the stack height and call depth and returns the callee's value |
| `Wasm.Interpreter.Invoke` | user/libc/wasm.c:715-761 | running an assembled function gives the value and stack of the structured semantics, whose instructions are pinned by the laws of `WasmArith`; it runs out of fuel only where the semantics has no result yet or more fuel makes it finish |
| `Wasm.Interpreter.Binary` | user/libc/wasm.c:644-700 | the two topmost values are replaced by what the opcode stands for, the lower one being the first operand |
| `WasmPrograms.TwoOperandsMean` | tools/gen_wasm.py:85-89 | a body of `local.get 0`, `local.get 1` and a numeric opcode computes that operation of its first and second argument in four turns, from bytes, for every numeric opcode |
| `WasmPrograms.TestBytes` | tools/gen_wasm.py:80-150 | the structured bodies of `add`, `fib` and `hello` assemble to the generator's bytes |
| `WasmPrograms.AddRuns` | tools/gen_wasm.py:80-92 | `add` in the interpreter returns the sum wrapped to 32 bits |
| `WasmPrograms.FibRuns` | tools/gen_wasm.py:94-136 | `fib` in the interpreter returns the Fibonacci number for every argument up to 16, and less for every larger one, because deeper calls return 0 |
| `WasmPrograms.FibEval` | user/libc/wasm.c:734-737 | at any call depth `fib` returns the Fibonacci recursion cut off where the frames end |
| `WasmPrograms.HelloRuns` | tools/gen_wasm.py:138-148 | `hello` returns what the host's `print` returns for 42 |
| `Mutex.MutualExclusion` | user/libc/libc.h:558-583 | for any number of threads and any run, at most one owner, and the word is 0 exactly when there is none |
| `Mutex.NoLostWakeup` | user/libc/libc.h:558-583 | whenever a thread sleeps, a holder will see the 2, or a waker is under way, or a thread is about to write 2 |
| `Mutex.QuietMeansFree` | user/libc/libc.h:558-583 | when all threads are idle or asleep, none is asleep and the lock is free |
| `Mutex.SleeperCanWake` | user/libc/libc.h:558-583 | in every reachable state any sleeper can be woken by at most four steps of other threads |
| `Mutex.StepInv` | user/libc/libc.h:558-583 | every atomic step keeps exclusion and attendance |
| `Mutex.Uncontended` | user/libc/libc.h:558-583 | on a free lock both lock and trylock make the thread the owner, and unlocking restores the state |
| `Mutex.Contended` | user/libc/libc.h:558-583 | on a taken lock trylock changes nothing and lock leaves the word alone |
| `Mutex.WaitSleeps` | user/libc/libc.h:567-570 | a thread sleeps exactly when the word is still 2 |
| `Mutex.WakesOne` | user/libc/libc.h:573-579 | a wake-up moves one sleeper and nobody else |
| `Mutex.CanAcquire` | user/libc/libc.h:558-579 | in every reachable state any thread that is about to lock, or is inside `umutex_lock`, can be brought to hold the lock in at most seven steps without a spurious wake-up |
| `HeapList.NeedEnough` | user/libc/malloc.c:65-67 | the block size holds the request if and only if the 64-bit additions do not wrap |
| `HeapList.NeedWraps` | user/libc/malloc.c:65-67 | a request near the word size gets a 48-byte block |
| `HeapList.PagesEnough` | user/libc/malloc.c:25-29 | the pages mapped hold the request, and are the fewest that do beyond the minimum of four |
| `HeapList.PagesWrap` | user/libc/malloc.c:25-29 | the page count wraps to 0 exactly for the last 4095 sizes |
| `HeapList.MergeSplit` | user/libc/malloc.c:72-125 | merging undoes splitting |
| `HeapList.SplitLinked` | user/libc/malloc.c:76-84 | the header updates of a split link exactly the split list, both ways |
| `HeapList.MergeLinked` | user/libc/malloc.c:110-125 | the header updates of a merge link exactly the merged list, both ways |
| `HeapList.LiveApart` | user/libc/malloc.c:61-169 | blocks in use do not overlap |
| `HeapList.HeadersOutsidePayloads` | user/libc/malloc.c:7-12 | no header lies in a payload |
| `Heap.Heap.Expand` | user/libc/malloc.c:24-59 | adds the mapped bytes at the end of the list, merged into a free last block it touches; the last block then holds the request |
| `Heap.Heap.Fit` | user/libc/malloc.c:69-91 | takes the first fitting block, cut to size, or finds that none fits |
| `Heap.Heap.Malloc` | user/libc/malloc.c:61-100 | a new block in use, first fit, after at most one expansion; all others untouched; null only when mapping failed |
| `Heap.Heap.Free` | user/libc/malloc.c:102-126 | exactly that block leaves use, neighbours are merged, every byte stays accounted for |
| `Heap.Heap.Realloc` | user/libc/malloc.c:128-169 | keeps, grows or moves the block; it stays in place when it is large enough or can grow into its neighbour; common bytes and all other payloads are preserved; failure changes neither blocks nor bytes and needs a refused mapping |
| `KvCache.Causal` | user/libc/transformer.c:612-639 | later tokens change no layer input at earlier positions |
| `KvCache.HeadFits` | user/libc/transformer.c:613-615 | every query head's key/value head lies inside its row |
| `KvCache.HeadGroups` | user/libc/transformer.c:613-615 | the key/value head of a query head is the one of its run of `heads / kvHeads` neighbours |
| `KvCache.HeadIndexed` | user/libc/transformer.c:613-639 | the output of a head by index: which components of query, keys and values it combines |
| `Transformer.BaseIs` | user/libc/transformer.c:582-583 | the 32-bit offset products do not wrap and rows fit their half of the buffer |
| `Transformer.RowsApart` | user/libc/transformer.c:582-583 | rows of different layers or positions do not overlap |
| `Transformer.RowFitsExact` | user/libc/transformer.c:582-583 | a row lies in the part of its layer if and only if its position is below the sequence limit; at the limit it is the next layer's first row, or leaves its half of the buffer |
| `Transformer.Transformer.HeadPass` | user/libc/transformer.c:613-639 | the in-place score, softmax and sum loops compute one head of attention over the cached rows, reading the key/value head of its group |
| `Transformer.Transformer.Fill` | user/libc/transformer.c:582-610 | writes exactly one key row, rotated in place, and one value row |
| `Transformer.Transformer.Layer` | user/libc/transformer.c:571-686 | a layer turns the position's input into its causal output and leaves the rows of the other layers |
| `Transformer.Transformer.Forward` | user/libc/transformer.c:537-701 | the logits equal those of a cache-free causal pass over all tokens fed since the reset, in which every query head reads the key/value head of its group |
| `Transformer.Transformer.Prefill` | user/programs/inferd.c:110-116 | resetting the position alone is enough: the prompt's logits are the cache-free ones whatever the buffer held |
| `Vocab.SamePrefixIs` | user/libc/gguf.c:301-302 | the bounded comparison of equal-length strings is equality when the stored one has no zero byte before its last |
| `Vocab.SamePrefixExact` | user/libc/gguf.c:301-302 | and for all strings of that length only then |
| `Vocab.Build` | user/libc/gguf.c:270-290 | inserting every id ends and stores each behind smaller ids only |
| `Vocab.Lookup` | user/libc/gguf.c:292-307 | ends at an empty slot or the first id the comparison accepts; with exact comparison it returns the least id a full scan finds, or none exactly when there is none |
| `Vocab.EndsIsScan` | user/libc/gguf.c:292-307 | with exact comparison, where probing ends is what a scan of the whole vocabulary finds first |
| `Bpe.PassSpelling` | user/libc/tokenizer.c:129-147 | a rule that preserves spelling preserves the spelling of the whole token list |
| `Bpe.EncodedSpells` | user/libc/tokenizer.c:120-150 | the tokens of a text spell the text |
| `Bpe.PassComplete` | user/libc/tokenizer.c:134-146 | no text keeps a match of a rule after its pass if and only if the result is not the right side alone, or both sides are equal |
| `Bpe.SpellingComplete` | user/libc/tokenizer.c:134-146 | with a non-empty left string and preserved spelling no match survives |
| `Bpe.ApplyMerge` | user/libc/tokenizer.c:129-147 | the in-place loop with its shifting ends and computes one left-to-right pass |
| `Bpe.Encode` | user/libc/tokenizer.c:120-150 | as much of the text as fits, split into bytes, then a chain of token lists in which list `k + 1` is the pass of rule `k` over list `k`, ending in the output |
| `Bpe.ChainEnds` | user/libc/tokenizer.c:129-147 | such a chain ends in the rules applied in order |
| `Bpe.PassesConcat` | user/libc/tokenizer.c:129-147 | earlier rules are applied first |
| `Bpe.PassLeftmost` | user/libc/tokenizer.c:135-146 | up to its first match a pass changes nothing, and the result takes part in what follows |
| `Bpe.PassNone` | user/libc/tokenizer.c:135-146 | without a match a pass changes nothing |
| `Bpe.Decode` | user/libc/tokenizer.c:152-165 | writes the spelling of the longest run of tokens that fits, terminated |
| `Bpe.RoundTrip` | user/libc/tokenizer.c:120-165 | decoding the encoding of a text that fits gives the text |
| `ServiceBoot.Services.FindService` | user/programs/serviced.c:78-84 | the first used entry of the name, or -1 |
| `ServiceBoot.Services.StartOne` | user/programs/serviced.c:125-141 | the entry is up with the number of its supervisor exactly when create, add and start all succeed; otherwise nothing changes |
| `ServiceBoot.Services.RunPass` | user/programs/serviced.c:223-251 | a pass settles ready entries; without progress every waiting entry depends on a waiting one |
| `ServiceBoot.Services.Boot` | user/programs/serviced.c:204-253 | passes end; starts are in dependency order; settled plus waiting is the count; an entry is up only if create, add and start succeeded for it, and dropped only if one failed or no entry of its dependency's name is left; every entry ends as the configuration and the starts decide |
| `ServiceBoot.StepOrdered` | user/programs/serviced.c:223-251 | each start comes after the start of the service it names |
| `ServiceBoot.Decided` | user/programs/serviced.c:204-253 | the final state of every entry is its fate, independent of the order of passes |
| `ServiceBoot.RunsIntoCycle` | user/programs/serviced.c:212-220 | the chain of dependencies of every entry left waiting stays among waiting entries and repeats |
| `ServiceBoot.StepWaiting` | user/programs/serviced.c:223-251 | entries whose dependencies never leave a set keep waiting |

## Left out

- Mounting, syncing and the on-disk copies of superblock and bitmaps; the model keeps the in-memory ones that allocation uses.
- Failed device requests: the code keeps no clean law after them.
- The inode field `block_count`, which the code counts in two ways; it is modelled but nothing is claimed about it.
- Bytes behind a truncation inside a block are not zeroed by the code; nothing is claimed about them.
- Vocab.Lookup: a table without an empty slot is outside the contract, because probing would not end.
- Wasm.Interpreter.Invoke: immediates from 2^31 on are outside the encoding, because the code casts them to signed; the quotient of the least integer by -1 is a fault of both semantics, because the code leaves it undefined; a local index beyond the sixteen slots of a frame is ignored, where the code would leave its array.
- LimnFs.LimnFs.WriteData: writes past the last block that the triple indirect range can address (4 TB) are outside the contract, because the code then leaves its pointer array.
- LimnFs.LimnFs.Format: a device too small for the reserved area is outside the contract, because the code does not check it.
- LimnFs.LimnFs.DirLookup: a stored name is taken to end within its 58 bytes. The kernel always ends it; the image builder can store 58 bytes without an end, and the code would compare on into the next entry.
- Heap.Heap.Malloc: the address the kernel grants is page aligned, below the limit and apart from every block; anything else is a kernel fault.
- Transformer.Transformer.Forward: positions at or beyond the sequence limit are outside the contract, because the code writes outside its layer there (`RowFitsExact`); so are configurations whose buffer index exceeds 32 bits, and dimensions that are no multiple of the head count, which the code divides.
- Transformer.Transformer.Prefill: prompts longer than the sequence limit are outside the contract for the same reason.
- Bpe.Decode: the sum of position and token length is not wrapped at 32 bits; buffers and strings of the code are far smaller.
- Fairness of the futex: which sleeper is woken, and that every thread eventually runs.
- WebAssembly section parsing, exports, linear memory and printing.
- The order in which the image builder adds directory entries, its bitmaps on disk, and host file input.
- GGUF parsing around the vocabulary, `calloc`, sampling, the arithmetic of layers, quantized formats.
- Configuration parsing, health checks and the command interface of the service daemon.
- Device drivers, the scheduler, networking, the shell and user programs.
