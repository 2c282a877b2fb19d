# A model of imgeditor in Dafny

imgeditor reads, rewrites and writes binary images: flash file systems, sparse images, devicetrees,
partition tables. This project models the parts of it that carry invariants, and proves them.

* **UBI/UBIFS reader** (`UbiIndex`, `UbiLoad`, `UbiFiles`, `UbiList`, `UbiUnpack`, `UbiStored`, `UbiCache`): the index
  tree as it is loaded and searched, directory listing and file reassembly built on the search, and the cache of
  eight eraseblocks, whose answers over whole runs are those of a reader without a cache.
* **CRC library** (`CrcWord`, `CrcDivision`, `CrcPolynomial`, `Crc`): the table-driven streams against long division of
  polynomials.
* **Bitmaps and sparse images** (`Bitmask`, `SparseFormat`, `SparseWriter`, `SparseReader`, `SparseRoundTrip`,
  `SparseMeaning`): the runs of a bitmap, the writer that turns them into chunks, and the two programs that read chunks.
* **Streaming hashes** (`BlockHash`, `Md5`, `Sha`): buffering, counters and padding against the definitions in
  RFC 1321 and FIPS 180-3, for any compression function.
* **Devicetrees** (`FdtTokens`, `FdtTree`, `Fdt`, `FdtLookup`): the token loop that links up nodes on the heap.
* **ext2/ext4** (`Ext2Groups`, `Ext2Trail`, `Ext2Blocks`, `Ext2Marks`, `Ext2BlockReader`, `Ext2Extents`,
  `Ext2ExtentReader`): backup groups, indirect blocks and extent trees.
* **Numbers and partition tables** (`Numbers`, `Guid`, `Gpt`): text forms that must undo each other.

`Base` holds fixed-width types, byte encodings and file writes. Code that changes things step by step is
modelled by methods and classes; each is tied to functions on values, and the lemmas are about those. What the functions
mean is stated in terms of bytes, bits, digits and trees that do not go through the functions themselves.

## How the parts are modelled

* Buffers are arrays or sequences of bytes, files are byte sequences with a position, JSON objects are maps from
  names to strings. Widths are explicit: `uint32` and its relatives are subsets of `int`, and every place where the
  source wraps around or truncates is written out.
* Reading a block of a medium is a function that may give nothing, which stands for a failed read. A structure that
  runs past the end of a buffer is treated as an error where the source would read on behind it.
* CRC registers are bit sequences of either width, so one class stands for the 16-bit and the 32-bit half of the
  library. One SHA context stands for the three source files, which differ in word size and constants only.
* The three indirect-block readers that a macro generates are one method with a level.
* `strtoull` follows the C standard: space, sign, prefix, digits, negation modulo 2^64, saturation.

## Where the code differs from its names or its purpose

* `bitmask_unset_bits` sets bits (`Bitmask.Bitmask.UnsetBits`).
* Marking blocks of a sparse image goes unnoticed where more than 2^31 of them lie past its end
  (`SparseWriter.SparseInput.AddChunk`).
* Finishing a sparse image without marked blocks writes a complete file and reports failure (`SparseWriter.ReturnValue`).
* A gap or a last run of 4 GiB or more in a sparse image shrinks when it is unpacked (`SparseRoundTrip.RoundTrip`), and
  behind another run of that size the reader looks for the next chunk in the wrong place (`SparseRoundTrip.LongRunFails`).
* The checksum of a sparse image does not notice missing data, so it can succeed where unpacking fails
  (`SparseReader.ResultsDiffer`, `SparseReader.CutImageDiffers`).
* Listing a directory goes on for ever when all its entries can be listed and one of them has the greatest hash, or when
  directories contain each other (`UbiList.DirectoryEnds`, `UbiList.ListingEnds`); so does loading an index whose nodes
  refer to each other (`UbiLoad.LoadEnds`).
* Blocks of a file from 4 GiB on are written at offsets that wrapped around (`UbiUnpack.LargeFile`), and behind the
  greatest block number the unpacker may start again (`UbiUnpack.UnpackStops`).
* Reading a block that a scan cannot reach, such as one of the volume table, changes later answers for the same
  logical number (`UbiCache.PebCache.ReadThenLookUp`).
* The test for backup groups and the enumeration of them disagree from 2^31 on (`Ext2Groups.MissedGroup`), and the
  enumeration skips group 1 when it is started from group 0 (`Ext2Groups.NextSparseSuperBlockNumber`).
* Pointer blocks of a file that lie behind a zero entry are neither read nor marked as used (`Ext2Marks.MarksMean`,
  `Ext2Marks.UnmarkedPointer`).
* A partition behind an unused entry of the table is lost when the table is written and loaded (`Gpt.GapsLose`).
* A used partition that ends just before it starts is written with size 0 and cannot be loaded (`Gpt.PartLoads`).

## Model

| member | source | states |
|---|---|---|
| `UbiIndex.MaxKeyIsLast` | fs/ubi.c:572-581 | The rightmost descent of a branch that is well formed ends at its last leaf, and no leaf of the branch has a greater key. |
| `UbiIndex.ClearedAbove` | fs/ubi.c:1703-1707 | A branch key that stays above the lower bound after its 29 hash bits are cleared is above every key of that inode and type, so giving up there loses nothing. |
| `UbiIndex.BranchFindLeaf` | fs/ubi.c:1666-1682 | The scan of one branch gives the first entry whose key is in range, and nothing exactly when none is. |
| `UbiIndex.SplitSearch` | fs/ubi.c:1695-1721 | Why the search may skip a child, commit to the first child whose maximum reaches the lower bound, or stop: in each case the first leaf in range of the whole tree is that of the child, or there is none. |
| `UbiIndex.Find` | fs/ubi.c:1684-1722 | For every index of any depth that is in order, the range search returns the first leaf in tree order with its key between the two bounds, and nothing exactly when no leaf has one. |
| `UbiIndex.FirstInMeans` | fs/ubi.c:849-860 | The range search by type, inode and hash, in terms of the stored key halves: the first entry with that inode number whose second half lies between type * 2^29 plus the two hashes. |
| `UbiLoad.LoadIndexNode` | fs/ubi.c:662-718 | Through the cache, an index node is accepted exactly when the block that a scan finds for its number can be read, the magic and type match and the entry count is within the fanout; then every key, block number and offset is the stored one. |
| `UbiLoad.NodeIsRead` | fs/ubi.c:662-718 | An index node is read exactly when it lies there byte by byte: magic 0x06101831, type 9 at byte 20, count at 24, level at 26, and from 28 on 20 bytes for each entry with block number, offset, length and the two halves of the key. |
| `UbiLoad.WrittenIsStored` | fs/ubi.c:720-758 | The tree that the loader follows is exactly the one whose nodes lie on the volume byte by byte, each at the block and offset that the entry above it names. |
| `UbiLoad.LebMeans` | fs/ubi.c:1181-1230 | The data of a logical block are the bytes of the image in the first physical block that is mapped to it, behind the headers. |
| `UbiLoad.Load` | fs/ubi.c:720-758 | The recursive load through the cache, wherever it ends: it returns a tree whose bytes lie at that place of the volume that the flash holds, complete to the leaves, and fails exactly when the bytes of no tree do. |
| `UbiLoad.LoadedIsStored` | fs/ubi.c:720-758 | Whatever is loaded is stored, and a load that fails shows that nothing is. |
| `UbiLoad.StoredIsLoaded` | fs/ubi.c:720-758 | A stored tree is loaded, reading its own places only, whatever the rest of the volume holds. |
| `UbiLoad.LoadEnds` | fs/ubi.c:720-758 | Levels are not checked, so a load may descend for ever: it ends exactly when some rank falls along the references that the loader follows, which stop behind the first that leads to no tree. |
| `UbiLoad.StoredOnce` | fs/ubi.c:720-758 | At most one tree is stored at a place, so what is loaded is determined. |
| `UbiLoad.OrderedIsWellFormed` | fs/ubi.c:654-661 | If in every node the keys are in order and every child lies between its own entry's key and the next, then the whole tree is in the order that the search relies on. |
| `UbiLoad.LoadAndFind` | fs/ubi.c:760-812 | Loading a tree whose bytes are on the flash through the cache and then searching gives the first leaf in range of that tree. |
| `UbiFiles.SearchWithinInode` | fs/ubi.c:849-860 | A search up to the greatest hash is a search among the leaves of that inode and type alone: the key packing keeps inode, type and hash apart. |
| `UbiFiles.SweepComplete` | fs/ubi.c:1890-1932 | Searching on from the last hash + 1 visits every entry of a directory once and in order, exactly when no two entries share a hash. |
| `UbiFiles.SweepIsStrict` | fs/ubi.c:1890-1932 | The visited hashes strictly increase. |
| `UbiFiles.SweepProgress` | fs/ubi.c:1924-1931 | The next lower bound moves on unless the greatest hash 0x1FFFFFFF was reached; there the clamp makes the search find the same entry again. |
| `UbiFiles.SweepStops` | fs/ubi.c:1890-1956 | A loop that searches on from the last hash, and stops at the first turn that fails, ends exactly unless all turns succeed and the last entry has the greatest hash. |
| `UbiFiles.ReadInode` | fs/ubi.c:1724-1750 | The inode node that the search gives, and nothing when there is none or the node is of another type. |
| `UbiFiles.InodeMeans` | fs/ubi.c:1724-1750 | The inode is read through the first leaf with its number in the first half of the key and zero in the second. |
| `UbiList.ListDent` | fs/ubi.c:1875-1959 | The recursive listing of a directory, wherever it ends: result and lines, in order, are those of the turns of its entries and subdirectories up to the first error. |
| `UbiList.TreeIsListed` | fs/ubi.c:1875-1959 | A directory tree of any depth that the volume holds, with its own inode numbers, kinds and names at literal keys, is listed in preorder with the depth as indentation, up to the first damaged entry or the first file without an inode. |
| `UbiList.ListTree` | fs/ubi.c:1875-1959 | The listing of such a tree succeeds or fails and prints as that tree says. |
| `UbiList.ListingOfSweep` | fs/ubi.c:1890-1956 | They are the turns of the first entry of each hash. |
| `UbiList.ListingOfEvery` | fs/ubi.c:1890-1956 | With distinct hashes every entry of the directory has its turn. |
| `UbiList.DirectoryEnds` | fs/ubi.c:1890-1956 | The listing of a directory ends exactly when some turn fails after turns that succeed, or all succeed and none of its entries has the greatest hash. |
| `UbiList.ListingEnds` | fs/ubi.c:1875-1959 | The whole recursion ends exactly when there is a rank that falls from each directory to the subdirectories whose turn comes, and none of them is stuck at the greatest hash; directories that are not reached do not matter. |
| `UbiUnpack.OffsetExact` | fs/ubi.c:2140-2141 | The 32-bit file offset of a block is its true offset exactly for blocks below 4 GiB; block 0x100000 lands on offset 0. |
| `UbiUnpack.NextDataNode` | fs/ubi.c:1756-1785 | The next data node from a block number on, and nothing when there is none or it cannot be read. |
| `UbiUnpack.UnpackStops` | fs/ubi.c:2108-2146 | The unpack loop of a file ends exactly unless all its nodes are good, none reaches the end of the file, and the last has the greatest block number: behind that the search starts again from block 0. |
| `UbiUnpack.WriteBlocks` | fs/ubi.c:2097-2148 | The unpack loop terminates unless the nodes are endless in that sense; the file is what writing the nodes in block order leaves, at their 32-bit offsets, up to a damaged node, a payload of the wrong size, which is the only error, or the end of the file. |
| `UbiUnpack.UnpackFile` | fs/ubi.c:2075-2153 | The same for a whole file of any size, with the errors of a missing inode and of an empty file. |
| `UbiUnpack.LargeFile` | fs/ubi.c:2108-2146 | Above 4 GiB offsets wrap around; the file is still right exactly when the blocks from 0x100000 on hold only zeros and land on zeros. |
| `UbiUnpack.SmallFile` | fs/ubi.c:2108-2146 | Up to 4 GiB the writes give the contents of all nodes. |
| `UbiUnpack.LargeGoesOn` | fs/ubi.c:2108-2146 | Above 4 GiB the loop never reaches the size of the file, so it goes on to the last node. |
| `UbiUnpack.UnpackIntactFile` | fs/ubi.c:2075-2153 | When the first data node of every block is good and ends within its block and the file, the unpacker succeeds, and the file holds all of them at their block offsets, and zeros elsewhere, exactly when wrapped offsets do no harm; up to 4 GiB they never do. |
| `UbiStored.UnpackStored` | fs/ubi.c:2075-2153 | A file of at most 4 GiB that the volume holds, its blocks at keys 0x20000000 + block with up to 4096 bytes each and holes elsewhere, is unpacked as it is. |
| `UbiStored.LoopStopsAt` | fs/ubi.c:2108-2146 | What a damaged file comes to: the nodes in front of the first one that is not whole are written, and the result is an error exactly when that one is a data node. |
| `UbiCache.FindByLnum` | fs/ubi.c:608-619 | The first live slot of that logical number, or none when no live slot has it. |
| `UbiCache.FindByPnum` | fs/ubi.c:621-632 | A live slot of that physical number, or none when no live slot has it. |
| `UbiCache.FindMinHit` | fs/ubi.c:634-647 | The first slot with the least hit count, so a dead slot is replaced before a live one. |
| `UbiCache.PebIsEmpty` | fs/ubi.c:1120-1135 | True exactly when every byte is 0xFF. |
| `UbiCache.ReplaceSlot` | fs/ubi.c:1137-1179 | Replacing one slot keeps every live slot faithful to its block and no two live slots on one block. |
| `UbiCache.Flash.ScanReaches` | fs/ubi.c:1196-1229 | A scan that starts at a block that it can reach finds only such blocks. |
| `UbiCache.Flash.ReadMeans` | fs/ubi.c:1137-1179 | The outcomes of a read in terms of the image: past its end, all bytes 0xFF, or a good block with its logical number at byte 12 of the volume identifier header. |
| `UbiCache.Flash.ScanMeans` | fs/ubi.c:1196-1229 | A scan finds a block exactly when it is the first one that carries the number and all before it can be read. |
| `UbiCache.SlotAnswers` | fs/ubi.c:608-619 | A live slot answers with its block; a scan gives the same answer exactly when it can reach that block. |
| `UbiCache.PebCache.Fill` | fs/ubi.c:1137-1179 | The outcome is that of an uncached read; only a good block leaves the slot live. |
| `UbiCache.PebCache.ReadPeb` | fs/ubi.c:1137-1179 | On every path the invariant of the cache holds afterwards, status and bytes are those of a read without a cache, and a block that does not read well is not kept. |
| `UbiCache.PebCache.ScanFlash` | fs/ubi.c:1196-1229 | Without a slot for the number the answer is that of the scan, and only blocks that the scan can reach are added to the cache. |
| `UbiCache.PebCache.ReadLeb` | fs/ubi.c:1181-1230 | A cached or scanned answer is a good block of that logical number; for a unique number it is the answer of a scan from block 2 exactly when a scan can reach it, and always when only such blocks are cached. |
| `UbiCache.PebCache.Run` | fs/ubi.c:1137-1230 | A whole run of requests, of both kinds and in any order, is answered as by a reader without a cache, if the blocks read directly are unreadable or within the reach of a scan. |
| `UbiCache.PebCache.ReadThenLookUp` | fs/ubi.c:1137-1230 | A good block that was read directly answers for its logical number from then on; that is the answer of a reader without a cache exactly when a scan can reach the block, which it cannot for the volume table and behind an unreadable block. |
| `CrcWord.Reverse8IsReversal` | libs/crc/libcrc.h:12-19 | The mask-and-shift steps on a byte reverse its bits. |
| `CrcWord.Reverse16IsReversal` | libs/crc/libcrc.h:21-29 | The same for 16 bits. |
| `CrcWord.Reverse32IsReversal` | libs/crc/libcrc.h:31-40 | The same for 32 bits, with the other form of masks and shifts. |
| `CrcDivision.RegisterIsRemainder` | libs/crc/libcrc.c:65-73 | The bit-serial shift register computes the remainder of long division by the polynomial, for every width, polynomial, initial value and message. |
| `CrcPolynomial.DivisionSplits` | libs/crc/libcrc.c:65-76 | Long division splits every polynomial into a multiple of the generator and a remainder of a lower degree. |
| `CrcPolynomial.RemainderIsUnique` | libs/crc/libcrc.c:65-76 | No other remainder does. |
| `CrcDivision.RegisterBatch` | libs/crc/libcrc.c:111-117 | Feeding up to a register's width of bits one by one is adding them at once and clocking. |
| `CrcDivision.RegisterInjective` | libs/crc/libcrc.c:65-76 | With an odd polynomial the final register determines the initial one, for every message. |
| `CrcDivision.BurstDetected` | libs/crc/libcrc.c:111-117 | Messages that differ only within a window of the register's width leave different registers. |
| `Crc.PredefinedValid` | libs/crc/libcrc.c:17-27 | Every predefined 32-bit and 16-bit algorithm has an odd polynomial and equal reflections of input and output. |
| `Crc.Parameters32` | libs/crc/libcrc.c:17-27 | The nine 32-bit parameter sets written out: the exponents of the generator, initial value, final mask and bit order. |
| `Crc.Parameters16` | libs/crc/libcrc.c:141-152 | The same for the ten 16-bit sets. |
| `Crc.ChecksumMeans` | libs/crc/libcrc.c:103-130 | Every checksum written out: message bit 8i + j is a bit of byte i, from the least significant one when reflected; the initial value is added to the first bits, zeros follow, and the result is the remainder, reversed when reflected, with the mask. |
| `Crc.PlainByte` | libs/crc/libcrc.c:114-117 | One table step of the plain form feeds one byte to the bit-serial register. |
| `Crc.ReflectedByte` | libs/crc/libcrc.c:111-113 | One table step of the reflected form is the bit reversal of feeding one byte to the bit-serial register. |
| `Crc.EntryByClocks` | libs/crc/libcrc.c:65-76 | Clocking an index through the whole register gives the table word that the byte step needs. |
| `Crc.FedIsChecksum` | libs/crc/libcrc.c:122-130 | Register and final mask together are the checksum defined by long division. |
| `Crc.FedConcat` | libs/crc/libcrc.c:103-120 | Feeding two pieces one after the other is feeding them together. |
| `Crc.BurstChangesChecksum` | libs/crc/libcrc.c:103-130 | Two messages of equal length that differ only inside a window of 4 bytes (2 for the 16-bit family) have different checksums, for every seed. |
| `Crc.Libcrc.TableWord` | libs/crc/libcrc.c:66-75 | The loop over the bits of one index computes its table word. |
| `Crc.Libcrc.GenerateTable` | libs/crc/libcrc.c:181-200 | All 256 words are those of the instance's own parameters. |
| `Crc.Libcrc.InitSeed` | libs/crc/libcrc.c:79-93 | Afterwards the table is present and is that of the instance's parameters, generated now or before, and the register holds the seed. |
| `Crc.Libcrc.Update` | libs/crc/libcrc.c:103-120 | The register becomes that of bit-serial feeding; parameters and table stay. |
| `Crc.Libcrc.Finish` | libs/crc/libcrc.c:122-130 | For every seed and data that lead to the register as it is, the result is the checksum of that data by long division. |
| `Crc.Libcrc.Compute` | libs/crc/libcrc.c:202-253 | For every seed and every split of the data into updates, the result is the checksum defined by long division of the whole data. |
| `Crc.Crc32` | crc32.c:8-16 | For every previous value and data, whatever was computed with the shared instance before: the complement of the bit-reversed remainder by x^32 + x^26 + x^23 + x^22 + x^16 + x^12 + x^11 + x^10 + x^8 + x^7 + x^5 + x^4 + x^2 + x + 1, of the message started from the complement of the previous value. |
| `Crc.Crc32Resumes` | crc32.c:8-16 | A checksum can be resumed: crc32(crc32(c, a), b) is crc32(c, a followed by b). |
| `Bitmask.Bitmask.Write` | bitmask.c:87-104 | Exactly one bit changes; an index past the end is an error and changes nothing. |
| `Bitmask.BitAtMeans` | bitmask.c:80-85 | Bit i of a bitmap is the bit of weight 2^(7 - i % 8) of byte i / 8. |
| `Bitmask.Bitmask.WriteBits` | bitmask.c:106-114 | Exactly the bits of the range that lie inside take the value; the result counts, negatively and in a signed 32-bit integer, those outside. |
| `Bitmask.Bitmask.UnsetBits` | bitmask.c:131-134 | Sets the range to ones, with the same result: the code passes 1, whatever its name says. |
| `Bitmask.Bitmask.Get` | bitmask.c:136-145 | The bit, or -1 past the end. |
| `Bitmask.Bitmask.Not` | bitmask.c:47-56 | Every bit is complemented. |
| `Bitmask.ScanStep` | bitmask.c:147-171 | Scanning one byte, most significant bit first, ends the search at the first bit of the wanted value or excludes the whole byte. |
| `Bitmask.Bitmask.FirstOne` | bitmask.c:147-174 | The first bit of the wanted value from a position on, or -1; padding bits past the end are never reported. |
| `Bitmask.Bitmask.FindInByte` | bitmask.c:150-165 | The first set bit of a byte from a position on. |
| `Bitmask.RunsAreMaximal` | bitmask.c:186-221 | The runs are exactly the maximal runs of ones, in increasing order, separated by a zero, and cover every one. |
| `Bitmask.ContinueIterator.Update` | bitmask.c:186-199 | The iterator stands on the first run from its position on, or has ended. |
| `Bitmask.ContinueIterator.Next` | bitmask.c:213-221 | The iterator moves to the next run. |
| `Bitmask.CollectRuns` | bitmask.c:201-221 | The whole iteration yields the list of runs, for every bitmap and whatever its padding bits are. |
| `SparseFormat.HeaderRoundTrip` | android/android_sparse.c:114-120 | A file header that was written is detected and read back field by field. |
| `SparseFormat.ChunkHeaderRoundTrip` | android/android_sparse.c:142-145 | A chunk header that was written is read back field by field. |
| `SparseFormat.RepeatFill` | android/android_sparse.c:349-355 | Blocks filled one by one are one long fill when the block size is a multiple of 4. |
| `SparseMeaning.FillWithAt` | android/android_sparse.c:349-355 | Byte i of a filled block is byte i modulo 4 of the little-endian word, up to the last whole word. |
| `SparseReader.Unpack` | android/android_sparse.c:472-554 | Unpacking writes exactly the contents of the chunks; with --fast only zeros at the end of the file can be missing; it fails exactly at a header that cannot be read, a malformed chunk, or data past the end of the file. |
| `SparseReader.UnpackOne` | android/android_sparse.c:483-547 | The same for one chunk of each type; a fill word that is cut off keeps bytes of the one before. |
| `SparseMeaning.ImageUnpacks` | android/android_sparse.c:459-554 | An image given byte by byte, with its header and any list of data, fill, hole and checksum chunks, is detected and unpacked as what the chunks stand for. |
| `SparseMeaning.UnpackImage` | android/android_sparse.c:459-554 | Detecting and unpacking such a file gives that. |
| `SparseReader.Sha1sum` | android/android_sparse.c:360-446 | Hashing fails exactly at a header that cannot be read or a malformed chunk, never at missing data; otherwise the digest is that of the bytes fed block by block. |
| `SparseReader.CopiedInside` | dd.c:15-66 | A copy whose source lies inside the file is exact, in pieces of any size. |
| `SparseReader.ChunksAgree` | android/android_sparse.c:360-434 | For a chunk with consistent sizes whose data lies inside the file the two interpreters give the same bytes or both fail, whatever is in their buffers. |
| `SparseReader.InterpretersAgree` | android/android_sparse.c:459-554 | On every image whose chunks are consistent and complete, the byte stream that is hashed is the byte stream that is unpacked, error for error. |
| `SparseReader.ResultsDiffer` | android/android_sparse.c:390-434 | The two programs differ in their result exactly when the first chunk at which unpacking fails has data past the end of the file and hashing, which ignores that, meets no bad header or malformed chunk after it. |
| `SparseReader.CutImageDiffers` | android/android_sparse.c:390-397 | Such an image: a chunk of one block, cut off behind its header. Unpacking fails and hashing succeeds on no data. |
| `SparseReader.Sha1sumOfUnpacked` | android/android_sparse.c:360-446 | For a complete image the checksum command gives the digest of the unpacked file. |
| `SparseWriter.ChunksCoverBlocks` | android/android_sparse.c:126-168 | The block counts of the chunks add up to the total, and no chunk is empty. |
| `SparseWriter.SparseInput.constructor` | android/android_sparse.c:56-68 | No block is marked and no error remembered. |
| `SparseWriter.SparseInput.AddChunk` | android/android_sparse.c:77-90 | Exactly the given blocks are marked; an overrun is remembered as an error exactly when at most 2^31 blocks lie past the end. |
| `SparseWriter.SparseInput.WriteLead` | android/android_sparse.c:131-148 | A gap chunk exactly when blocks were skipped, then the header of the run; the file position is the tracked offset. |
| `SparseWriter.SparseInput.WriteRun` | android/android_sparse.c:126-162 | One round keeps the invariant of the loop, in which the tracked offset is the file position, or ends it with the callback's error. |
| `SparseWriter.SparseInput.Finish` | android/android_sparse.c:104-176 | With an error pending nothing is written; otherwise the file is the header and the encoded chunks, the number of chunks matches, and the header is missing exactly when a callback failed; the bitmap is released on every path. |
| `SparseMeaning.ImageIsParts` | android/android_sparse.c:104-168 | The writer's file is such an image, byte by byte, when all sizes fit their fields. |
| `SparseMeaning.ChunksHoldRuns` | android/android_sparse.c:126-162 | Its data chunks are the runs of ones of the bitmap. |
| `SparseWriter.ReturnValue` | android/android_sparse.c:110-112 | The result is a success exactly when no callback fails and some block is marked: without marked blocks it stays -1 although the file is complete. |
| `SparseRoundTrip.ReadsBack` | android/android_sparse.c:472-554 | The reader gives back chunk by chunk what the writer encoded, if the size of every chunk but the last fits its field. |
| `SparseRoundTrip.MaskedAt` | android/android_sparse.c:104-168 | What the round trip should give, byte by byte: the source in marked blocks and zero in all others. |
| `SparseRoundTrip.RoundTrip` | android/android_sparse.c:104-554 | If every run in front of another chunk fits 32 bits with its header, unpacking a written image gives the source with every unmarked block zeroed exactly when no gap and no run reaches 4 GiB. |
| `SparseRoundTrip.LongRunFails` | android/android_sparse.c:104-554 | Counterexample: after a run whose size with its header wraps around, the reader takes the size field for the next header and fails, whatever the data. |
| `SparseRoundTrip.WriteThenUnpack` | android/android_sparse.c:104-554 | The two programs one after the other, with the writer's result, under the same condition on runs in front of another chunk: the masked source comes out exactly when no gap and no run reaches 4 GiB. |
| `Md5.Encode` | libs/hash/rfc1321/md5c.c:280-293 | Words become bytes, least significant first. |
| `Md5.CountsAdd` | libs/hash/rfc1321/md5c.c:128-132 | The two-word addition with its carry test keeps the counters at 8 times the byte count modulo 2^64. |
| `Md5.CountsIndex` | libs/hash/rfc1321/md5c.c:124-125 | The buffer index taken from the counter is the byte count modulo 64. |
| `Md5.Md5Context.constructor` | libs/hash/rfc1321/md5c.c:100-110 | The state of an empty message. |
| `Md5.InitialBytes` | libs/hash/rfc1321/md5c.c:106-109 | The initial value is the byte sequence of section 3.3 of RFC 1321. |
| `Md5.LoopEnds` | libs/hash/rfc1321/md5c.c:141-142 | The guard of the block loop, computed in 32 bits, lets it end exactly when the last index does not wrap around; beyond, the source reads behind the input. |
| `Md5.Md5Context.Update` | libs/hash/rfc1321/md5c.c:116-153 | Counters, chaining value and buffered tail are those of the message so far followed by the input. |
| `Md5.Md5Context.TransformBlocks` | libs/hash/rfc1321/md5c.c:141-145 | All complete blocks are compressed in order and the rest is the tail. |
| `Md5.Md5Context.Final` | libs/hash/rfc1321/md5c.c:158-183 | The digest is the compression function folded over the message padded as in sections 3.1 and 3.2 of RFC 1321. |
| `Md5.PaddedMeans` | libs/hash/rfc1321/md5c.c:158-183 | The padded message: the message, 0x80, the fewest zeros that complete a block of 64 bytes, and the bit length in 8 bytes, least significant first. |
| `Md5.HashPieces` | libs/hash/rfc1321/md5c.c:116-183 | For every split of a message into updates whose block loops end, the digest is that of the whole message. |
| `BlockHash.PadZerosFit` | libs/hash/rfc6234/sha1.c:380-413 | Marker, zeros and length complete a whole number of blocks, for every message length. |
| `Sha.InstancesValid` | libs/hash/rfc6234/sha224-256.c:85-97 | The five hashes, with their word sizes, initial values and digest sizes, are instances of the one stream. |
| `Sha.FirstRoots` | libs/hash/rfc6234/sha224-256.c:91-94 | The initial values of SHA-256 and SHA-512 are the first 32 and 64 bits behind the point of the square roots of the first eight primes. |
| `Sha.NextRoots` | libs/hash/rfc6234/sha384-512.c:261-266 | Those of SHA-384 are 64 such bits for the next eight primes, and those of SHA-224 their low halves. |
| `Sha.CountingBytes` | libs/hash/rfc6234/sha1.c:88-92 | Those of SHA-1 are the counting bytes of section 5.3.1 of FIPS 180-3. |
| `Sha.Sizes` | libs/hash/rfc6234/sha224-256.c:85-97 | Digests of 20, 28, 32, 48 and 64 bytes; messages padded with 0x80, the fewest zeros and the bit length, most significant byte first, in 8 or 16 bytes. |
| `Sha.DigestSize` | libs/hash/rfc6234/sha224-256.c:563-581 | The digest has as many bytes as the hash promises; SHA-224 and SHA-384 leave words out. |
| `Sha.AbsorbByte` | libs/hash/rfc6234/sha1.c:130-136 | A byte stored at the block index extends the tail, or completes a block that is then compressed. |
| `Sha.PadFold` | libs/hash/rfc6234/sha224-256.c:507-540 | Padding emits one block, or two when the tail leaves no room for the length, and they complete the fold of the padded message. |
| `Sha.LengthBytes` | libs/hash/rfc6234/sha384-512.c:954-970 | The two counter words side by side are the bit length of the message. |
| `Sha.Context.AddLength` | libs/hash/rfc6234/sha1.c:52-58 | The split counter is exact; only a carry out of both words is an error. |
| `Sha.Context.InputByte` | libs/hash/rfc6234/sha1.c:129-138 | One turn of the input loop keeps the stream invariant: index below the block size, buffer equal to the tail, counter equal to the bit length; the byte that completes the range of the counter corrupts the context. |
| `Sha.Context.Input` | libs/hash/rfc6234/sha224-256.c:229-251 | All result codes: the context holds the message followed by the data, unless the bit length no longer fits the counter or the context was corrupted or computed before. |
| `Sha.Context.AppendMarker` | libs/hash/rfc6234/sha384-512.c:920-927 | Marker and, if the length no longer fits, a block of its own. |
| `Sha.Context.AppendLength` | libs/hash/rfc6234/sha384-512.c:929-973 | Zeros up to the length words, which are stored most significant byte first. |
| `Sha.Context.PadMessage` | libs/hash/rfc6234/sha1.c:380-413 | The chaining value becomes that of the padded message. |
| `Sha.Context.Finalize` | libs/hash/rfc6234/sha1.c:344-357 | The context holds the final value, and buffer and counter are zero. |
| `Sha.Context.Result` | libs/hash/rfc6234/sha1.c:212-229 | The digest of everything fed, also when asked for again, or the remembered error. |
| `Sha.ReadDigest` | libs/hash/rfc6234/sha384-512.c:998-1031 | The digest bytes are the leading bytes of the big-endian words. |
| `Sha.HashPieces` | libs/hash/rfc6234/sha384-512.c:471-493 | For SHA-1, SHA-224/256 and SHA-384/512 and every split of a message whose bit length fits, the digest is that of the message padded as in section 5.1 of FIPS 180-3; the shortest message that no longer fits is refused. |
| `FdtTokens.ReadsToken` | fdt/fdt.c:919-988 | A token that was encoded, with lengths that a signed integer can hold and align, is read with its name and data, and the next one starts right behind its padding. |
| `FdtTokens.CStringMeans` | fdt/fdt.c:919-969 | A name is found exactly when its bytes stand there, with no zero among them and one behind. |
| `FdtTokens.LexOfEncoding` | fdt/fdt.c:919-989 | Reading a structure block gives back the tokens it was made of, NOPs included. |
| `FdtTree.NopsDoNothing` | fdt/fdt.c:949-951 | NOP tokens anywhere do not change the result. |
| `FdtTree.WalkTree` | fdt/fdt.c:923-981 | Reading the tokens of a whole subtree leaves the stack as it was, with that subtree as the last child of the open node. |
| `FdtTree.TooDeep` | fdt/fdt.c:932-936 | A tree nested more than 31 deep below the root of the walk fails, wherever it is met. |
| `FdtTree.WalkInvertsFlat` | fdt/fdt.c:905-993 | The walk over the tokens of a tree, interleaved with NOPs, succeeds exactly when the tree is nested at most 31 deep; then it gives the tree in order and leaves depth 0. |
| `FdtTree.StoredUnchanged` | fdt/fdt.c:614-632 | The rebuilt tree is the original one exactly when all names fit 63 bytes and none is empty; with the empty root name of a real blob it is the original with root "/" exactly when all names below fit. |
| `FdtTree.StoredMeans` | fdt/fdt.c:614-632 | What is stored differs from the original only in names: the first 63 bytes of each, and "/" for a node without one. |
| `Fdt.NewDeviceNode` | fdt/fdt.c:614-632 | A fresh node with the name cut to its field, appended to its parent's children. |
| `Fdt.OpenNode` | fdt/fdt.c:923-948 | The new node is linked below the innermost open one and becomes the innermost one. |
| `Fdt.AddProperty` | fdt/fdt.c:952-969 | The property is linked as the last child of the innermost open node; outside all nodes it is lost. |
| `Fdt.CloseTop` | fdt/fdt.c:970-981 | A closed node holds its whole subtree, and the other open nodes are as before. |
| `Fdt.CollapseHolds` | fdt/fdt.c:905-993 | When the walk ends early, the open nodes hold the part of the tree read so far. |
| `Fdt.FdtEditor.Take` | fdt/fdt.c:919-981 | One token changes stack, links and root as one step of the walk does, and fails, changing no node, exactly when the walk does. |
| `Fdt.FdtEditor.Unflatten` | fdt/fdt.c:905-993 | The token loop with its stack of 32 terminates on every buffer; its result and the linked tree of new nodes are those of the walk, also on errors. |
| `Fdt.UnflattenEncoded` | fdt/fdt.c:905-993 | Unflattening the bytes of a tree, with NOPs anywhere, links up that tree when it is nested at most 31 deep, and fails when it is not; a root without a name is called "/". |
| `Base.Be32OfBytes` | fdt/fdt.c:710-721 | A big-endian 32-bit property is read back. |
| `FdtLookup.FindByname` | fdt/fdt.c:636-647 | The first child of that name, or none when no child has it. |
| `FdtLookup.MatchPhandle` | fdt/fdt.c:649-664 | True exactly when some "phandle" property of four bytes has that value. |
| `FdtLookup.MatchesMean` | fdt/fdt.c:649-664 | A node has a phandle exactly when one of its properties is named "phandle" and holds the four bytes of the number, most significant first. |
| `FdtLookup.FirstNodeStep` | fdt/fdt.c:671-682 | The recursion, child by child, is a search in preorder: a node itself, what lies below it, its later siblings. |
| `FdtLookup.PreorderIsBlobOrder` | fdt/fdt.c:666-685 | The order of the search is that in which nodes and properties begin in the blob. |
| `FdtLookup.SearchPhandle` | fdt/fdt.c:666-685 | The very node below the root that comes first in preorder among those with the phandle, and none exactly when no node has it. |
| `Ext2Groups.IsPowerOf` | fs/ext2.c:1505-1514 | True exactly for first and higher powers of the base, for every signed number. |
| `Ext2Groups.HasBackupSb` | fs/ext2.c:1547-1567 | Without the feature every group; with it group 1 and the powers of 3, 5 and 7, but only below 2^31, since the group is converted to a signed number. |
| `Ext2Groups.MissedGroup` | fs/ext2.c:1559-1561 | Counterexample: group 3^20 is a backup group and is not recognised. |
| `Ext2Groups.NextSparseSuperBlockNumber` | fs/ext2.c:1516-1545 | Terminates, and gives the least backup group above n exactly for n >= 1; from 0 it gives 3 and skips group 1. |
| `Ext2Groups.BackupGroups` | fs/ext2.c:2548-2555 | Walking from group 1 meets exactly the backup groups, in order. |
| `Ext2Blocks.LogicalIndex` | fs/ext2.c:966-1007 | Where the format puts each logical block: 12 direct ones, then N, N^2 and N^3 behind the three trees, with the digits of the index in base N selecting the entries. |
| `Ext2Blocks.WalkEachLists` | fs/ext2.c:946-957 | For a list of pointers without holes, following each up to the first zero lists exactly the blocks it maps. |
| `Ext2Blocks.ListIsLogical` | fs/ext2.c:966-1007 | For a file that maps nothing past its end, the list has the physical block of logical block i as its i-th element, exactly when the file has no hole. |
| `Ext2Marks.MarksMean` | fs/ext2.c:926-1007 | The walk of a file that is read without error marks exactly the blocks that are reached: data and pointer blocks whose entry, at every level, has no zero before it. |
| `Ext2Marks.MarksWithoutGap` | fs/ext2.c:926-1007 | In a file whose lists have no zero before a pointer these are exactly the nonzero blocks of the logical file and the nonzero pointer blocks: the three roots, the entries of the double and the triple one, and the entries of those of the triple one. |
| `Ext2Marks.SolidFileHasNoGap` | fs/ext2.c:966-1007 | A file without holes whose pointer blocks all map a block is such a file. |
| `Ext2Marks.UnmarkedPointer` | fs/ext2.c:976-983 | Counterexample: a pointer block without entries behind a zero direct block is not marked, although the file has no hole. |
| `Ext2BlockReader.InodeBlocks.Grow` | fs/ext2.c:901-909 | Room for one more: 12 entries at first, doubled when full, with the contents kept. |
| `Ext2BlockReader.InodeBlocks.Push` | fs/ext2.c:896-924 | One more block at the end, within the capacity, and its bit set. |
| `Ext2BlockReader.PushIndirect` | fs/ext2.c:926-964 | Each of the three instances appends what the walk of its tree lists and marks the pointer block itself and all entries that it passes, also when a read fails on the way. |
| `Ext2BlockReader.ReadInodeBlocks` | fs/ext2.c:966-1007 | List, marked blocks and result of the whole walk, on every path; after a success the bitmap is the old one with exactly the reached blocks set, which in a file without gaps are its data and pointer blocks. |
| `Ext2Extents.ExtentRoundTrip` | fs/ext2.c:1017-1025 | The 48-bit start of an extent is put together from its two halves. |
| `Ext2Extents.IndexRoundTrip` | fs/ext2.c:1027-1035 | The same for an index entry, whose halves are in the other order. |
| `Ext2Extents.CollectStored` | fs/ext2.c:1044-1131 | On a stored extent tree whose depths step down by one the walk gives the leaf extents in order and the ranges of all index and data blocks. |
| `Ext2Extents.CollectWritten` | fs/ext2.c:1044-1131 | The same for a tree given byte by byte: headers with magic, count and depth, extents and index entries. |
| `Ext2Extents.AcceptsTrees` | fs/ext2.c:1071-1085 | The walk succeeds exactly when such a tree is stored. |
| `Ext2ExtentReader.Appending` | fs/ext2.c:1044-1131 | The recursion terminates on every volume; list, bitmap and result are those of the walk, on every path. |
| `Ext2ExtentReader.AppendLeaf` | fs/ext2.c:1094-1123 | The extents of a leaf come behind those collected before, and their blocks are marked as far as they are in range. |
| `Ext2ExtentReader.Init` | fs/ext2.c:1133-1169 | A root is accepted exactly when the inode has the extents flag, the magic matches, the depth is at most 5 and a tree is stored below it; then the list is the tree's extents and exactly its index and data blocks are marked. |
| `Numbers.PrintValue` | structure.c:70-112 | A printed number consists of digits of its base and has its value. |
| `Numbers.PrintMeans` | structure.c:70-112 | A printed number shows its digits by weight, without leading zeros. |
| `Numbers.HexMeans` | structure.c:92-112 | A hexadecimal field shows two digits for each of its bytes behind "0x". |
| `Numbers.ReadsNumber` | structure.c:316-327 | White space, a sign, a "0x" prefix and digits of either case are read as the number that the digits denote, negated modulo 2^64 by a minus and saturated. |
| `Numbers.DecimalRoundTrip` | structure.c:70-90 | The decimal text of a field is read back; four-byte values from 2^31 on are printed as negative numbers and survive through modular parsing. |
| `Numbers.HexRoundTrip` | structure.c:92-112 | The padded hexadecimal text of a field is read back. |
| `Numbers.FieldRoundTrip` | structure.c:142-366 | Saving and loading restores a field in either byte order, forced or not, and in either base, exactly when it has 1, 2, 4 or 8 bytes. |
| `Numbers.SaveMeans` | structure.c:19-31 | The text of a field shows the number that its bytes have in the forced order or, with none forced, in its own. |
| `Numbers.LoadMeans` | structure.c:330-366 | Loading leaves a field whose bytes have, in that order, the number modulo its size. |
| `Numbers.OtherOrderReverses` | structure.c:19-31 | If another byte order is in force on loading, the bytes come back reversed. |
| `Numbers.Structure.ForceEndian` | structure.c:11-17 | The new order is in force and the previous one is returned. |
| `Numbers.Structure.SetUnsigned` | structure.c:330-350 | The field holds the value cut to its size, other bytes stay; another size is an error that changes nothing. |
| `Numbers.Structure.LoadJson` | structure.c:352-366 | A missing name, a text that is not a number, and a wrong size are errors that change nothing; otherwise exactly the field changes. |
| `Numbers.Structure.SaveAndLoad` | structure.c:142-390 | Saving a field and loading it into another structure copies exactly that field when the object had no entry of that name; if it had one, that entry is loaded. |
| `Guid.Xstring` | xstring.c:16-38 | The buffer gets the bytes of the paired digits, other characters between pairs skipped, up to its length. |
| `Guid.SnprintfUuid` | disk/gpt.c:96-122 | The text in either byte order, with its dashes, digit by digit. |
| `Guid.TextMeans` | disk/gpt.c:75-122 | A UUID is printed in order, a GUID as bytes 3, 2, 1, 0, 5, 4, 7, 6, 8 to 15: two lower-case digits each, with dashes after 4, 6, 8 and 10 bytes. |
| `Guid.SscanfUuid` | disk/gpt.c:124-140 | The bytes are put in place in the given order; without exactly 16 of them it fails and changes nothing. |
| `Guid.ParsedMeans` | disk/gpt.c:84-140 | Sixteen pairs of digits of either case, with any other characters before each and behind them, become the bytes of a UUID in order and of a GUID in that order; fewer or more are refused. |
| `Guid.EveryTextSpells` | xstring.c:16-38 | Every text is of that form. |
| `Guid.GuidRoundTrip` | disk/gpt.c:96-140 | A printed identifier is read back, in either byte order. |
| `Guid.OtherOrder` | disk/gpt.c:75-94 | Read in the other order, the bytes of the first three groups are swapped. |
| `Gpt.NameRoundTrip` | disk/gpt.c:236-287 | A partition name is restored exactly when it has at most 35 characters, each kept by sign extension of its low byte, followed by zeros. |
| `Gpt.NameUnitsMean` | disk/gpt.c:236-247 | On loading, at most 35 characters of a name are taken, as signed characters. |
| `Gpt.ToJson` | disk/gpt.c:987-1041 | The objects of the entries up to the first unused one, with a start only where it does not follow from the entry before. |
| `Gpt.HeaderMeans` | disk/gpt.c:987-997 | Every saved field of the header stands under its own name, in decimal or as a GUID. |
| `Gpt.PartsMean` | disk/gpt.c:1007-1046 | One object for each entry before the first that is unused, with every field under its own name; the start exactly where it does not follow from the first usable sector or the end of the entry before. |
| `Gpt.EndFollows` | disk/gpt.c:1011-1013 | The size modulo 2^64 and the start give back the end, and the size is zero exactly when the entry ends just before it starts. |
| `Gpt.PartLoads` | disk/gpt.c:1083-1129 | An entry is restored, with its start written or implied, exactly when it does not end just before it starts. |
| `Gpt.FromJson` | disk/gpt.c:1043-1138 | The table is filled in place with the loaded entries, the others being zero; every error gives no table. |
| `Gpt.TableRoundTrip` | disk/gpt.c:987-1138 | A table written as JSON loads again exactly when the first usable sector is above the header's, the number of entries fits a signed number and no entry before the first unused one ends just before it starts; then the header and the start, end, identifiers and attributes of those entries are restored, and everything behind is zero. |
| `Gpt.GapsLose` | disk/gpt.c:1007-1016 | All used entries of a table that loads again are restored exactly when none of them lies behind an unused entry. |
| `Gpt.GapExample` | disk/gpt.c:1007-1016 | Counterexample: with the second of three partitions deleted the table loads, and the third partition is gone. |
| `Gpt.PlainNamesKept` | disk/gpt.c:258-287 | The used entries come back unchanged exactly when all their names are plain. |

## Left out

- Printing, option parsing, command dispatch, plugins and memory allocation failures.
- Sha.Context.Input: ends with the byte that completes the range of the counter, because the loop of the source leaves its block buffer with the next one.
- Md5.Md5Context.Update: is stated for inputs for which the block loop ends (`Md5.LoopEnds`), because the source reads behind its input otherwise.
- UbiUnpack.UnpackIntactFile: nodes end within their block and within the file; `UbiUnpack.WriteBlocks` covers others.
- UbiUnpack.UnpackFile: is stated where its loop ends; `UbiUnpack.UnpackStops` says exactly when.
- UbiList.ListDent: is stated where the listing ends; `UbiList.ListingEnds` says exactly when.
- UbiLoad.Load: is stated where the load ends (`UbiLoad.LoadEnds` says exactly when) and for places in blocks with unique numbers, for which the cache answers as a scan does; parent pointers are not modelled, and the check of the first node of a block is a parameter.
- Crc.Libcrc.Compute: is stated for algorithms that reflect input and output alike, as all predefined ones do.
- SparseRoundTrip.RoundTrip: a run in front of another chunk fits 32 bits with its header; behind a longer one the reader takes whatever bytes it finds for the next header, so the outcome depends on the data (`SparseRoundTrip.LongRunFails`).
- SparseWriter.SparseInput.Finish: callbacks may write less than their run, as the built-in generator does, but not more.
- SparseReader.Sha1sum: the bytes that a short read leaves in the copy buffer are a parameter, which depends on the position in the file.
- Bitmask.Bitmask.FirstOne: bitmaps have fewer than 2^31 bits, because positions are returned as signed 32-bit numbers.
- UbiCache.PebCache.ReadPeb: hit counters do not overflow.
- Ext2BlockReader.ReadInodeBlocks: blocks are given as their little-endian words.
- Ext2ExtentReader.Appending: reallocating an empty list succeeds, and what is freed after an error is not modelled.
- Ext2Groups.NextSparseSuperBlockNumber: group numbers have 32 bits, so the running powers do not wrap in 64.
- FdtTokens.LexOfEncoding: names and data of about 2 GiB or more are errors in the model; the source cannot allocate a node for a negative length of data, and moves back in the buffer for a name or for the three lengths just below 2^31.
- Fdt.FdtEditor.Unflatten: the labels that `__symbols__` gives to nodes, the lookup by path and overlay fixups.
- Gpt.TableRoundTrip: the header fields that are not saved, and the checksums computed when a table is written.
- The unpacking of directories (`ubi_unpack_dent`): the same sweep as the listing, with files created on the way.
- LZO decompression, JSON parsing, the round functions of the hashes, `SHA*FinalBits`, and the 32-bit-only build of SHA-512.
- Arrays of numbers in JSON (`structure_item_*_array`): they repeat the scalar forms item by item.
- f2fs, xfs, mbr, dtimg, exini, abootimg, rc4 and uenv, which repeat weaker versions of the above.
