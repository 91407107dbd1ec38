# Verified model of the Butos kernel's stateful core

Butos is a small 32-bit bare-metal kernel. This project models the parts of it that hold state, branch
or compute, and proves what each of them keeps over whole runs. The build is `-m32`, so `long`, `int`,
`size_t` and pointers are 32 bits here too: wrap-around is written out with `Wrap` (and `Signed` for
the reading of a word as an `int`), never assumed away.

## What is modelled

- **FAT32 storage** (`Device`, `Cache`, `BlockCache`, `FatArray`, `FatTable`, `FatVolume`, `OpenFiles`,
  `FatFile`). A direct-mapped block cache over an abstract disk, the table read byte by byte through it,
  clusters and chains on the table, file bytes on the clusters. Each layer is proved to refine a simpler
  one: the cache a flat memory of blocks, the cached table an array of words, the open files a map of
  clusters to bytes. The disk is a sequence of bytes; it fails exactly outside its own size or the
  volume's bounds. A format named here is that of Microsoft's FAT32 File System Specification 1.03,
  sections "FAT Data Structure" and "FAT32 FSInfo Sector Structure".
- **Short names** (`ShortName`): encoding a file name into eleven characters and finding it again.
- **The heap allocator** (`Blocks`, `Resizing`, `HeapRuns`, `Allocator`): the sorted registry, first fit,
  resizing, and whole runs of calls.
- **Keyboard input** (`InputQueue`, `Keyboard`, `Interrupts`, `LineInput`): the ring buffer, the
  interrupt handler as a state machine, every interleaving of the two, and line editing.
- **Numbers** (`Numbers`): printing in bases 2 to 16, `strtol`, `atoi`, and their round trips. The
  standard's text is that of ISO C99, sections 7.20.1.2 and 7.20.1.4.
- **Tokens** (`Tokens`): `tokenize`/`strtok` and `strcspn`/`strsep`.
- **The console** (`Console`): pointer, scrolling, video memory and cursor registers.

Objects that the source updates in place are classes (`Disk`, `BlockCache`, `FatFs`, `File`,
`Allocator`, `Queue`, `Driver`, `Tokenizer`, `Screen`) or methods on arrays. Each method is tied to a
function of the old state; the properties are lemmas about those functions and runs of them.

## Where the code does not do what it is meant to

The code is modelled as written. Where that makes an intended property false, there is a lemma that
says exactly when it holds:

| property | holds exactly when | lemma |
|---|---|---|
| fetching a block keeps what the cache stands for | the line is the right one or empty, or the block loads and the displaced line equals its block (cache.c:55-57 drops it unwritten) | `Cache.FetchKeepsExactlyWhenSafe` |
| the cached table is an array, over all runs | it has at most as many sectors as the cache has lines | `FatTable.TableIsArrayExactlyWhenRoomy` |
| `cluster_chain_get_len` returns | the chain is one cluster, or its start is unreadable (table.c:102-105 never moves on) | `FatArray.ChainLenHaltsExactly` |
| cluster c starts where the format puts it | a cluster is one sector (fs.c:264-266 subtracts two sectors, not two clusters) | `Device.StartsWhereFormatSaysExactly` |
| a cluster number that passes the bound check is one of the volume's clusters | it is below the count (fs.c:258, 278 test with `>`) | `Device.ClusterReadableExactly` |
| a file access reaches the cluster that holds its byte | the offset is inside the first cluster (cluster and offset are both passed on, file.c:44-45) | `OpenFiles.ReachesOwnClusterExactly` |
| after a write, with enough free clusters, the chain has a cluster for the byte written | it is not the first byte beyond the cluster of a file that was no larger (the guard at file.c:75 sees a size that fits); that byte goes to the start of the next block instead | `OpenFiles.ChainCoversWriteExactly`, `OpenFiles.FirstByteBeyondIsMisplaced` |
| a chain that was grown still ends | at most one cluster too few could be had: the allocator's error, 1, is linked in unchecked (file.c:78-79), and in a further round to itself | `FatArray.GrowEndsExactly`, `FatArray.GrowRunsOut` |
| the cluster named by a new entry is the one marked | the count is not exhausted, the root scan stays on the volume, and no free cluster lies between hint and root | `FatArray.CreateNamesMarkedExactly` |
| deleting a file leaves the hint tight | the hint is not above the deleted cluster (file.c:246 updates nothing) | `FatArray.DeletionBreaksAccount` |
| a file name survives encoding and decoding, inside the 12-byte buffer | at most eight characters and no dot, or at most seven, a dot and one to three more; no blanks | `ShortName.RoundTripExactly` |
| the overlap test means disjointness | the greatest start is not the smallest end (allocator.c:21 uses `<` where its comment means `<=`) | `Blocks.OverlapExactly` |
| a granted request keeps the registry orderly | the gap where the scan stops is large enough; it also stops where a gap is one byte short, before a block of one byte, and where the request would run past the last address | `Blocks.AllocKeepsExactly`; failing inputs: `Blocks.HugeRequestIsGranted`, `HeapRuns.TwoOneByteBlocks` |
| every run in which no resize escapes (next row), with sizes that are multiples of g, small enough not to run past the last address, and nothing resized to zero, keeps the registry orderly | g is at least two | `HeapRuns.GridBoundExact` |
| a resize keeps the registry orderly | in place: it leaves a byte and ends before the next block, or before the heap's end if it is the last (allocator.c:21 misses a gap one byte short, allocator.c:158 reads past the last block); moved: the new block fits at the scan's place once the old one is gone | `Resizing.ReallocKeepsExactly`; failing inputs: `Resizing.ShortGapOverlaps`, `Resizing.MovesOntoItself`, `Resizing.EmptiedBlockStays`, and from an empty registry `Allocator.EscapeFromEmpty` |
| every run of allocations, frees and resizes, of any sizes, keeps the registry orderly | each granted allocation and each resize meets its condition above | `HeapRuns.RunKeepsExactly` |
| the contents of a moved block survive, up to the smaller size | no block lies below it, or that block is at least as large as what must survive, or the new place is not below that block (allocator.c:170 reads the size of whatever block is then in the old position) | `Resizing.MoveKeepsContentsExactly`; a case that fails: `Resizing.MoveLosesBytes` |
| nothing typed is lost | no interrupt that types a character meets a size field at the capacity | `Interrupts.NothingTypedIsLostExactly` |
| characters are conserved if `size--` is a load and a store | no interrupt in between queued one | `Interrupts.TornDecrementExactly` |
| `strtol` ends where C99 says | no 0b or 0B is taken as a prefix, and no 0x without a hexadecimal digit after it (scan.c:105-116; C99 knows only 0x) | `Numbers.StandardExactly`; failing inputs: `Numbers.BinaryDiffers`, `Numbers.DanglingDiffers` |
| `strtol` gives the value that C99 says | no 0b or 0B is taken as a prefix, or only zeros follow it | `Numbers.StandardExactly` |
| `atoi` gives what C99 says, for numbers an `int` holds | after 0x the last eight hexadecimal digits are zeros; behind spaces or a plus, which are not skipped, the digits are zeros; always otherwise (atoi.c:16-26) | `Numbers.AtoiStandardExactly` |
| the decimal loop of `atoi` stays inside `long` | the value is at most LONG_MAX - 48, since '0' is subtracted last (atoi.c:28) | `Numbers.StaysInLongExactly` |
| lines that scroll in are blank | the row after VGA_TEXT_END is, which `vga_clear` leaves alone (vga.c:113, 127) | `Console.BlankPaperExactly` |

## Model

| member | source | states |
|---|---|---|
| `Device.MountedClustersFit` | src/fs/fat32/fs.c:57-62 | A boot sector whose reserved and table sectors fit gives a layout with every cluster inside the volume. |
| `Device.ClusterStart` | src/fs/fat32/fs.c:253-271 | On a valid volume no step of the cluster-to-sector arithmetic wraps: each cluster starts where exact arithmetic puts it. |
| `Device.StartsWhereFormatSaysExactly` | src/fs/fat32/fs.c:264-266 | A data cluster starts 2 * cluster size - 2 sectors after the place the format gives it, so at that place if and only if a cluster is one sector. |
| `Device.ClusterReadableExactly` | src/fs/fat32/fs.c:253-271 | On a disk that holds the whole volume every cluster below the count can be read, and is the sectors that the arithmetic puts there; the one numbered by the count itself can be read if and only if disk and volume go on behind the last one; no other can. |
| `Device.SectorReadableExactly` | src/fs/fat32/fs.c:229-232 | A sector can be read if and only if its number is at most the sector count and the disk has it, and is its 512 bytes. |
| `Device.BlocksDisjoint` | src/fs/fat32/fs.c:204-288 | Two different sectors, or two different clusters, share no byte of the disk. |
| `Device.ReadAfterWrite` | src/fs/fat32/fs.c:204-288 | After a block write that block reads back what was written and every other block reads as before; unreachable blocks stay so. |
| `Device.WriteIsRead` | src/fs/fat32/fs.c:204-288 | A block that can be read can be written and then reads back, every byte of the disk outside it as it was; one that cannot leaves the disk as it was. |
| `Device.ClusterWriteSparesTables` | src/fs/fat32/fs.c:273-288 | Writing a data cluster changes no sector below the data region, neither tables nor boot record. |
| `Device.Disk.ReadSectors` | src/fs/fat32/fs.c:204-227 | The bytes of the sectors, or failure exactly outside the volume's bound or the device. |
| `Device.Disk.WriteSectors` | src/fs/fat32/fs.c:234-246 | The disk with those sectors replaced, or unchanged and failure under the same condition. |
| `Device.Disk.ReadCluster` | src/fs/fat32/fs.c:253-271 | The block read of a cluster, with its own bound check before the scaling. |
| `Device.Disk.WriteCluster` | src/fs/fat32/fs.c:273-288 | The disk after the block write of a cluster. |
| `Cache.FetchKeepsExactlyWhenSafe` | src/fs/fat32/cache.c:52-66 | An access keeps the flat memory, and leaves no stale tag, if and only if the line is right or empty, or the new block loads and the displaced line equals its block. |
| `Cache.FailedFetchPoisons` | src/fs/fat32/cache.c:55-69 | A failed load keeps the old tag on an invalid line, so the block that was cached reads as zeros from then on although the disk has it. |
| `Cache.ReadRefines` | src/fs/fat32/cache.c:47-82 | A safe byte read returns the flat memory's byte and changes nothing in it. |
| `Cache.WriteRefines` | src/fs/fat32/cache.c:47-95 | A safe byte write changes exactly the addressed byte of the flat memory. |
| `Cache.WriteOutside` | src/fs/fat32/cache.c:68-69 | A write to a block the device does not have changes nothing. |
| `Cache.AccessHolds` | src/fs/fat32/cache.c:47-82 | Any access to a block that can be transferred, whatever line it displaces: its line then holds the block, with the byte changed by a write, a read gives the byte, and no other line changes. |
| `Cache.AccessFails` | src/fs/fat32/cache.c:60-69 | One to a block that cannot be transferred gives zero and changes nothing but its line, which becomes invalid under its old tag. |
| `Cache.FlushPublishes` | src/fs/fat32/cache.c:105-112 | After a flush the disk equals the flat memory and every line equals its block. |
| `Cache.StepRefines` | src/fs/fat32/cache.c:47-112 | One safe operation keeps every valid line coherent and does to the flat memory what the flat operation does. |
| `Cache.RunRefines` | src/fs/fat32/cache.c:47-112 | Over every safe run the reads are those of the flat memory, and the final cache and disk stand for its final value. |
| `Cache.WrittenDisciplineIsSafe` | src/fs/fat32/cache.c:47-112 | Every run that never displaces a line written since the last flush, on blocks that can be transferred, is safe. |
| `Cache.WindowIsSafe` | src/fs/fat32/cache.c:52-57 | Every run inside a window of as many blocks as there are lines is safe, whatever it writes. |
| `Cache.OctetsRebuild` | src/fs/fat32/cache.c:84-103 | The four bytes that a word write stores give the word back when read. |
| `Cache.WordAfterPoke` | src/fs/fat32/cache.c:84-103 | A written word reads back; every other aligned word of the block is unchanged. |
| `Cache.ReadLongRefines` | src/fs/fat32/cache.c:84-90 | A safe aligned word read returns the flat memory's little-endian word and changes nothing in it. |
| `Cache.WriteLongRefines` | src/fs/fat32/cache.c:97-103 | A safe aligned word write changes exactly that word of the flat memory. |
| `Cache.DisplacingRead` | src/fs/fat32/cache.c:55-74 | A word read of an uncached block gives the disk's word, whatever the line it displaces held. |
| `BlockCache.BlocksAfterWrite` | src/fs/fat32/fs.c:234-288 | A block write on the bytes of the disk is an update of one block of the block map. |
| `BlockCache.FlushBytesIsFlush` | src/fs/fat32/cache.c:105-112 | Writing the lines back to the bytes of the disk is, block by block, the flush of the cache's specification. |
| `BlockCache.ClusterFlushSparesTables` | src/fs/fat32/cache.c:105-112 | Flushing lines of data clusters leaves everything below the data region as it was. |
| `BlockCache.MountedBlocks` | src/fs/fat32/fs.c:204-288 | The blocks of a mounted volume all have the block size, none has the number -1, and each is there exactly when it can be transferred. |
| `BlockCache.VolumeBlocks` | src/fs/fat32/fs.c:204-288 | On a disk that holds the whole volume every sector and every cluster below the counts is there for the caches. |
| `BlockCache.BlockCache.constructor` | src/fs/fat32/cache.c:5-45 | A new cache: the given number of empty lines. |
| `BlockCache.BlockCache.Access` | src/fs/fat32/cache.c:47-77 | The in-place access leaves exactly the state, and returns the byte, of the specification. |
| `BlockCache.BlockCache.ReadL` | src/fs/fat32/cache.c:84-90 | The same for a word read. |
| `BlockCache.BlockCache.WriteL` | src/fs/fat32/cache.c:97-103 | The same for a word write. |
| `BlockCache.BlockCache.Flush` | src/fs/fat32/cache.c:105-112 | The loop over the lines leaves the disk of the specification and the lines as they were. |
| `FatArray.GetAfterPut` | src/fs/fat32/table.c:33-57 | A written entry reads back; no other entry changes; an entry outside the table reads as the error word and is not written. |
| `FatArray.FreeListExact` | src/fs/fat32/table.c:59-79 | The list of free clusters holds exactly the zero entries of the range, once each, increasing. |
| `FatArray.TakeFirst` | src/fs/fat32/table.c:86-92 | Marking the first free cluster removes it, and only it, from the free clusters. |
| `FatArray.AllocTakesLeast` | src/fs/fat32/table.c:81-95 | While the account holds, the allocator returns the least free cluster of the volume, or the error exactly when there is none; the count and the hint stay exact. |
| `FatArray.AllocRunHandsOutInOrder` | src/fs/fat32/table.c:81-95 | Over every run the free clusters come out once each in increasing order, then only errors; what remains free is the rest of the list. |
| `FatArray.TakenKeeps` | src/fs/fat32/table.c:81-95 | No run of allocations writes a cluster that was in use. |
| `FatArray.MountedAccount` | src/fs/fat32/fs.c:88-94 | Mounting with both FSInfo fields unknown gives a tight hint and a count too large by the root cluster's number (table.c:61). |
| `FatArray.CreateNamesMarkedExactly` | src/fs/fat32/file.c:194-211 | The cluster named in a new entry is the one marked if and only if the count is not exhausted, the root scan stays on the volume and nothing is free between the hint and the root. |
| `FatArray.CreateNamesMarked` | src/fs/fat32/file.c:194-211 | While the account is kept and a cluster is free, the named cluster, the marked cluster and the least free cluster are one, and it now ends a chain. |
| `FatArray.EntryNamesCluster` | src/fs/fat32/file.c:166-167 | The two 16-bit halves stored in an entry rebuild the cluster number. |
| `FatArray.DeletionMisleadsCreate` | src/fs/fat32/file.c:246 | After a deletion below the hint the next creation names a cluster that it does not mark. |
| `FatArray.DeletionBreaksAccount` | src/fs/fat32/file.c:246 | A deletion leaves one more free cluster than counted for, and the hint tight exactly when it is not above the deleted cluster. |
| `FatArray.ChainReadIsElement` | src/fs/fat32/table.c:110-120 | On a chain of length L with an end mark the result is element min(index, L - 1). |
| `FatArray.ChainReadFollows` | src/fs/fat32/table.c:110-120 | On any table: links are followed, whatever they lead to, up to the index or up to an end mark. |
| `FatArray.ChainIsAcyclic` | src/fs/fat32/table.c:110-120 | A sequence linked through the table to an end mark repeats no cluster. |
| `FatArray.ChainLenHaltsExactly` | src/fs/fat32/table.c:97-108 | The loop stops if and only if the first entry is an end mark or unreadable, and then the result is one; otherwise it runs for any number of rounds. |
| `FatArray.GrowFrame` | src/fs/fat32/file.c:76-81 | Growing a chain writes nothing but its old end and the clusters it takes. |
| `FatArray.GrowAppends` | src/fs/fat32/file.c:76-81 | With enough free clusters above the hint, growth appends the next k free clusters in increasing order and marks the last as the end. |
| `FatArray.GrowSpends` | src/fs/fat32/file.c:76-81 | Growth by k takes k from the count and the first k from the free clusters. |
| `FatArray.GrowRunsOut` | src/fs/fat32/file.c:76-81 | When the free clusters or the count run out after m rounds, the m clusters are linked as before, the last is linked to cluster 1, and with more than one round too many cluster 1 is linked to itself; count and hint are those after m rounds. |
| `FatArray.GrowEndsExactly` | src/fs/fat32/file.c:76-81 | With m clusters to be had and the reserved cluster 1 marked as an end, the grown chain still ends if and only if at most one round is too many. |
| `FatArray.GrowKeepsFamily` | src/fs/fat32/file.c:71-82 | Growing one one-cluster chain of a family of disjoint, ended chains leaves such a family, the other chains unchanged. |
| `FatTable.EntryPlace` | src/fs/fat32/table.c:37-42 | The bound check agrees with the array's length, and each entry is an aligned word of one table sector. |
| `FatTable.TableReadRefines` | src/fs/fat32/table.c:33-52 | Through the cache, a read gives the array's entry, or the error word outside it, and changes nothing. |
| `FatTable.TableWriteRefines` | src/fs/fat32/table.c:33-57 | Through a cache with room, a write changes that entry of the array and no other. |
| `FatTable.RoomyTableRefines` | src/fs/fat32/table.c:33-57 | With at most as many table sectors as lines, every run of reads, writes and flushes is a run on an array. |
| `FatTable.SyncedTableIsOnDisk` | src/fs/fat32/cache.c:105-112 | After a run that ends in a flush, the little-endian words on the disk are the array. |
| `FatTable.EntryBytesOnDisk` | src/fs/fat32/cache.c:97-112 | An entry that is written and flushed has its four bytes, least significant first, 4 * cluster bytes past the start of the table. |
| `FatTable.LargeTableLoses` | src/fs/fat32/cache.c:55-57 | With more sectors than lines there is a run of three operations in which a written entry reads as before the write. |
| `FatTable.TableIsArrayExactlyWhenRoomy` | src/fs/fat32/table.c:5-17 | The cached table behaves as an array over all runs if and only if it has at most as many sectors as the cache has lines. |
| `FatVolume.FatFs.constructor` | src/fs/fat32/table.c:7-24 | A mounted table: an empty cache, and the array is the words on the disk. |
| `FatVolume.FatFs.TableRead` | src/fs/fat32/table.c:49-52 | The entry of the array, or the error word; the array is unchanged. |
| `FatVolume.FatFs.TableWrite` | src/fs/fat32/table.c:54-57 | The array with that one entry replaced. |
| `FatVolume.FatFs.FreeClusterCountRead` | src/fs/fat32/table.c:59-69 | The number of free clusters from the root cluster on, plus the root cluster's number; that number alone when it is past the last cluster. |
| `FatVolume.FatFs.FirstFreeClusterRead` | src/fs/fat32/table.c:71-79 | The first free cluster from the root on; the scan looks at one cluster past the last, and stops one further. |
| `FatVolume.FatFs.AllocCluster` | src/fs/fat32/table.c:81-95 | The loop leaves the array, the count and the hint, and returns the cluster, of the specification that AllocTakesLeast is about. |
| `FatVolume.FatFs.FileCreate` | src/fs/fat32/file.c:188-218 | Creation changes nothing unless the directory is found and the name is new; then the entry's halves name the root scan's cluster, and under the account that is the least free cluster, now marked. |
| `FatVolume.FatFs.ChainGetLen` | src/fs/fat32/table.c:97-108 | The loop observed for a number of rounds: the length if it has stopped, nothing if it still runs. |
| `FatVolume.FatFs.ChainRead` | src/fs/fat32/table.c:110-120 | Terminates on every table and returns the cluster of the specification. |
| `FatVolume.FatFs.LoadInfo` | src/fs/fat32/fs.c:88-94 | The free-space fields as stored, or recomputed when the stored ones are unknown. |
| `FatVolume.FatFs.FlushTable` | src/fs/fat32/table.c:26-31 | After the flush the words on the disk are the array. |
| `OpenFiles.ReadByteInside` | src/fs/fat32/file.c:37-46 | Inside the cluster a byte read gives the end mark past the size and else the file's byte; the file's bytes stay. |
| `OpenFiles.ReadBytesInside` | src/fs/fat32/file.c:48-62 | Inside the cluster successive byte reads give the file's bytes, and end marks past the size. |
| `OpenFiles.WriteByteInside` | src/fs/fat32/file.c:64-86 | Inside the cluster a byte write changes that byte and the size, and neither the table nor the free-space fields. |
| `OpenFiles.PerformRefines` | src/fs/fat32/file.c:6-92 | One open, read, write or close does to the storage what it does to a map of clusters to bytes. |
| `OpenFiles.FilesRefineClusters` | src/fs/fat32/file.c:6-92 | Over every allowed run on any number of files in distinct clusters, reads give the bytes last written, and table, free-space fields and everything below the data region stay as they were. |
| `OpenFiles.ClosedFileIsOnDisk` | src/fs/fat32/file.c:255-264 | Once no file is open on a cluster, the disk's cluster is what the run wrote to it, and a cluster never written is as it was. |
| `OpenFiles.ReachesOwnClusterExactly` | src/fs/fat32/file.c:44-45 | For every offset the block an access reaches is the number of the k-th cluster, or of the last one for an offset past the chain, plus k; it is the cluster that holds the byte if and only if the offset is inside the first cluster. |
| `OpenFiles.ReadByteOnChain` | src/fs/fat32/file.c:37-46 | A byte read on a chain, at any offset: the end mark past the size, else one access through chain element min(offset / cluster size, length - 1), which gives that byte of the block it reaches, and changes nothing, when no unwritten line is displaced. |
| `OpenFiles.WriteByteOnChain` | src/fs/fat32/file.c:71-86 | A byte write on the chain it leaves, at any offset: the size becomes the larger of size and offset, and one access through that element changes that byte of that block, and nothing else, when no unwritten line is displaced. |
| `OpenFiles.LinesCoverSize` | src/fs/fat32/file.c:24-25 | A file is opened with exactly as many cache lines as it takes blocks to reach its size, all empty. |
| `OpenFiles.WriteGrowsChain` | src/fs/fat32/file.c:71-82 | With enough free clusters, a write of a one-cluster file links size / cluster size of them behind it in increasing order when the new size exceeds a cluster, and none otherwise; no other chain changes, and cluster_chain_get_len still returns exactly when none was linked. |
| `OpenFiles.ChainCoversWriteExactly` | src/fs/fat32/file.c:75-82 | The chain then has a cluster for the byte written if and only if this is not the first byte beyond the cluster of a file that was no larger. |
| `OpenFiles.FirstByteBeyondIsMisplaced` | src/fs/fat32/file.c:71-86 | That byte: nothing is linked, it goes to the start of the block after the file's cluster, closing publishes it there, and with a single cache line what was written to the file's own cluster is lost. |
| `FatFile.File.constructor` | src/fs/fat32/file.c:6-35 | An opened file: the cluster from the entry's halves, and as many lines as its size needs clusters and one more. |
| `FatFile.File.ReadB` | src/fs/fat32/file.c:37-46 | The in-place read leaves the file, and returns the byte, of the specification. |
| `FatFile.File.WriteB` | src/fs/fat32/file.c:64-86 | The in-place write leaves the file, the array and the free-space fields of the specification. |
| `FatFile.File.ReadOwnByte` | src/fs/fat32/file.c:37-46 | Inside the cluster: the end mark past the size, else that byte of the file. |
| `FatFile.File.WriteOwnByte` | src/fs/fat32/file.c:64-86 | Inside the cluster: exactly one byte of the file and its size change. |
| `FatFile.File.GrowChain` | src/fs/fat32/file.c:76-81 | The loop of allocations and links leaves the array and the free-space fields of the growth that GrowAppends is about. |
| `FatFile.File.ExtendChain` | src/fs/fat32/file.c:74-82 | The guard and the loop leave the array and the free-space fields of the growth specified for the new size. |
| `FatFile.File.Read` | src/fs/fat32/file.c:48-62 | The new buffer holds what as many byte reads give, at any offset; inside the cluster those are the file's bytes, with the end mark past the size. |
| `FatFile.File.Write` | src/fs/fat32/file.c:88-92 | The bytes land at the offset, the size becomes at least the last offset written, the table stays. |
| `FatFile.File.Close` | src/fs/fat32/file.c:255-264 | The cluster on the disk becomes the file's bytes; no other cluster and nothing below the data region changes. |
| `ShortName.StrcmpInsensitive` | src/fs/fat32/dir.c:152-163 | Zero exactly when the strings have the same length and agree, up to case, from the second character on. |
| `ShortName.EntryNameCopy` | src/fs/fat32/file.c:135-154 | The eleven characters written in place are the blank-padded capitals of base and extension, whatever the name. |
| `ShortName.EncodedExactly` | src/fs/fat32/file.c:135-154 | The eleven characters of any name: up to eight before the first dot and up to three behind it, in capitals, the rest blank; with no dot among the first eight the extension starts at the ninth character; none is a small letter. |
| `ShortName.Capital` | src/fs/fat32/file.c:127-133 | A small letter becomes its capital, and nothing else changes. |
| `ShortName.CopyExtension` | src/fs/fat32/file.c:150-151 | The second loop writes at most three characters of the extension. |
| `ShortName.BuildName` | src/fs/fat32/dir.c:165-185 | The local buffer holds base, dot and extension of the packed name, and a terminator after them. |
| `ShortName.CompareShortName` | src/fs/fat32/dir.c:165-189 | Accepts as strcmp_insensitive does the unpacked name; the terminator is written past the 12 bytes exactly when the packed name has no blank. |
| `ShortName.RoundTripExactly` | src/fs/fat32/file.c:135-154 | A name comes back in capitals, without an overrun, if and only if it is representable. |
| `ShortName.EncodedIsAccepted` | src/fs/fat32/dir.c:165-189 | A representable name finds its entry in any letter case, inside the buffer. |
| `ShortName.AcceptedAgreesFromSecond` | src/fs/fat32/dir.c:152-189 | What finds the entry of a representable name are exactly the names that agree with it from the second character on. |
| `ShortName.FirstCharacterIgnored` | src/fs/fat32/dir.c:156-160 | Two names that differ in the first letter only find one another's entry. |
| `ShortName.EncodeInjective` | src/fs/fat32/file.c:135-154 | Representable names with the same encoding are the same up to case. |
| `Blocks.OverlapExactly` | src/libs/allocator.c:12-22 | The documented test is disjointness; the written one differs exactly where the greatest start is the smallest end. |
| `Blocks.EnclosedExactly` | src/libs/allocator.c:31-36 | The enclosure test is right except for a request that wraps past the last address, which it accepts. |
| `Blocks.ScanStops` | src/libs/allocator.c:107-111 | The loop stops at the first gap that is past the last block, or at most one byte short, or before a block of one byte, or where the request would run past the last address; the request fits nowhere below. |
| `Blocks.AllocGrantsExactly` | src/libs/allocator.c:99-123 | For every request the address returned is the edge of that gap, if there is room in the registry and the request ends in the heap or runs past the last address, and NULL otherwise. |
| `Blocks.InsertKeepsExactly` | src/libs/allocator.c:59-74 | Inserting a block leaves the registry sorted, disjoint and inside the heap if and only if the block fits. |
| `Blocks.AllocKeepsExactly` | src/libs/allocator.c:99-123 | For every request that is granted: the registry stays sorted, disjoint and inside the heap if and only if the gap where the scan stops is large enough. |
| `Blocks.HugeRequestIsGranted` | src/libs/allocator.c:107-120 | A request that runs past the last address from the heap's start on is granted at the heap's start although it fits nowhere. |
| `Blocks.AllocIsFirstFit` | src/libs/allocator.c:99-123 | Where that gap is large enough, the result is the lowest address where the request fits, and NULL only if the registry is full, the request is empty or it fits nowhere in the heap. |
| `Blocks.AllocPlaces` | src/libs/allocator.c:59-74 | Where that gap is large enough, the new block is inserted between the blocks below it and those above it; the others keep their order. |
| `Blocks.AllocThenFree` | src/libs/allocator.c:99-191 | Where that gap is large enough, freeing the address just returned restores the registry exactly. |
| `Blocks.GridSettles` | src/libs/allocator.c:12-22 | When all sizes are multiples of some g of at least two, that gap is large enough if and only if the request does not run past the last address there, which a small enough request never does. |
| `Blocks.FreeKeeps` | src/libs/allocator.c:182-191 | A free keeps order, disjointness, heap bounds and grid, and shortens the registry by one. |
| `Resizing.AllocThenFreeExactly` | src/libs/allocator.c:99-191 | For every request that is granted: freeing the address just returned restores the registry exactly if and only if no block of another size was already there. |
| `Resizing.ReallocReturns` | src/libs/allocator.c:141-174 | For every request: in place the address passed in, with that block's size changed and nothing else; else the address of the new block, which takes the old one's place if there is one; NULL, with nothing changed, when the allocation is refused. |
| `Resizing.StaysInPlaceExactly` | src/libs/allocator.c:154-158 | A block in front of another stays where it is if and only if the gap is at most one byte short, the other has one byte, or the request is empty or runs past the last address; the last one also if it ends in the heap, or else if the stale cell does not overlap it. |
| `Resizing.ReallocKeepsExactly` | src/libs/allocator.c:141-174 | For every address and size on an orderly registry: it stays orderly if and only if a block resized in place keeps a byte and ends before the next block or the heap's end, one that moves fits at the scan's place once the old one is gone, and an unknown address meets the condition of an allocation. |
| `Resizing.InPlaceKeepsExactly` | src/libs/allocator.c:160-163 | A block given another size where it is leaves the registry orderly if and only if it keeps a byte and ends before the next block or the heap's end. |
| `Resizing.MovedKeepsExactly` | src/libs/allocator.c:165-171 | Putting a block in and taking another out leaves the registry orderly if and only if the first fits without the second. |
| `Resizing.ShortGapOverlaps` | src/libs/allocator.c:18-22 | Blocks (100, 2) and (104, 2): resizing the first to five stays in place and overlaps the second. |
| `Resizing.MovesOntoItself` | src/libs/allocator.c:108-110 | Blocks (100, 1) and (102, 2): resizing the first to five moves it onto itself and into the second. |
| `Resizing.EmptiedBlockStays` | src/libs/allocator.c:160-163 | Resizing a block to zero leaves it registered without a byte. |
| `Resizing.ReallocOnGrid` | src/libs/allocator.c:141-174 | A resize to a positive multiple of g of at least two, small enough not to run past the last address, keeps the registry orderly if and only if it is not the last block growing past the heap with no stale overlap; the grid and the capacity are kept in any case. |
| `Resizing.StaleCellLetsEscape` | src/libs/allocator.c:154-162 | With a lower block in the cell behind the last one, resizing the last one far past the heap is done in place. |
| `Resizing.MovedKeeps` | src/libs/allocator.c:165-171 | On the grid, with a size that cannot run past the last address, putting the new block in and taking the old one out keeps the registry orderly and on the grid. |
| `Resizing.CopiedLength` | src/libs/allocator.c:170 | For every move: how many bytes are copied, all the shared ones when the block lands at or above its old place, the whole new size when it lands just below it, else cut to the size of the lower neighbour. |
| `Resizing.CopyArrives` | src/libs/string.c:9-18 | With wrapping addresses and regions that may overlap, a source byte arrives at its place if the copy, from the front, has not written over it before it is read. |
| `Resizing.SharedBytesSurviveExactly` | src/libs/allocator.c:169-171 | When the new place begins at or below the bytes, or past them, they are the same there for every content of memory if and only if at least that many are copied. |
| `Resizing.MoveKeepsContentsExactly` | src/libs/allocator.c:165-173 | Before the call, for every move: the contents survive, up to the smaller size and whatever they are, if and only if no block lies below the old one, or that one is at least as large as what must survive, or the new place is not below it. |
| `Resizing.CandidateIsLowestFit` | src/libs/allocator.c:107-111 | Where the scan's gap is large enough, the new place is not below x if and only if the request fits nowhere below x. |
| `Resizing.MoveLosesBytes` | src/libs/allocator.c:170 | A block of ten bytes that moves to twelve has two of them copied. |
| `Resizing.CopyIsSafe` | src/libs/allocator.c:170 | Where the scan's gap is large enough, the copy stays in the new block, and the two regions do not overlap; the source runs past the last address only for a request so large that it could. |
| `HeapRuns.StepIsCall` | src/libs/allocator.c:76-86 | After every call on the registry with all its cells the live blocks are those of the call's specification. |
| `HeapRuns.ResizeMoves` | src/libs/allocator.c:165-173 | A resize that cannot be done in place is, on the registry with all its cells, an allocation and, if granted, a free of the old address. |
| `HeapRuns.StepKeepsExactly` | src/libs/allocator.c:99-191 | One call keeps the registry orderly if and only if its condition holds before it; a free always does. |
| `HeapRuns.RunKeepsExactly` | src/libs/allocator.c:99-191 | Over every run of allocations, frees and resizes of any size the registry is orderly after each call if and only if each call meets its condition. |
| `HeapRuns.RunKeepsOrder` | src/libs/allocator.c:99-191 | Over every run on multiples of g of at least two, small enough not to run past the last address and with nothing resized to zero, it is so if and only if no resize escapes, and then the blocks also stay on the grid. |
| `HeapRuns.GridBoundExact` | src/libs/allocator.c:99-191 | Every such run from an empty registry in which no resize escapes keeps it orderly, if and only if g is at least two. |
| `HeapRuns.TwoOneByteBlocks` | src/libs/allocator.c:18-22 | Two one-byte requests on an empty heap are given the same byte. |
| `Allocator.EscapeFromEmpty` | src/libs/allocator.c:154-162 | Six requests and frees on an empty registry lead there, and the seventh call takes the registry out of the heap. |
| `Allocator.Allocator.constructor` | src/libs/allocator.c:38-51 | An empty registry over the given memory. |
| `Allocator.Allocator.Register` | src/libs/allocator.c:58-74 | The shifting loop leaves the live blocks with the new one inserted past every block that starts above it; the cells behind them stay. |
| `Allocator.Allocator.Unregister` | src/libs/allocator.c:76-86 | The shifting loop removes one block and keeps the others in order; the last cell keeps its block. |
| `Allocator.Allocator.AllocBlock` | src/libs/allocator.c:99-123 | The registry, with all its cells, and the address of the first-fit specification; memory is untouched. |
| `Allocator.Allocator.FindInRegistry` | src/libs/allocator.c:125-132 | The first block that starts there, or -1 if none does. |
| `Allocator.Allocator.FreeBlock` | src/libs/allocator.c:182-191 | The registry without that block, its last cell as it was, or failure for an unknown address. |
| `Allocator.Allocator.ReallocBlock` | src/libs/allocator.c:141-174 | For every address and size: the registry with all its cells, the address and the copied bytes of the specification. |
| `Allocator.Allocator.MemCopy` | src/libs/string.c:9-18 | Memory after the copy of the specification, from the front and by addresses that wrap. |
| `InputQueue.EnqueueAppends` | src/libs/queue.c:62-72 | A character is accepted exactly when the size field is below the capacity, and then goes after all that is queued, which stays. |
| `InputQueue.HeadMoves` | src/libs/queue.c:85-86 | The value at the head is the first one queued; moving the head round drops it and nothing else. |
| `InputQueue.DequeueTakes` | src/libs/queue.c:78-90 | An undisturbed removal returns the first character and leaves the rest; on an empty queue it changes nothing. |
| `InputQueue.EmptyIsAmbiguous` | src/libs/queue.c:82-89 | The result is QUEUE_EMPTY exactly when the queue is empty or its first character is 255. |
| `InputQueue.Queue.constructor` | src/libs/queue.c:35-45 | An empty queue of that capacity. |
| `InputQueue.Queue.Enqueue` | src/libs/queue.c:62-72 | Appends in place, or reports a full queue and changes nothing. |
| `InputQueue.Queue.Dequeue` | src/libs/queue.c:78-90 | Takes the first character in place. |
| `InputQueue.Queue.Flush` | src/libs/queue.c:92-97 | Leaves the queue empty. |
| `Keyboard.StateIsHistory` | src/drivers/keyboard.c:116-193 | After every history of scancodes the trigger is set exactly after a prefix byte, caps lock is the parity of its unprefixed presses, and the table is the one chosen by the last shift press, AltGr press or release of a control key. |
| `Keyboard.HandleStep` | src/drivers/keyboard.c:154-193 | What one scancode does to trigger, caps lock and table, in terms of its place in the history. |
| `Keyboard.TypesByHistory` | src/drivers/keyboard.c:143-193 | After every history, by scancode number, the handler queues nothing at a release, a prefix byte or a control key, and else the character in the standard, shift or AltGr table, as the history selected last, or in the standard one if that is missing. |
| `Keyboard.Driver.ChangeTable` | src/drivers/keyboard.c:116-141 | The fields after a control key, press or release. |
| `Keyboard.Driver.Handler` | src/drivers/keyboard.c:154-193 | The fields of the specification, and at most one character queued, only when there is room. |
| `Interrupts.StatementKeeps` | src/libs/scan.c:10-20 | Each statement of getchar and queue_dequeue keeps the conservation of characters. |
| `Interrupts.InterruptKeeps` | src/drivers/keyboard.c:154-193 | So does the handler between any two of them. |
| `Interrupts.CharactersAreConserved` | src/libs/queue.c:62-90 | For every interleaving, what was returned, what is in flight and what is queued are together exactly the accepted characters in order; getchar delivered the returned ones without tabs; queue_dequeue never finds the queue empty. |
| `Interrupts.NothingTypedIsLostExactly` | src/drivers/keyboard.c:154-193 | For every interleaving, what was returned, in flight and queued is exactly what the scancodes type, read off their history, in order, if and only if no typing interrupt met a size field at the capacity. |
| `Interrupts.NothingTypedIsLost` | src/drivers/keyboard.c:154-193 | In particular when no more was typed than the queue holds. |
| `Interrupts.RefusedOnlyWhenFull` | src/libs/queue.c:64-65 | A typed character is refused only when as many accepted characters as the capacity have not been returned yet. |
| `Interrupts.SixStatementsReturn` | src/libs/scan.c:14-18 | When something is queued, the sixth statement takes back the character that was first, whatever interrupts come between; getchar returns it, unless it is a tab. |
| `Interrupts.UndisturbedIsDequeue` | src/libs/queue.c:78-90 | Without interrupts the statements do together what the removal specification does, on an empty queue too. |
| `Interrupts.TornDecrementExactly` | src/libs/queue.c:87 | If the decrement were a load and a store, characters would be conserved if and only if no interrupt between the two queued one. |
| `LineInput.Gets` | src/libs/scan.c:22-50 | NULL exactly for a size of at most one; else the buffer with each character written where the editing puts it and a NUL after the line, taking exactly the keystrokes up to the one that ends or fills it. |
| `LineInput.BackspaceCancels` | src/libs/scan.c:33-36 | A character and the backspace after it cancel, wherever they are in the typing. |
| `LineInput.LeadingBackspace` | src/libs/scan.c:33-36 | A backspace on an empty line does nothing. |
| `LineInput.PlainTyping` | src/libs/scan.c:38-40 | Typing without backspaces is the line itself. |
| `LineInput.LineShape` | src/libs/scan.c:29-45 | The line has no backspace, fits with its NUL, has 10 or 255 nowhere but in last place, and has one there or else fills the buffer. |
| `LineInput.TakesExactly` | src/libs/scan.c:29-45 | The line ends at the first line feed or 255, or at the character that fills the buffer, and at nothing else. |
| `LineInput.BufferIsTheLine` | src/libs/scan.c:39-49 | The buffer starts with the line and its NUL. |
| `Numbers.DigitsMean` | src/libs/print.c:76-90 | The digits written have the number as their value. |
| `Numbers.NumeralMeans` | src/libs/print.c:92-119 | The numeral of a number is canonical and has that value. |
| `Numbers.NumeralIsTheCanonicalOne` | src/libs/print.c:92-119 | It is the only canonical numeral with that value. |
| `Numbers.BaseConvertR` | src/libs/print.c:76-90 | The recursion writes the leading digits that fit over what was there, and returns their number, or -1 when some do not fit. |
| `Numbers.BaseConvert` | src/libs/print.c:92-119 | Succeeds exactly when the base is 2 to 16 and the numeral fits with its NUL, and then the buffer starts with both; otherwise what it leaves behind. |
| `Numbers.Convert` | src/libs/print.c:138-181 | The text of one conversion: the string for s; the number for x, d, u, b or o, with the sign taken out for d, for which the 80-byte buffer always suffices; nothing for other letters, which end the printing. |
| `Numbers.ShownMeans` | src/libs/print.c:138-181 | s is the string unchanged; u, o, b and x are the canonical numeral of the word in base 10, 8, 2 and 16; d is that of the word below 2^31, and from there on a minus and that of 2^32 less the word; there are no other conversions. |
| `Numbers.CutoffExact` | src/libs/scan.c:140-164 | The cutoff and cutlim test is true exactly when one more digit would pass the limit. |
| `Numbers.Accumulation` | src/libs/scan.c:144-174 | One digit keeps the accumulator equal to the value, or overflow recorded for good. |
| `Numbers.ScanHeader` | src/libs/scan.c:90-121 | The start reads spaces, sign and prefix as the specification does. |
| `Numbers.StrtolLoop` | src/libs/scan.c:59-191 | The 32-bit loop returns the value of the longest digit run, clamped to [LONG_MIN, LONG_MAX], and the place just past it, or the start if there is no digit; for every string and base. |
| `Numbers.StrtolReads` | src/libs/scan.c:90-191 | White space, a sign or none, digits and what cannot be a digit: the value with that sign, cut to a long, and the end of the digits. |
| `Numbers.StrtolStops` | src/libs/scan.c:67-191 | A base below 0 or above 36 gives zero and the start; so does a string that starts with none of white space, a sign and a digit of the base. |
| `Numbers.DigitValues` | src/libs/scan.c:146-157 | The ten digits, then the letters of either case from ten on, are digits, and nothing else. |
| `Numbers.StandardExactly` | src/libs/scan.c:105-116 | Against C99: the end is the same if and only if no binary prefix is taken and no prefix stands without a digit; the value is, if and only if no binary prefix is taken or only zeros follow it. |
| `Numbers.BinaryDiffers` | src/libs/scan.c:111-116 | "0b1" without a base is 1 and wholly read; in C99 it is 0 and read up to the b. |
| `Numbers.DanglingDiffers` | src/libs/scan.c:105-110 | "0x" in base 16 has no number; in C99 it starts with a zero. |
| `Numbers.PrintThenParse` | src/libs/print.c:92-119 | strtol of a printed number in its base is the number, cut at LONG_MAX, and the end of the text. |
| `Numbers.SignedPrintThenParse` | src/libs/print.c:154-181 | strtol of the %d text is the integer, for all 2^32 of them. |
| `Numbers.WrapExtend` | src/libs/atoi.c:20-28 | Wrapping at every digit and wrapping once agree. |
| `Numbers.Accumulate` | src/libs/atoi.c:19-28 | Each loop leaves the value of the longest digit run modulo 2^32. |
| `Numbers.AtoiLoop` | src/libs/atoi.c:13-33 | atoi returns the low 32 bits of that value, negated after a minus, as a signed number. |
| `Numbers.AtoiReads` | src/libs/atoi.c:13-33 | Digits of any number, after a minus or not, or after 0x, and what is no digit: the 32-bit integer that differs from the number by a multiple of 2^32. |
| `Numbers.SignedPrintThenAtoi` | src/libs/atoi.c:13-33 | atoi of the %d text is the integer, for all 2^32 of them. |
| `Numbers.HexPrintThenAtoi` | src/libs/atoi.c:16-20 | atoi of 0x and the %x text is the same 32 bits as a signed number. |
| `Numbers.AtoiStandardExactly` | src/libs/atoi.c:13-33 | For every string whose number a long holds, atoi gives the result of C99 if and only if, after 0x, the last eight hexadecimal digits are zeros, or, behind spaces or a plus, the digits are zeros, or it starts with neither. |
| `Numbers.StaysInLongExactly` | src/libs/atoi.c:27-28 | The decimal loop never leaves the range of long if and only if the value is at most LONG_MAX - 48. |
| `Tokens.FieldsCount` | src/libs/shell.c:182-187 | There is one field more than delimiters, as the shell's argument count assumes, and no field holds one. |
| `Tokens.JoinFields` | src/libs/string.c:261-277 | Joining the fields of a string with its one delimiter gives the string back. |
| `Tokens.FieldsJoin` | src/libs/string.c:261-277 | Splitting a join of delimiter-free fields gives the fields back. |
| `Tokens.FieldsAppend` | src/libs/string.c:197-205 | The fields of a string one character longer. |
| `Tokens.TokenizedStep` | src/libs/string.c:197-205 | Each round of the loop keeps what is written equal to the packed tokens of the prefix read. |
| `Tokens.Tokenize` | src/libs/string.c:189-210 | Writes the first field, empty or not, and the later non-empty fields, a NUL after each, and one NUL more, or two after a trailing delimiter; at most strlen + 2 bytes, nothing beyond. |
| `Tokens.NextToken` | src/libs/string.c:232-236 | The current token is the string at the pointer; past its NUL are the others, or a NUL when there is none. |
| `Tokens.TokensShape` | src/libs/string.c:189-210 | No token holds a NUL, and only the first may be empty. |
| `Tokens.Tokenizer.Strtok` | src/libs/string.c:219-239 | The first call returns the first token of the string, each later one the next, then NULL for good. |
| `Tokens.AllTokens` | src/test.c:27-36 | Calling strtok until NULL returns the addresses of exactly the tokens of the string, in order. |
| `Tokens.Strcspn` | src/libs/string.c:241-259 | The number of characters before the first one of the set. |
| `Tokens.Strsep` | src/libs/string.c:261-277 | The token is cut off in place at the first delimiter, one byte is written, and the new pointer is the rest, or NULL after the last token. |
| `Tokens.SplitInPlace` | src/libs/shell.c:200-201 | Calling strsep until NULL leaves in the buffer exactly the fields of the string, in order. |
| `Console.MoveRefines` | src/drivers/vga.c:34-67 | A move forth by any distance or back within the row, with as many rows scrolled in as it takes, is that move on the list of lines. |
| `Console.HeldInRow` | src/drivers/vga.c:38-44 | A move further back goes to the start of the row, or nowhere if it would leave the screen. |
| `Console.ScrollRefines` | src/drivers/vga.c:121-131 | A scroll shows the list of lines one line further down and loses nothing of it. |
| `Console.PutRefines` | src/libs/print.c:11-42 | Every character does to the screen what it does to the list of lines. |
| `Console.ConsoleShowsTheTape` | src/drivers/vga.c:34-131 | For every stream after vga_clear the pointer stays on the screen, the cursor is where it is, and memory is the window of a list of lines that scrolling only shifts. |
| `Console.BlankPaperExactly` | src/drivers/vga.c:109-131 | The visible lines are blank where nothing was written, for every stream, if and only if the row after VGA_TEXT_END is blank. |
| `Console.Screen.CursorUpdate` | src/drivers/vga.c:172-179 | The two registers hold the position. |
| `Console.Screen.CursorInc` | src/drivers/vga.c:207-210 | The position in the registers is moved, modulo 2^16. |
| `Console.Screen.PointerSet` | src/drivers/vga.c:25-32 | Pointer and cursor become the address, if it is on the screen. |
| `Console.Screen.ScrollDown` | src/drivers/vga.c:121-131 | Each of the 50 rows becomes the one after it, the row past them stays. |
| `Console.Screen.PointerInc` | src/drivers/vga.c:34-67 | The state after a move: held at the start of the row, scrolled by as many rows as needed past the last. |
| `Console.Screen.Clear` | src/drivers/vga.c:109-119 | All 50 rows blank in that color, the row past them untouched, pointer and cursor at the start. |
| `Console.Screen.Tab` | src/drivers/vga.c:97-107 | Moves to the next multiple of ten. |
| `Console.Screen.AllignLeft` | src/drivers/vga.c:84-95 | Moves to the start of the row. |
| `Console.Screen.Putc` | src/libs/print.c:11-42 | The state after a character, and the character. |
| `Console.Screen.Puts` | src/libs/print.c:44-54 | The state after all the characters, and their number. |

## Left out

- Device.Disk.ReadSectors: a device error happens only outside the device or the volume's bound; other disk failures and what they leave behind are not modelled.
- Device.MountedClustersFit: the sector size is 512, the only one for which the code is consistent, since the table's cache takes its block size before the boot sector is read (src/fs/fat32/table.c:17, src/fs/fat32/fs.c:24).
- FatVolume.FatFs.TableWrite: only for a table of at most ten sectors; FatTable.TableIsArrayExactlyWhenRoomy shows that this is where the array behaviour ends.
- FatVolume.FatFs.AllocCluster: only for such a table, for the same reason.
- FatVolume.FatFs.FileCreate: the directory lookups are parameters, and writing the entry into the directory is not modelled.
- FatVolume.FatFs.ChainGetLen: a loop that need not end is observed for a given number of rounds.
- FatFile.File.WriteB: called where cluster_chain_get_len returns; elsewhere the source does not come back. A write that grows the chain needs a table of at most ten sectors; the same holds for File.ExtendChain and File.GrowChain.
- FatFile.File.Write: inside the file's one cluster, where the code reaches the right block (OpenFiles.ReachesOwnClusterExactly); so is OpenFiles.FilesRefineClusters.
- Blocks.AllocIsFirstFit: where the gap at which the scan stops is large enough; elsewhere the granted block is not a fit at all (Blocks.AllocKeepsExactly). The heap is taken not to start at address 0 and to end below the last address, in all of Blocks, Resizing and HeapRuns.
- InputQueue.Queue.constructor: the memory for the values is there; a failed kalloc is not modelled.
- LineInput.Gets: what getchar returns is given as a sequence, and running out of it is a third outcome besides the two of the source; Interrupts models where it comes from.
- Tokens.Tokenizer.Strtok: read-only strings are sequences without a NUL, and freeing the previous copy is not modelled.
- Numbers.StandardExactly: base 1 is left out, which C99 leaves undefined.
- Numbers.Convert: one conversion; format scanning and argument passing of printk are not modelled.
- Console.Screen.Clear: vga_open, the cursor shape and the port numbers are not modelled; the register pair is two fields.
- Directory reading, searching and overwriting, and path handling (src/fs/fat32/dir.c), which are mostly pointer ownership.
- Writing the FSInfo sector back, the root directory's pretended entry, and out-of-memory branches inside the file system: kalloc is taken to succeed there.
- Port I/O, the ATA, PCI and PIC drivers, boot code, paging and interrupt tables.
- The shell, system calls, processes and the kernel's own tests.
- The character tables of the keyboard are arbitrary tables of 256 entries.
