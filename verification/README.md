# Verified model of the kernel's heap, page tables, path parser and FAT16 read path

This project models four cooperating parts of a small 32-bit kernel and proves
what they promise each other. They stack: page tables, parsed paths and open
files all live in blocks of one heap.

- **Heap** (`HeapRuns`, `HeapOps`, `BlockHeap`, `KernelHeap`). A first-fit
  allocator whose only state is one byte per 4096-byte block. The abstraction is
  the map of live runs, first block to length; the table is at all times its
  canonical encoding, so "leaves the heap as it was" is equality of maps.
  `KernelHeap` adds the word-addressed memory behind the blocks.
- **Page tables** (`PageTables`, `IdentityMap`, `Paging`). A page directory and
  1024 tables, each in a heap block of its own, refine one flat map of 2^20
  entries.
- **Path parser** (`CStrings`, `PathSpec`, `PathParser`). A cursor that builds a
  linked list in heap blocks, against a definition by splitting at `/`.
- **FAT16 read path** (`Streamer`, `FatVolume`, `FatChain`, `FatReader`,
  `FatNames`, `FatDirectory`, `FatAcyclic`, `FatItems`, `FatPaths`, `FatTree`,
  `FatLookup`, `FatOpen`, `CursorModel`, `FatFile`, `FatMount`, `FatGeometry`,
  `FileSystem`). From a one-sector buffer up to files that behave as byte arrays
  with a cursor, with every allocation accounted for. `MountAndRead` puts
  everything together.
- **On-disk format** (`FatFields`, `FatFormat`, `FormattedFile`). Boot sector,
  records, table and clusters written out part after part, with no offsets, and
  that the driver reads every part back; `ReadWritten` goes from a written volume
  to the bytes a client gets.

The heap table, streams, page tables, component lists, read buffers and file
descriptors are arrays and objects changed in place, as in the source. A heap
object whose fields are written once (a loaded directory, a cloned record) is a
value that carries its kernel address; releasing it frees that address.

Where an expected property does not hold of the code, the code is kept and the
exact condition is proved:

- The lookup loop dereferences a null item when the item is that of a component
  neither first nor last (src/fs/fat/fat16.c:617-626), whether the component does
  not resolve on the volume or the heap has no room to open it. `Lookup` is the walk
  on a given volume and heap; `GetDirectoryEntry`, `Open`, `OpenThenClose` and
  `OpenByPath` fault if and only if it ends at such a component, and otherwise a
  failed open restores the heap table. `LookupMeaning` says what the walk reveals
  about the volume, `MiddleComponentMissing` gives a mountable image and a path on
  which it faults, and `ExhaustionDereferences` shows that a full heap makes it
  fault even on a path that resolves completely.
- The parser's length check is passed by paths above 1000 characters, for which the
  length function returns a negative error code (src/string/string.c:16-18,
  src/fs/pparser.c:94-95). `Accepted` includes them; `LongPathAccepted` is an
  example.
- A rejected parse whose first component is empty keeps its root block
  (src/fs/pparser.c:102-104); `Parse` states this outcome, `RejectedIff` says on
  which paths, and `EmptyPathRejected` gives the shortest.
- One call of the stream reader is right only from a sector boundary or within a
  sector; `AlignedIsExact` proves that condition exact, and every call of the
  driver is verified to meet it.
- The comment at src/memory/heap/kheap.c:12 gives 1048577600 bytes for the heap;
  the configured size, followed here, is 104857600 (src/config.h:10).

Unchecked allocations of the source appear as preconditions on free blocks.
Proofs use `hide` only to keep facts out of the solver's way.

## Model

| member | source | states |
|---|---|---|
| HeapRuns.DecodingIsUnique | src/memory/heap/heap.h:8-11 | A table is the encoding of at most one set of live runs, even for adjacent runs |
| HeapRuns.TableBytes | src/memory/heap/heap.h:8-11 | The four bytes of a taken block, and that the low nibble alone says whether a block is free |
| HeapRuns.EncodeAdd | src/memory/heap/heap.c:92-102 | Adding a run over free blocks keeps runs disjoint and changes the table on that run only |
| HeapRuns.EncodeRemove | src/memory/heap/heap.c:146-155 | Removing a run frees its blocks and changes nothing else |
| HeapRuns.BlocksConserved | src/memory/heap/heap.c:53-157 | Free blocks plus the lengths of live runs sum to the total |
| HeapRuns.RoomAfterFirstFit | src/memory/heap/heap.c:53-84 | First fit costs the longest free stretch at most the size taken |
| HeapOps.BlocksForIsCeiling | src/memory/heap/heap.c:46-51 | Under 32-bit wrap the block count is the exact ceiling, or zero for sizes in the last page |
| HeapOps.EveryRunIsSound | src/memory/heap/heap.c:104-157 | After any sequence of allocations and frees with any arguments the live runs are disjoint, inside the heap, and account for every block |
| HeapOps.AllocRoom | src/memory/heap/heap.c:53-123 | An allocation succeeds exactly when its blocks fit in the longest free stretch, and takes no more than them from it |
| HeapOps.FreeUndoesMalloc | src/memory/heap/heap.c:115-157 | Freeing a pointer just returned gives back the live runs, hence the table |
| HeapOps.LivePtrIff | src/memory/heap/heap.c:125-157 | The pointers a free acts on are exactly the addresses of first blocks of live runs |
| HeapOps.FreesCommute | src/memory/heap/heap.c:125-157 | Two frees commute, whatever the pointers |
| HeapOps.FreeingAllEmptiesHeap | src/memory/heap/heap.c:125-157 | Freeing all live pointers in any order, with other pointers mixed in, gives the table heap_create left |
| HeapOps.FreeKeepsMallocSucceeding | src/memory/heap/heap.c:53-84 | A free never turns a succeeding allocation into a failing one |
| BlockHeap.Heap.GetStartBlock | src/memory/heap/heap.c:53-84 | The least index that starts n consecutive free blocks; failure exactly when there is none, and always for zero blocks |
| BlockHeap.Heap.MarkBlocksTaken | src/memory/heap/heap.c:92-102 | Exactly the n entries become one run with first and has-next flags |
| BlockHeap.Heap.MallocBlocks | src/memory/heap/heap.c:104-113 | Null exactly when no stretch is long enough; otherwise the first fit becomes live |
| BlockHeap.Heap.Malloc | src/memory/heap/heap.c:115-123 | The live runs become those of the abstract allocation and the pointer is the first fit's address; a null result leaves the table alone |
| BlockHeap.Heap.Free | src/memory/heap/heap.c:125-157 | The run starting at the pointer is released; interior, free, misaligned and outside pointers change nothing |
| BlockHeap.Heap.Perform | src/memory/heap/heap.c:104-157 | Any sequence of calls with any arguments keeps the table the encoding of the abstract runs; free blocks and live lengths sum to the total |
| BlockHeap.Create | src/memory/heap/heap.c:21-44 | Succeeds exactly on aligned, ordered bounds that match the table, with each error case; then the table is all free |
| KernelHeap.Kheap.Kzalloc | src/memory/heap/kheap.c:39-45 | A fresh run, or null exactly when the longest free stretch is too short; exactly the requested bytes are cleared |
| KernelHeap.ClearsLowBytes | src/memory/heap/kheap.c:39-45 | Clearing part of a word zeroes exactly its lowest bytes |
| KernelHeap.Kheap.Kfree | src/memory/heap/kheap.c:34-36 | Frees as the block heap does and never shrinks the longest free stretch |
| KernelHeap.KheapInit | src/memory/heap/kheap.c:11-28 | With the configured constants creation succeeds and all 25600 blocks are free |
| Machine.AndHighMask | src/memory/paging/paging.c:74-74 | Masking off the low bits of a word rounds it down |
| Machine.OrLowBits | src/memory/paging/paging.c:25-29 | Or-ing low bits touches only the low bits |
| Machine.AndOrBits | src/memory/paging/paging.c:25-29 | AND and OR of words are those of each binary digit |
| PageTables.WalkReadsFlatMap | src/memory/paging/paging.c:50-62 | The two-level walk reads the flat map at the page number |
| PageTables.StoreUpdatesFlatMap | src/memory/paging/paging.c:73-75 | One store into a table entry keeps the directory and updates the flat map at exactly that page |
| PageTables.LastSetWins | src/memory/paging/paging.c:64-77 | After any run of calls a page holds the entry last set, or its original one |
| IdentityMap.BuiltGrows | src/memory/paging/paging.c:21-30 | Entering a filled table extends the finished part of the directory by one |
| IdentityMap.WritableBit | src/memory/paging/paging.c:29-29 | A directory entry carries the flags and the writable bit |
| IdentityMap.BuiltIsIdentity | src/memory/paging/paging.c:17-35 | Masking recovers every table and entry number p is p*4096 with the flags |
| IdentityMap.IdentityWalk | src/memory/paging/paging.c:10-16 | The identity map translates every address to itself, as far as the present flag allows |
| Paging.FillTable | src/memory/paging/paging.c:24-26 | The i-th table maps page i*1024+b to its own frame although the signed offset wraps; no other page's words change |
| Paging.PagingNew4gb | src/memory/paging/paging.c:17-35 | Exactly 1026 fresh, pairwise distinct one-block runs; the chunk points to a directory that is the identity map; live memory untouched |
| Paging.GetIndex | src/memory/paging/paging.c:50-62 | Both indices recompose the aligned address; unaligned addresses are rejected |
| Paging.PagingSet | src/memory/paging/paging.c:64-77 | Unaligned: nothing changes. Aligned: one word changes, the flat map at its page, never the directory |
| Paging.BuildAndRemap | src/memory/paging/paging.c:17-77 | After construction and any run of calls every address translates to the frame last set for its page, or to itself; nothing translates if the tables were not built present |
| CStrings.Strlen | src/string/string.c:8-22 | The length up to 1000 characters, the error code above |
| CStrings.Istrncmp | src/string/string.c:86-99 | Zero exactly when the strings agree up to ASCII case on their first n bytes |
| CStrings.FoldAlikeIff | src/string/string.c:79-84 | Two bytes fold alike exactly when equal or the two cases of one ASCII letter |
| CStrings.SameFoldIsEquivalence | src/string/string.c:79-99 | Equality up to case is an equivalence |
| CStrings.UpperIsSame | src/string/string.c:79-99 | The upper-case form of a string is the same string up to case |
| CStrings.NonLettersMatter | src/string/string.c:79-99 | Strings that differ in a byte that is no letter differ in any case |
| CStrings.SameFoldIff | src/string/string.c:79-99 | Two strings are the same up to case exactly when their upper-case forms are equal |
| CStrings.DigitsAre | src/string/string.c:36-46 | The digits are the ten characters with their values; a letter gives the error code |
| PathSpec.SplitJoin | src/fs/pparser.c:33-49 | Splitting undoes joining |
| PathSpec.ParseUndoesPrint | src/fs/pparser.c:91-114 | A printed path within 108 characters is accepted and gives back its drive and components |
| PathSpec.SplitHead | src/fs/pparser.c:33-49 | Cutting at the first slash yields the next component and the rest |
| PathSpec.PeakIsBounded | src/fs/pparser.c:91-114 | No path of at most 1000 characters needs more than 108 blocks |
| PathSpec.AcceptedIff | src/fs/pparser.c:9-24 | The accepted paths, character by character and with the length limits in figures |
| PathSpec.RejectedIff | src/fs/pparser.c:94-104 | With an accepted length and prefix a path is rejected exactly when nothing or a slash follows the prefix |
| PathSpec.EmptyPathRejected | src/fs/pparser.c:102-104 | The bare drive prefix is such a path: it keeps the root block |
| PathSpec.LongPathAccepted | src/fs/pparser.c:94-95 | A path of 1001 characters passes the length check meant for 108 |
| PathSpec.RealisticPartsFit | src/fs/pparser.c:33-40 | Up to 1000 characters every accepted path's components fit their buffers |
| PathParser.GetPathPart | src/fs/pparser.c:33-49 | The next segment in a fresh terminated buffer and the cursor past one slash; for an empty segment null, and the heap as before |
| PathParser.ParsePart | src/fs/pparser.c:54-66 | The next component appended after the last node, with two new blocks; or null exactly when none is left |
| PathParser.Parse | src/fs/pparser.c:91-114 | Succeeds exactly on accepted paths, with the drive and the longest leading run of non-empty components, in 2k+1 new blocks; otherwise the heap is unchanged, except for one kept block when only the first component is empty |
| PathParser.FreeRoot | src/fs/pparser.c:69-78 | Releases exactly the blocks of the path, each once |
| PathParser.ParseThenFree | src/fs/pparser.c:69-114 | Parsing and freeing restores the heap table |
| Streamer.AlignedIsExact | src/disk/streamer.c:26-49 | The alignment condition holds exactly when no recursive step reads past the sector buffer |
| Streamer.DiskStream.Read | src/disk/streamer.c:26-49 | Under that condition the bytes image[pos..pos+total] are delivered and the position advances by total |
| FatReader.FatDisk.GetFatEntry | src/fs/fat/fat16.c:365-383 | The 16-bit table entry of the cluster |
| FatReader.FatDisk.GetClusterForOffset | src/fs/fat/fat16.c:414-438 | The cluster of the chain at the offset, or -EIO exactly when a link before it is not a data link |
| FatReader.FatDisk.StreamRead | src/fs/fat/fat16.c:385-409 | Splitting at sector boundaries reads a contiguous stretch of the image |
| FatReader.FatDisk.ReadFromStream | src/fs/fat/fat16.c:440-466 | Zero exactly when the chain reaches the last byte, then the range of the chain is delivered; otherwise -EIO; independent of earlier stream positions |
| FatChain.ChainBytesSplit | src/fs/fat/fat16.c:458-462 | The bytes of a range are those of its two parts |
| FatChain.WithinOneCluster | src/fs/fat/fat16.c:450-455 | A range inside one cluster is contiguous in the image |
| FatChain.ReadIsSliceOfConcat | src/fs/fat/fat16.c:440-472 | A read is a slice of the concatenation of the chain's clusters |
| FatGeometry.ClustersDisjoint | src/fs/fat/fat16.c:357-359 | Distinct clusters share no sector |
| FatGeometry.DataFollowsRoot | src/fs/fat/fat16.c:210-250 | Clusters from 2 on lie after the root directory |
| FatGeometry.ShippedClustersInRange | src/boot/boot.asm:16-23 | With the shipped header byte positions fit a signed int exactly up to cluster 32763 |
| FatFields.Le16UndoesWord16 | src/fs/fat/fat16.c:365-383 | Reading a word undoes writing it lowest byte first, at any place |
| FatFields.Le32UndoesWord32 | src/fs/fat/fat16.c:70-87 | The same for 32-bit words |
| FatFields.ParseUndoesWrite | src/fs/fat/fat16.c:38-67 | Parsing a boot sector written field by field gives back its geometry and signature |
| FatFields.ShippedBootParses | src/boot/boot.asm:10-36 | The shipped boot sector parses to the shipped geometry with signature 0x29 |
| FatFields.RecordReadsBack | src/fs/fat/fat16.c:70-87 | Name, attribute, both cluster words and size read back from a record written field by field |
| FatFields.RecordKinds | src/fs/fat/fat16.c:570-572 | Lookup skips exactly deleted, long-name and volume-label records; bit 4 marks a directory |
| FatFormat.FormatReadsBack | src/fs/fat/fat16.c:210-383 | On a volume written part after part the driver finds the table, the root directory and every cluster |
| FatFormat.DataLinkIff | src/fs/fat/fat16.c:427-431 | The walk goes on exactly past entries that are not free, reserved, bad or end marks |
| FatFormat.ChainReadsBack | src/fs/fat/fat16.c:414-438 | The walk over a linked list of clusters visits them in order and then stops |
| FatFormat.DistinctChainAcyclic | src/fs/fat/fat16.c:414-438 | A written chain of distinct clusters is acyclic |
| FatFormat.FileReadsBack | src/fs/fat/fat16.c:440-466 | A read of a written chain is a slice of the contents written to its clusters |
| FatNames.FirstClusterIsLowWord | src/fs/fat/fat16.c:353-355 | With a zero high word the first cluster is the low word |
| FatNames.ToProperString | src/fs/fat/fat16.c:312-323 | The field up to its padding, cut to leave room for the terminator; nothing else changes |
| FatNames.GetFullRelativeFilename | src/fs/fat/fat16.c:326-339 | The buffer holds the longest prefix of the 8.3 name that leaves a terminator, padded with NUL |
| FatNames.PackUndoesFormat | src/fs/fat/fat16.c:312-339 | Packing the formatted name gives back the 11 name bytes of a well-padded record |
| FatNames.BoundedMatchIsAnswer | src/fs/fat/fat16.c:577-579 | The bounded comparison is full equality up to ASCII case |
| FatDirectory.TotalIffBlank | src/fs/fat/fat16.c:474-494 | A count exists exactly when the chain holds a blank record |
| FatDirectory.CountRecords | src/fs/fat/fat16.c:474-494 | The index of the first blank record, or -EIO exactly when the chain ends without one; the loop terminates |
| FatDirectory.BulkLoadHoldsRecords | src/fs/fat/fat16.c:522-532 | The bulk load holds exactly the records before the blank one |
| FatAcyclic.ChainEnds | src/fs/fat/fat16.c:421-433 | A chain of distinct clusters is no longer than the image has room for |
| FatAcyclic.AcyclicDirectoryStops | src/fs/fat/fat16.c:474-494 | On an acyclic chain counting always stops, within signed 32-bit offsets |
| FatTree.SoundInScope | src/fs/fat/fat16.c:474-540 | When the directories reachable from the root have acyclic chains inside the image, every path is in the scope of the lookup results |
| FatItems.LoadDirectory | src/fs/fat/fat16.c:505-540 | The directory on disk with its heap runs, or null with the heap as before: exactly when the disk has none or an allocation fails |
| FatItems.PlaceRoom | src/fs/fat/fat16.c:496-561 | A record that stands for a node is opened whenever its blocks fit in the longest free stretch, and takes no more than them from it |
| FatItems.FreeItem | src/fs/fat/fat16.c:588-598 | Releases exactly the runs of the item |
| FatLookup.NewItem | src/fs/fat/fat16.c:542-561 | The node the record stands for, or nothing and the heap as before: exactly when there is none or an allocation fails |
| FatLookup.FindItem | src/fs/fat/fat16.c:566-586 | Opens the first live record that answers to the name; nothing exactly when none does or it cannot be opened on this heap |
| FatPaths.LookupMeaning | src/fs/fat/fat16.c:605-631 | The walk arrives only at what the path means, and gives a null item only for a component that does not resolve or that the heap had no room for; with room it does so exactly then |
| FatPaths.ExhaustionDereferences | src/fs/fat/fat16.c:617-626 | A heap filled up by the first component makes a null item be dereferenced on every longer path, even one that resolves completely |
| FatNullExample.MiddleComponentMissing | src/fs/fat/fat16.c:617-628 | A mountable image and a path on which a null item is dereferenced, on every heap with room to open its directory |
| FatLookup.GetDirectoryEntry | src/fs/fat/fat16.c:605-631 | The outcome of the walk on this volume and heap: the item arrived at is the only change to the heap, and a null item is dereferenced exactly when its component is neither first nor last |
| FatOpen.Open | src/fs/fat/fat16.c:633-663 | The exact result for every volume, path, mode and heap: files open, each error has its code, -ENOMEM exactly on a full heap; every error, heap exhaustion included, leaves the heap table as it was |
| FatOpen.OpenWithRoom | src/fs/fat/fat16.c:605-663 | With room along the path, opening comes to exactly what the volume says |
| FatOpen.Close | src/fs/fat/fat16.c:778-786 | Gives back the heap from before the open |
| FatOpen.OpenThenClose | src/fs/fat/fat16.c:633-786 | Open followed by close restores the heap table byte for byte, except exactly when the walk gives a null item for a component neither first nor last; never on paths of one or two components |
| CursorModel.ItemsIsLargest | src/fs/fat/fat16.c:681-684 | The item count is the largest that fits before the end |
| CursorModel.ReadsCompose | src/fs/fat/fat16.c:665-697 | Reading n1 and then n2 items is reading n1+n2: bytes, count and cursor |
| CursorModel.RelativeSeeksAdd | src/fs/fat/fat16.c:720-732 | Two relative seeks are one by the sum |
| CursorModel.ReadMovesLikeSeek | src/fs/fat/fat16.c:665-748 | Reading k items leaves the cursor where a relative seek over them does |
| FatFile.ReadItems | src/fs/fat/fat16.c:681-691 | All whole items that fit, or -EIO exactly when the chain does not reach the last of their bytes |
| FatFile.Read | src/fs/fat/fat16.c:665-697 | As ReadItems, with argument errors; the cursor moves only on success and stays within the file |
| FatFile.Seek | src/fs/fat/fat16.c:699-748 | For every mode, when it succeeds, where the cursor then is, and the error code otherwise; failed seeks do not move |
| FatFile.Session | src/fs/fat/fat16.c:665-748 | Any run of reads and seeks on a covered file is the run of a byte array with a cursor |
| FatFile.CoveredSize | src/fs/fat/fat16.c:681-691 | An acyclic chain in the image covers no file of 2^31 bytes or more, so offsets stay C ints |
| FatMount.CountRootRecords | src/fs/fat/fat16.c:173-203 | Root records before the first blank one, at most the configured number |
| FatMount.GetRootDirectory | src/fs/fat/fat16.c:210-257 | The root directory bytes of the image and their count, or -ENOMEM exactly when its size cannot be allocated |
| FatMount.Resolve | src/fs/fat/fat16.c:260-309 | Each error code exactly when it is returned; failures restore the heap; success leaves the private structure, three streams and the root directory |
| FatMount.RootPlacedIff | src/fs/fat/fat16.c:210-309 | Mounting fails with -EIO when the root directory has no entries, and succeeds on others when the longest free stretch holds all it allocates |
| FileSystem.MountedRootIsUsable | src/fs/fat/fat16.c:210-257 | A mounted root directory is that of the image, can be searched, and none of the records searched is blank |
| FileSystem.OpenByPath | src/fs/fat/fat16.c:633-663 | From a path string: exactly when a file opens and when a null item is dereferenced, on the heap after parsing; in every other case the heap table ends as it began |
| FileSystem.ReadByPath | src/fs/fat/fat16.c:633-786 | Parsing, opening, any reads and seeks, closing and freeing: every call returns what a byte array holding the file would, and the heap is as it was |
| FileSystem.MountAndRead | src/fs/fat/fat16.c:260-786 | The same from an image: after mounting, the bytes read are those the image's boot sector, root directory, tables and clusters determine, and only the mount stays in the heap |
| FormattedFile.FoundInAnyCase | src/fs/fat/fat16.c:566-586 | A record written in upper case answers exactly to its name in any case |
| FormattedFile.StoredContent | src/fs/fat/fat16.c:665-697 | The content of a file is what was written to the clusters of its chain, cut to its size |
| FormattedFile.WrittenFileIsHeld | src/fs/fat/fat16.c:260-663 | A written volume holds its file under every path that names it, with six blocks of heap |
| FormattedFile.ReadWritten | src/fs/fat/fat16.c:260-786 | Mounting a written volume and reading a file by name gives what a byte array holding the written bytes would |
| FormattedFile.HelloPath | src/kernel.c:111-111 | The path the kernel opens is the printed form of its name |
| FormattedFile.HelloIsFound | src/kernel.c:111-111 | That name finds the record HELLO.TXT |

## Left out

- PathParser.Parse: above 1000 characters a component of 108 or more overruns its buffer (src/fs/pparser.c:33-40); such paths are outside its precondition, as are those of PathParser.ParseThenFree.
- FatFile.Read: offsets are C ints, so a read that starts at or beyond 2^31, has items of 2^31 bytes or more, or runs past 2^31 on a chain that reaches so far (a cyclic one) is outside its precondition and that of FatFile.ReadItems.
- FatFile.Session: a file of 2^31 bytes or more covered by a cyclic chain is outside its precondition.
- FormattedFile.ReadWritten: written root directories hold files only; paths through subdirectories are covered by FileSystem.MountAndRead.
- Disk controller port polling: reading a sector copies 512 bytes of an immutable image and always succeeds.
- Reads outside the image: the clusters a read visits are required to lie in it, and the image to stay below 2^31 bytes.
- Directory chains without a stop: a cyclic subdirectory chain with no blank record does not terminate and is outside the precondition; acyclic chains are proved to meet it.
- Contents of heap objects other than page tables: parsed paths, directories and descriptors are objects that carry their kernel address, so aliasing between them through raw memory is not modelled.
- Null heap, path-string and disk arguments: the model's parameters are never null where the callers of the source never pass null.
- Registration of the filesystem on the disk structure and the descriptor table of file.c: thin dispatch.
- fopen in file.c: its filesystem test and mode comparison do not express the intended open, so the model starts from opening and parsing directly.
- fat16_stat, timestamps, attributes beyond directory, label and long-name bits: no hard property.
- memset, memcpy and memcmp as functions of their own: each use is a loop or an equality in the operation that calls it.
- Loading CR3 and CR0: the hardware's translation is a function on memory.
