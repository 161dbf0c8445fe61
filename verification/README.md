# Verified models of the unikernel's core

Dafny models of the parts of the system whose correctness rests on an
invariant, a round trip or an index calculation, with proofs over all inputs
and all runs. `dafny verify dfyconfig.toml` checks everything.

- **Buddy allocator** (`Bits`, `BuddyTree`, `BuddyNodes`, `BuddySearch`,
  `BuddySpec`, `BuddyPool`, `Buddy`). The class `Buddy.Alloc` keeps the flag
  bytes of the tree in an array and changes them in place, one node at a time.
  It is proved to refine a state machine over sets of blocks, and the state
  machine is proved safe, first-fit, complete and conserving over every run.
  `sizeof(Alloc)` is a parameter between 2 bytes and a page.
- **Ring buffer** (`Arith`, `Rotation`, `RingBuffer`). Reading, writing and
  discarding refine a bounded queue. The in-place rotation follows the cycles
  of a permutation; how many there are and what they cover is proved from
  Bezout's identity.
- **Disk images** (`FatEntries`, `FatLayout`, `FatWriter`, `FatExtents`,
  `FatReader`, `FatListing`, `FatRoundTrip`, `FatImage`, `FatPath`). The image builder,
  writing into a file held in memory, against the file system that reads the
  image when the system runs. The tree that is read back is the tree that was
  written if and only if its names are of a given form. `FatPath` looks up
  paths in such an image.
- **Lazy stack allocator** (`Intervals`, `LstackSpec`, `Lstack`). A free list
  kept inside the free memory itself, edited through the link that leads to a
  chunk, against a state machine over bytes.
- **CRC-64** (`Crc64`). Table construction and the step that takes eight bytes
  at a time against bit-by-bit polynomial division.
- **VFS mount tree** (`VfsSpec`, `Vfs`). Nodes that own lists of children,
  against a map from paths to mounted objects.
- **ELF symbol pruner** (`Pieces`, `ElfPrune`), **port allocator** (`Ports`)
  and **Base64** (`Pieces`, `Base64`).

`Bytes` holds the byte type, `Common` what several models share.

Where the code does not do what its comments or names promise, the model
follows the code, and the exact condition under which the promise holds is
proved:

- `Alloc::pool_size` keeps its candidate in an `int`
  (`BuddyPool.PoolSizeExact`, `BuddyPool.WrappedPoolSize`,
  `BuddyPool.TightPoolSize`, `BuddyPool.OverbookedPoolSize`).
- `Alloc::chunksize` wraps for requests above half the address space, which
  then get a single page (`BuddySpec.ChunkSizeMeaning`,
  `BuddySpec.LiveBlocksSafe`, `BuddySpec.HugeRequestServed`).
- Freeing the address of a block that was marked past the limit and never
  handed out makes the byte counter wrong, and only that
  (`BuddySpec.RunCounter`, `BuddySpec.BurnedRelease`).
- A request may end at the limit, but a release by size may not
  (`BuddySpec.OwnSizeReleases`, `BuddySpec.WholePoolStuck`).
- A request the pool could hold ends the program while the whole pool is one
  block, where it should be refused; runs make none
  (`BuddySpec.AllowedExactly`, `BuddySpec.WholePoolStuck`).
- `RingBuffer::sequentialize` stops early on a buffer that is not full
  (`RingBuffer.StraightenedExactly`, `RingBuffer.PartialRotationFails`), and
  leaves a full one with its end outside the array
  (`RingBuffer.Ring.Sequentialize`).
- A name of at most 11 bytes that ends in a blank or starts with the mark of an
  unused entry, a longer one with a byte 0xFF, or one of more than 15 long
  entries does not come back from a disk image (`FatImage.ImageRoundTrip`,
  `FatImage.TrailingBlankLost`).
- A missing directory after the first of a path is passed over
  (`FatPath.PathListing`, `FatPath.PathStat`, `FatPath.MissingNamePassedOver`).
- `Lstack::allocate(0)` breaks a free list that is not empty
  (`Lstack.Lstack.Allocate`).
- `crc64::checksum` sign-extends its bytes (`Crc64.BlockExact`,
  `Crc64.SignSpoilsBlock`) and does not advance through its input
  (`Crc64.ChecksumExact`).
- The buffer of the symbol pruner is too small when names are shared
  (`ElfPrune.OutputFits`, `ElfPrune.SharedNameOverflows`).
- Binding a bound port or releasing a free one makes the count of bound ports
  wrong, and then no port is given though some are free, or port 0 though it is
  not a dynamic one (`Ports.PortUtil.GetNextEphemeral`, `Ports.BindTwice`,
  `Ports.UnbindFree`, `Ports.PortZeroGiven`).
- `base64::decode` accepts foreign characters in a padded last quad
  (`Base64.DecodeRejects`).

## Model

| member | source | states |
|---|---|---|
| Bits.FlsUnique | api/util/bitops.hpp:136-138 | the position of the last set bit is the only exponent whose power-of-two bracket holds the number |
| Bits.KeepLastIsFloor | api/util/bitops.hpp:141-142 | keeping the last bit gives the largest power of two not above the number |
| Bits.NextPow2IsCeiling | api/util/bitops.hpp:156-160 | the next power of two is the least that covers the number up to half the word range, and zero above it |
| Bits.WordRoundToExact | api/util/bitops.hpp:163-176 | rounding words gives the least multiple that is at least the number if and only if the sum does not wrap, and zero otherwise |
| BuddyTree.ChildGeometry | api/util/alloc_buddy.hpp:384-396 | children halve the block of their parent |
| BuddyTree.OffsetFormula | api/util/alloc_buddy.hpp:455-467 | the closed form of a block's offset is where repeated halving puts it |
| BuddyTree.RangesLaminar | api/util/alloc_buddy.hpp:455-467 | the blocks of any two nodes are nested or disjoint |
| BuddyTree.BlockPlacement | api/util/alloc_buddy.hpp:459-467 | every block is a power of two of at least a page, aligned to its size, inside the pool |
| BuddyNodes.ZeroIffIdle | api/util/alloc_buddy.hpp:414-416 | a flag byte is zero if and only if nothing in the subtree is taken |
| BuddyNodes.BelowTakenIsZero | api/util/alloc_buddy.hpp:588-589 | a taken node carries no other flag and everything below it is zero |
| BuddyNodes.FastQueriesAgree | api/util/alloc_buddy.hpp:414-452 | the one-byte queries for full and free answer what the recursive ones compute |
| BuddyNodes.Canonical | api/util/alloc_buddy.hpp:487-620 | the flag array is a function of the set of taken nodes, so coalescing is complete |
| BuddyNodes.BytesUsedIsTotal | api/util/alloc_buddy.hpp:622-630 | the recursive byte count is the sum of the taken blocks |
| BuddyNodes.HighestUsedIsMax | api/util/alloc_buddy.hpp:632-649 | the highest-used query finds the largest end of a taken block |
| BuddySearch.FullOffersNothing | api/util/alloc_buddy.hpp:507-535 | skipping a subtree flagged full loses no candidate |
| BuddySearch.CandidatesOfParent | api/util/alloc_buddy.hpp:504-537 | candidates on the left come before those on the right, and there are no others |
| BuddySearch.LiftChange | api/util/alloc_buddy.hpp:507-566 | a change in one child with the parent's byte summarised again keeps every flag of the parent's subtree right |
| BuddySpec.ChunkSizeMeaning | api/util/alloc_buddy.hpp:271-276 | the block size is the least power of two of at least a page that covers the request, if the pool has one, for requests up to half the word range |
| BuddySpec.ApartBlocksFit | api/util/alloc_buddy.hpp:622-630 | unrelated blocks under a node never add up to more than its block |
| BuddySpec.AllocateKeeps | api/util/alloc_buddy.hpp:316-339 | serving a request keeps blocks unrelated and the counter right |
| BuddySpec.BlockAtUnique | api/util/alloc_buddy.hpp:581-620 | at most one block starts at an address |
| BuddySpec.DeallocateKeeps | api/util/alloc_buddy.hpp:341-347 | releasing any address keeps the structure, and the counter if and only if the address is not that of a block never handed out |
| BuddySpec.RunKeepsStructure | api/util/alloc_buddy.hpp:316-347 | in every state of every run, whatever addresses are released, blocks are unrelated, of the size for their request, and handed out if and only if they end within the limit |
| BuddySpec.RunCounter | api/util/alloc_buddy.hpp:316-347 | in every state of every run the counter is short of the live blocks by the sizes of the burned blocks released, and right if and only if these add up to nothing |
| BuddySpec.RunNeverBurns | api/util/alloc_buddy.hpp:328-335 | if the pool ends within the limit no run of requests up to half the word range burns a block, and the counter is always right |
| BuddySpec.BurnsExactly | api/util/alloc_buddy.hpp:328-335 | some such run burns a block if and only if the pool runs past the limit |
| BuddySpec.LiveBlocksSafe | api/util/alloc_buddy.hpp:316-339 | live blocks are disjoint, aligned, in the pool, powers of two, and cover their request within the limit if and only if it is at most half the word range |
| BuddySpec.HugeRequestServed | api/util/alloc_buddy.hpp:271-276 | a fresh pool answers a request for all but one byte of the address space with its first page |
| BuddySpec.BurnedRelease | api/util/alloc_buddy.hpp:328-347 | a request for all of a pool that runs past the limit leaves a block whose release breaks the counter |
| BuddySpec.OwnSizeReleases | api/util/alloc_buddy.hpp:332-345 | a live block can be given back by the size asked for if and only if its request does not end at the limit |
| BuddySpec.WholePoolStuck | api/util/alloc_buddy.hpp:332-345 | a pool that ends at the limit hands out all of itself, cannot take it back by its size, and may not be asked again |
| BuddySpec.AllowedExactly | api/util/alloc_buddy.hpp:316-323 | which requests do not end the program: all words, but while the whole pool is one block only those larger than it, up to half the word range |
| BuddySpec.FreeIffRangeUnused | api/util/alloc_buddy.hpp:487-538 | a node is free if and only if its block meets no block given away |
| BuddySpec.AllocateIsFirstFit | api/util/alloc_buddy.hpp:487-538 | a request gets the lowest-addressed block that fits whenever there is one, and otherwise changes at most the overbooked mark |
| BuddySpec.RequestAnswer | api/util/alloc_buddy.hpp:316-339 | an address is given if and only if the lowest block that fits ends the request within the limit, and then that block's; else 0, and nothing becomes live; a request larger than the pool changes nothing |
| BuddySpec.FittingOutcome | api/util/alloc_buddy.hpp:316-339 | the whole new state when a block fits: that block live, or marked past the limit and the memory overbooked, and all else as before |
| BuddySpec.UnfitOutcome | api/util/alloc_buddy.hpp:316-339 | when none fits nothing is marked, and memory counts as overbooked only for a request above the limit itself |
| BuddySpec.ReleaseAnswer | api/util/alloc_buddy.hpp:341-347 | a release takes away the block that starts at the address and reports its size, or reports 0 and changes nothing |
| BuddySpec.ReleaseUndoesRequest | api/util/alloc_buddy.hpp:316-347 | releasing what was just handed out restores the state and reports the block's size |
| BuddySpec.ReleaseAllEmpties | api/util/alloc_buddy.hpp:341-347 | releasing all live addresses in any order leaves nothing live and takes the live blocks off the counter |
| BuddySpec.EmptyPoolServesAll | api/util/alloc_buddy.hpp:316-339 | an empty pool hands out all of itself in one block |
| BuddyPool.OverheadFits | api/util/alloc_buddy.hpp:78-87 | the overhead of a pool is whole pages, as few as hold the allocator and a byte for every node, and at most the pool |
| BuddyPool.SmallPoolSize | api/util/alloc_buddy.hpp:102-129 | up to 2^31 bytes the pool is the largest power of two that fits with its overhead |
| BuddyPool.PoolSizeExact | api/util/alloc_buddy.hpp:102-129 | for every buffer, when the pool is the largest that fits: up to 2^31 bytes, and above 2^32 unless the buffer exceeds a power of two by a page or more but by less than its overhead; there it is the largest that fits with one page |
| BuddyPool.WrappedPoolSize | api/util/alloc_buddy.hpp:106-119 | between 2^31 and 2^32 bytes the pool comes out as half the address space |
| BuddyPool.TightPoolSize | api/util/alloc_buddy.hpp:117-128 | a buffer of 2^32 bytes and two pages gets a pool of 2^32, which does not fit |
| BuddyPool.OverbookedPoolSize | api/util/alloc_buddy.hpp:107-115 | overbooking takes the next power of two above a buffer that is none; a power of two gets half of itself, but 2^32 bytes half the address space; above half of that it is as underbooking |
| Buddy.Alloc.constructor | api/util/alloc_buddy.hpp:238-251 | a new allocator has a zero array and is in the initial state, its pool at the next page boundary |
| Buddy.Create | api/util/alloc_buddy.hpp:253-268 | an allocator made in page-aligned memory can burn blocks if and only if its pool and overhead exceed the buffer, so never when underbooking |
| Buddy.Alloc.AllocateNode | api/util/alloc_buddy.hpp:487-538 | the search takes the first candidate under a node and keeps all flags right, or finds none and changes no flag |
| Buddy.Alloc.AllocateUnder | api/util/alloc_buddy.hpp:507-535 | the same for one child and the flags its parent keeps for it |
| Buddy.Alloc.DeallocateNode | api/util/alloc_buddy.hpp:581-620 | a release frees the one block that starts at the address and keeps all flags right, or changes nothing and returns 0 |
| Buddy.Alloc.DeallocateUnder | api/util/alloc_buddy.hpp:544-566 | the same for one child and the flags its parent keeps for it |
| Buddy.Alloc.Allocate | api/util/alloc_buddy.hpp:316-339 | refines the state machine's request, address and all, and keeps the counter right |
| Buddy.Alloc.Deallocate | api/util/alloc_buddy.hpp:341-347 | refines the state machine's release; the counter stays right if and only if the block was handed out |
| Buddy.Alloc.BytesFree | api/util/alloc_buddy.hpp:198-200 | is the capacity less the live blocks, wrapping when blocks run past the limit |
| Buddy.Alloc.BytesUsedRecursive | api/util/alloc_buddy.hpp:206-208 | walking the tree gives the live blocks and those burned past the limit, so the counter plus the latter as long as it is right |
| Buddy.Alloc.HighestUsed | api/util/alloc_buddy.hpp:194-196 | the end of the highest block given away, or the pool's start if there is none, cut off at the limit |
| Buddy.ArrayMeaning | api/util/alloc_buddy.hpp:414-452 | in every state fast and slow queries agree at every node and the byte count adds up |
| Buddy.ReleaseRestoresArray | api/util/alloc_buddy.hpp:487-620 | releasing what was just handed out restores the flag array byte for byte |
| Buddy.DrainedArrayIsZero | api/util/alloc_buddy.hpp:487-620 | releasing everything in any order leaves the all-zero array if and only if nothing was burned past the limit, and the whole pool can then be handed out again |
| Rotation.HopReaches | api/util/ringbuffer.hpp:128-137 | stepping by the start reaches every position of a class |
| Rotation.NoEarlyReturn | api/util/ringbuffer.hpp:130-137 | a cycle does not close before its period |
| RingBuffer.Ring.Write | api/util/ringbuffer.hpp:33-55 | appends the longest prefix that fits to the contents, wherever they wrap, and leaves the end inside the array |
| RingBuffer.Ring.Read | api/util/ringbuffer.hpp:57-77 | hands out the oldest bytes in order and removes them |
| RingBuffer.Ring.Discard | api/util/ringbuffer.hpp:79-87 | removes the oldest bytes, or nothing if there are fewer |
| RingBuffer.Ring.RotateCycle | api/util/ringbuffer.hpp:126-140 | following one cycle moves every byte of one residue class one step and no other byte |
| RingBuffer.Ring.Sequentialize | api/util/ringbuffer.hpp:110-148 | on a full buffer ends after gcd(cap, start) cycles and cap moves with the contents in order, and then fails the source's own check; in general rotates exactly the classes it has done |
| RingBuffer.StraightenedExactly | api/util/ringbuffer.hpp:117-148 | rotating leaves the contents in order for all bytes if and only if used * gcd exceeds (min(used, gcd) - 1) * cap |
| RingBuffer.PartialRotationFails | api/util/ringbuffer.hpp:117-148 | a buffer of capacity 4 with two bytes from position 2 on is not put in order |
| RingBuffer.RunIsFifo | api/util/ringbuffer.hpp:33-87 | over every run the accepted bytes come out once each and in order |
| RingBuffer.Drive | api/util/ringbuffer.hpp:33-148 | any sequence of operations on a ring, straightening it only when full, stores, hands out and leaves what the queue does; without drops, what was there and stored is what was handed out and is left |
| FatEntries.SlotOfEncodes | diskimagebuild/fat_internal.hpp:37-60 | every entry has a 32-byte slot that holds its fields |
| FatEntries.ShortNameBytes | diskimagebuild/fat_internal.hpp:37-47 | where the name and the attributes of an entry are |
| FatEntries.ClusterBytes | diskimagebuild/fat_internal.hpp:37-47 | where each byte of its cluster number is |
| FatEntries.SizeBytes | diskimagebuild/fat_internal.hpp:37-47 | where each byte of its size is |
| FatEntries.LongBytes | diskimagebuild/fat_internal.hpp:49-60 | where the number and the characters of a long entry are |
| FatLayout.PlaceOne | diskimagebuild/writer.cpp:252-270 | noting a sector in an item's short entry is packing the item with that sector |
| FatLayout.EntryCount | diskimagebuild/writer.cpp:235-248 | a directory has as few sectors as hold its entries |
| FatLayout.HoldsKept | diskimagebuild/writer.cpp:272-275 | writes outside the span of a tree leave it in the image |
| FatWriter.CreateLongname | diskimagebuild/writer.cpp:71-124 | the long entries hold the zero-padded pieces of the name, the final one first and marked |
| FatLayout.LongEntries | diskimagebuild/writer.cpp:71-124 | the numbers of the long entries count down to one, only the first is marked last, and in the order of their numbers their characters are the zero-padded name |
| FatWriter.Mod16Test | diskimagebuild/writer.cpp:163-185 | fills up the sector if a name's entries would not fit in it; mod16 counts the entries |
| FatWriter.AddItem | diskimagebuild/writer.cpp:196-233 | appends the item's group and leaves mod16 at the entry count |
| FatWriter.WriteFile | diskimagebuild/writer.cpp:279-293 | the file's data is in its sectors and nothing before them changes |
| FatWriter.CollectEntries | diskimagebuild/writer.cpp:187-245 | the entries of a directory before its items are placed, and where each short entry is |
| FatWriter.WriteSubs | diskimagebuild/writer.cpp:252-260 | all directories end up in the image one after the other and their entries name their sectors |
| FatWriter.WriteFiles | diskimagebuild/writer.cpp:261-270 | the same for files, though one of a multiple of 512 bytes fills a sector past its own |
| FatWriter.WriteDir | diskimagebuild/writer.cpp:187-277 | the whole tree is in the image from the sector on, nothing before it changes, and the span is returned |
| FatExtents.ExtentsTile | diskimagebuild/writer.cpp:247-277 | the extents named by the entries tile the span of a tree without gap |
| FatExtents.ExtentsDisjoint | diskimagebuild/writer.cpp:247-277 | no two directories or files share a sector |
| FatReader.SectorRead | src/fs/memdisk.cpp:48-58 | a sector is read as it is in the image, goes on with what follows in memory if it runs past its end, and is refused if it starts there |
| FatReader.ReadLongName | src/fs/fat.cpp:213-250 | the loop over the entries of a long name computes the name |
| FatReader.IntDirent | src/fs/fat.cpp:191-289 | the loop over a sector's slots computes its entries and whether the end was met |
| FatReader.IntLs | src/fs/fat_sync.cpp:63-77 | the loop over a directory's sectors computes its listing, or fails where the disk ends first |
| FatReader.ListedExactly | src/fs/fat_sync.cpp:63-77 | a directory is listed if and only if one of its sectors holds its end before the disk ends |
| FatReader.ReadIs | src/fs/fat_sync.cpp:36-61 | which bytes of the image reading part of any entry gives, and when it fails |
| FatReader.TypeBits | api/fs/fat_internal.hpp:57-65 | which attributes make an entry a volume label, a directory or a file |
| FatReader.DirClusterIs | api/fs/fat_internal.hpp:40-56 | which bytes of an entry are its cluster number, zero standing for the root |
| FatReader.InitExact | src/fs/fat.cpp:47-158 | when mounting fails and how, and where the data begins, byte by byte |
| FatListing.MakeWalk | src/fs/fat.cpp:191-289 | reading a directory sector by sector is walking over its entries |
| FatRoundTrip.FilledStart | diskimagebuild/writer.cpp:174-185 | a long name's entries and its short entry never cross a sector unless they are too many for one |
| FatRoundTrip.NameRead | src/fs/fat.cpp:213-283 | an item is listed under its own name if and only if the name is of the given form |
| FatRoundTrip.DirectoryListing | src/fs/fat_sync.cpp:63-77 | the listing of every directory the writer laid out, whatever its names |
| FatRoundTrip.ClusterRoundTrip | api/fs/fat.hpp:89-95 | the stored cluster number leads back to the sector |
| FatRoundTrip.FileReads | src/fs/fat_sync.cpp:36-61 | reading any part of a file gives that part of its data |
| FatRoundTrip.TreeRoundTrip | src/fs/fat_sync.cpp:36-77 | a tree in the image mirrors the tree written, recursively, if and only if all its names are of the given form |
| FatImage.WriteImage | diskimagebuild/writer.cpp:20-63 | the image holds the tree from sector 3 on and a boot sector that describes it |
| FatImage.ImageMounts | src/fs/fat.cpp:47-189 | mounting the image finds its geometry and its root |
| FatImage.ImageRoundTrip | src/fs/fat_sync.cpp:36-77 | what is read from a mounted image is what was written, name for name and byte for byte, if and only if all names are of the given form |
| FatImage.TrailingBlankLost | src/fs/fat.cpp:33-38 | a file called "a " comes back as "a" |
| FatPath.Traverse | src/fs/fat_sync.cpp:79-127 | the loop over the names of a path computes the lookup |
| FatPath.UnlistedFails | src/fs/fat_sync.cpp:85-92 | a directory that cannot be listed is an error of the disk |
| FatPath.PathListing | src/fs/fat_sync.cpp:79-127 | listing a path gives what following it in the tree written comes to, errors included, if and only if no name but the first is missing |
| FatPath.Stat | src/fs/fat_sync.cpp:149-175 | computes the entry the lookup finds |
| FatPath.StatFinds | src/fs/fat_sync.cpp:149-175 | a lookup finds what is at the path without its missing directories |
| FatPath.PathStat | src/fs/fat_sync.cpp:149-175 | a lookup finds what is at the path if and only if no directory but the first is missing, or the path without the missing ones leads nowhere |
| FatPath.MissingNamePassedOver | src/fs/fat_sync.cpp:83-120 | where there is only "a/b", "a/x" is listed and "a/x/b" is found |
| Intervals.SumBalance | vmbuild/elf_syms.cpp:176-178 | what blocks below a bound hold together, and what they leave out, is the bound and what they share |
| LstackSpec.AllocateKeeps | api/util/alloc_lstack.hpp:64-76 | an allocation gives aligned, donated memory outside everything live, or fails only when no block is large enough and changes nothing |
| LstackSpec.AllocateTakesFirst | api/util/alloc_lstack.hpp:64-76 | a request takes the front of the first block large enough, leaves all others, and moves the end up to the end of what it gives |
| LstackSpec.ReleaseMovesEnd | api/util/alloc_lstack.hpp:78-85 | a release that reaches the end moves it to the address given back, and any other leaves it |
| LstackSpec.ReleaseLowersEnd | api/util/alloc_lstack.hpp:78-85 | giving back memory from above the end puts the end where that memory began |
| LstackSpec.DonateMovesEnd | api/util/alloc_lstack.hpp:87-93 | a donation moves the end up to its own beginning and adds its bytes |
| LstackSpec.DeallocateKeeps | api/util/alloc_lstack.hpp:78-85 | giving back any aligned live range keeps the invariant, though the allocation end may drop |
| LstackSpec.DonateKeeps | api/util/alloc_lstack.hpp:87-93 | donating memory keeps the invariant |
| LstackSpec.LastInFirstOut | api/util/alloc_lstack.hpp:64-85 | giving memory back and asking for as much again returns it and restores the whole state |
| LstackSpec.RunKeeps | api/util/alloc_lstack.hpp:64-93 | over every run from an empty allocator free blocks and live bytes partition the donated memory, the counters count them, and nothing live is at or above the allocation end |
| Lstack.Lstack.Push | api/util/alloc_lstack.hpp:135-140 | the headers in memory link up as the list with the block in front |
| Lstack.Lstack.FindFree | api/util/alloc_lstack.hpp:142-173 | unlinks or clips the first chunk large enough, or leaves memory alone; clipping nothing leaves the front chunk linked with no size |
| Lstack.Lstack.Allocate | api/util/alloc_lstack.hpp:64-76 | refines the state machine unless zero bytes are asked of a non-empty list, which no list of blocks then describes |
| Lstack.Lstack.Deallocate | api/util/alloc_lstack.hpp:78-85 | refines the state machine's release |
| Lstack.Lstack.Donate | api/util/alloc_lstack.hpp:87-93 | refines the state machine's donation |
| Lstack.Lstack.BytesFree | api/util/alloc_lstack.hpp:104-105 | is the sum of the free chunks' sizes and the number of donated bytes not live |
| Lstack.Lstack.ChunkCount | api/util/alloc_lstack.hpp:117-126 | counts the free chunks |
| Crc64.BitsLinear | api/util/crc64.hpp:111-113 | polynomial division is linear over exclusive or |
| Crc64.GetInitTable | api/util/crc64.hpp:105-119 | every entry is its index divided by eight bits |
| Crc64.GetTable | api/util/crc64.hpp:87-103 | entry i of table j is i divided by 8 (j + 1) bits |
| Crc64.SlicingStep | api/util/crc64.hpp:60-67 | looking up the eight bytes of a word in the eight tables divides it by 64 bits |
| Crc64.WordFeed | api/util/crc64.hpp:55-67 | dividing up to eight bytes at once is feeding them one by one |
| Crc64.BlockExact | api/util/crc64.hpp:55-67 | a block step is eight byte steps if and only if every byte after one of at least 0x80 is 0xFF |
| Crc64.SignSpoilsBlock | api/util/crc64.hpp:55-67 | one byte 0x80 before zeros makes a block step wrong |
| Crc64.BlockIs | api/util/crc64.hpp:55-67 | a block step is eight byte steps over its bytes with every one after the first of at least 0x80 taken for 0xFF, whatever the polynomial |
| Crc64.PlainBlock | api/util/crc64.hpp:55-67 | for bytes below 0x80 it is, whatever the polynomial |
| Crc64.Block | api/util/crc64.hpp:55-67 | computes the division by 64 bits of the word as the source gathers it |
| Crc64.ByteStep | api/util/crc64.hpp:73 | computes the division by eight bits |
| Crc64.Checksum | api/util/crc64.hpp:49-77 | computes the remainder of what its loops actually read |
| Crc64.ChecksumExact | api/util/crc64.hpp:49-77 | it is the CRC of all messages of a length if and only if the length is at most eight |
| Crc64.ChecksumIsOf | api/util/crc64.hpp:49-77 | of every message of more than eight bytes it is the CRC of the first eight, taken that way, repeated, and then the first few once more |
| VfsSpec.MountExtends | api/fs/vfs.hpp:251-279 | earlier lookups never change, a refused mount changes nothing, and when a mount is refused |
| VfsSpec.MountRefines | api/fs/vfs.hpp:251-279 | a mount keeps the tree the map its accepted requests make |
| VfsSpec.RunResolves | api/fs/vfs.hpp:196-279 | after every run a path resolves if and only if it leads to something mounted, holds an object if and only if one was mounted there, and then that one |
| Vfs.Entry.GetChild | api/fs/vfs.hpp:281-285 | finds a child of the name, or there is none |
| Vfs.Insert | api/fs/vfs.hpp:287-296 | siblings keep distinct names and the map gains one path |
| Vfs.Walk | api/fs/vfs.hpp:196-231 | without creation finds the node at the path if there is one |
| Vfs.WalkCreate | api/fs/vfs.hpp:196-231 | with creation makes the missing directories and nothing else |
| Vfs.Mount | api/fs/vfs.hpp:251-279 | refines the map's mount, refusals included |
| Vfs.NewRoot | api/fs/vfs.hpp:458-461 | a root alone is a tree, and the map with nothing mounted |
| Vfs.MountAll | api/fs/vfs.hpp:251-279 | after mounting any requests from an empty tree a path leads to a node if and only if it leads to something mounted, which holds an object if and only if one was mounted there, and then that one |
| ElfPrune.KeptAt | vmbuild/elf_syms.cpp:87-102 | every symbol of type 0 or 2, untyped or a function, is kept, in its old order |
| ElfPrune.KeptFrom | vmbuild/elf_syms.cpp:87-102 | every symbol kept is one of them |
| ElfPrune.PruneSyms | vmbuild/elf_syms.cpp:84-104 | the loop copies the kept symbols |
| ElfPrune.MoveNames | vmbuild/elf_syms.cpp:106-122 | the loop joins the names and points each symbol at its own |
| ElfPrune.RelocatePruned | vmbuild/elf_syms.cpp:80-142 | the pruned table and its strings |
| ElfPrune.NamesReadBack | vmbuild/elf_syms.cpp:106-122 | every new offset reads back the symbol's old name |
| ElfPrune.OutputFits | vmbuild/elf_syms.cpp:176-178 | the output fits its buffer if and only if the table bytes that kept names share are no more than those in no kept name and the dropped symbols together |
| ElfPrune.ApartNamesFit | vmbuild/elf_syms.cpp:176-178 | it does if no byte of the table is in two kept names |
| ElfPrune.SharedNameOverflows | vmbuild/elf_syms.cpp:176-178 | two symbols that share a name need more than is allocated |
| Ports.FirstSet | api/util/membitmap.hpp:69-78 | finds the lowest set bit of a view, or there is none |
| Ports.PortUtil.constructor | api/net/port_util.hpp:43-54 | all ports are free and the count is right |
| Ports.PortUtil.Bind | api/net/port_util.hpp:77-82 | clears the port's bit; the count stays right if and only if the port was free or is not dynamic |
| Ports.PortUtil.Unbind | api/net/port_util.hpp:89-94 | sets the port's bit; the count stays right if and only if the port was bound or is not dynamic |
| Ports.PortUtil.GetNextEphemeral | api/net/port_util.hpp:124-145 | gives the next port if free, else the lowest free dynamic one, else port 0, or ends the program if that is bound; none if and only if the count says so; right if and only if the count tells whether all are bound, which it does as long as it is right |
| Ports.BindTwice | api/net/port_util.hpp:77-82 | a port bound twice counts twice |
| Ports.UnbindFree | api/net/port_util.hpp:66-94 | after a free port is released none is given though all are free |
| Ports.PortZeroGiven | api/net/port_util.hpp:124-145 | with all dynamic ports bound, one of them released twice before it was bound again, port 0 is given |
| Base64.EncodeAll | api/util/base64.hpp:102-136 | the loop computes the encoding |
| Base64.DecodeAll | api/util/base64.hpp:190-240 | the loop computes the decoding |
| Base64.EncodedLength | api/util/base64.hpp:112 | the encoding has four characters for every three bytes begun |
| Base64.AlphabetRuns | api/util/base64.hpp:68-90 | the order of the two alphabets, and the pad character |
| Base64.EncodedDigits | api/util/base64.hpp:102-136 | every four characters are the digits to the base 64 of the three bytes they stand for, with pads for missing ones |
| Base64.RoundTrip | api/util/base64.hpp:102-240 | decoding an encoding gives the data back, in both alphabets |
| Base64.DecodeBack | api/util/base64.hpp:102-240 | text in the alphabet whose length is a multiple of four is the encoding of what it decodes to |
| Base64.LastQuadBytes | api/util/base64.hpp:229-235 | what a padded last quad decodes to, foreign characters included |
| Base64.DecodeRejects | api/util/base64.hpp:194-225 | decoding fails if and only if the length is no multiple of four or a full quad holds a foreign character |

## Left out

- Buddy.Alloc.Allocate: does not model the allocation tracker, which only gathers statistics; requests of zero bytes are outside it, as the last set bit of zero is undefined.
- Buddy.Create: the allocator object is only known by its size; the pool's end must be a machine word, and node indexes are unbounded where the source keeps them in an `int`.
- RingBuffer.Ring.Write: does not model `int` overflow of positions for capacities above 2^30, nor negative lengths, which the source passes on to `memcpy`.
- FatWriter.CreateLongname: does not state the checksum byte of a long entry, which the reader never looks at.
- FatWriter.WriteDir: does not model directory names of more than 16 long entries, where the source goes on with an index it never set, nor files whose rounded size does not fit an `int`.
- FatReader.Read: does not model positions whose sum with the length wraps at 2^64, nor a disk of 2^41 bytes and more.
- FatReader.IntDirent: does not model the parent sector recorded with an entry.
- FatImage.WriteImage: does not model the sector count in the boot sector, which is computed from a field never set on the root.
- FatPath.Stat: does not model lookups that start at an entry other than the root, nor how path strings are split into names.
- The asynchronous variants of the file system reader.
- Scanning directories, file access and command lines of the image builder and the symbol pruner: input and output.
- Lstack.Lstack.Allocate: does not model overflow of the counters; the alignment is any positive number instead of a power of two.
- Crc64.Checksum: does not model an index below zero, so the bytes its last loop reads must be below 0x80.
- Vfs.Mount: does not model types and constness of mounted objects, descriptions, partial walks or disks; an object is known only by its number.
- ElfPrune.RelocatePruned: does not model the checksums of the header, nor which of several string tables is chosen.
- Ports.PortUtil.constructor: does not model where the first random port comes from; it is a parameter.
- Base64.DecodeAll: does not model empty input, for which the source reads before its first character.
- Buddy allocator wrappers for polymorphic memory resources, printing and the tree drawing: they add no property.
- Drivers, networking, OpenCL hosts, live update and evaluation scripts are not part of this model.
