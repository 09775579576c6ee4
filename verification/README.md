# A verified model of the kernel's hard parts

A Dafny model of four parts of a small x86-64 kernel, with machine-checked proofs about them:

- **The FAT32 driver** (`Kernel/fs/fat32.c`), following the Microsoft FAT32 File System Specification 1.03:
  the cluster graph, the circular search for a free cluster, extending, cutting and releasing chains,
  reading, overwriting and appending, long file names, searching a directory, creating and renaming.
- **The scheduler and the blocking primitives** (`Kernel/kernel/Thread.c`): the ready, sleep and wait queues
  that share one `next` field, `schedule()`, timed wake-up, mutexes and semaphores with retry loops.
- **Paging and page allocation** (`Kernel/mm`): frame bitmaps, four-level page tables with large pages
  (section 4.5 of volume 3A of the Intel SDM), the bump allocator for virtual ranges.
- **The line rasteriser** (`bochs_line` in `Kernel/drives/display.c`).

Code that changes state is a class or a method with loops, proved against a function on values; what the
kernel promises is proved about those functions, mostly for whole runs.  `dafny verify dfyconfig.toml` checks
everything.

## How the parts fit together

| files | layer |
|---|---|
| `Bytes`, `BlockDevice`, `FatLayout`, `FatVolume` | bytes and sectors, and the class `Volume` whose sectors refine a table of links and an array of clusters |
| `FatTable`, `FatRuns` | the cluster graph: search, chains, release, and every run of table operations |
| `FileData`, `FileWrite`, `FileAppend`, `DirEntry`, `FileOps`, `FileSession` | file contents along chains: the operations as functions with their theorems, then as methods on a `Volume`, then write-and-read-back sessions |
| `FileRuns`, `OpenFiles` | every run of overwrites and appends on the files of a volume, how it refines editing a list of byte strings, and the class `OpenFiles` whose methods make the steps through the driver |
| `LongNames`, `ShortNames`, `Directory`, `DirectorySearch`, `DirectoryOps` | names and directory slots, what a search, a rename and a create come to in terms of what the directory holds, and the operations as methods on a `Volume` |
| `ThreadQueue`, `Scheduling`, `Kernel` | linked queues, the scheduler on queue contents, and the class `Scheduler` that refines it |
| `Locks`, `Interleavings` | the step system of all threads and the timer, and the theorems about its runs |
| `Machine` | the class that joins a `Scheduler` with its locks: each method is one step of the step system and keeps every linked list well formed |
| `Bitmap`, `Frames`, `FrameAllocator` | frame bitmaps and the physical memory manager |
| `PageTables`, `Mapping`, `MissingTables`, `Remapping`, `AccessRights`, `Paging` | page tables as a tree, what each routine does to every address, which tables a range is missing, which accesses a mapping allows, and the class `PhysicalMemory` |
| `VirtualMemory`, `Allocations`, `AddressSpaces` | the virtual memory manager, its runs, and the class `AddressSpace` |
| `Line` | the rasteriser |
| `Basics`, `Arith` | options, minima and distinct sequences; facts about products |

## Where the code does not do what it is meant to

Each of these is stated as an exact condition that can be checked before the call, with a concrete failing
input where the condition does not already name the inputs that fail.

- A search for a free cluster from the hint that the last cluster leaves behind may never end, or hand out a
  padding entry: `FatTable.SearchCorrectIff`, `FatTable.HintPastTheEnd`, `FileData.RoomIff`.  Filling a volume in
  order leads there: `FileRuns.HintLeavesVolume`.
- An empty file that gets only a part of its data keeps no cluster in the directory, and its chain is lost:
  `FileRuns.LostChainIff`, `FileRuns.ChainLost`.
- The free count goes wrong when a cyclic chain is released: `FatTable.ReleaseCountExactIff`,
  `FatTable.CycleCountedTwice`.
- A write that needs fewer clusters cuts the chain but does not lower the recorded size:
  `FileWrite.ReadAfterWrite`, `FileWrite.ReadAfterMatchingWrite`, `FileWrite.ShrinkLosesBytes`.  Writing the old
  bytes back afterwards restores the file exactly when `FileSession.OverwriteAndRestore` says.
- Appending to a file that such a write has cut writes at a position computed from the recorded size, inside
  the content: `FileAppend.AppendsIff`, `FileAppend.AppendAfterShrink`.
- The search by name rebuilds long names last piece first, which works for one piece only:
  `LongNames.SearchOrderRoundTripIff`.
- Some names cannot be found once created: `Directory.CreatedIsFoundIff`, `Directory.HiddenName`.  A name that
  looks like a dot entry can be created twice: `Directory.CreateDistinctIff`, `Directory.RenameDistinctIff`,
  `Directory.DotNameTwice`.
- Allocating several bits looks at one bit too few: `Bitmap.AllocExactIff`, `Bitmap.AllocTwoFails`.
- Page addresses more than 2 GiB into a memory region are computed wrongly: `Frames.ShiftPageExactIff`.
- Mapping a page inside a large page unmaps the rest of the large page: `Mapping.MapKeepsOthersIff`,
  `Mapping.LargePageLost`.
- Mapping a range reports success even when a walk ran out of frames; then some pages are not mapped:
  `VirtualMemory.MallocSpec`, `MissingTables.RangeExact`, `VirtualMemory.SilentFailure`.
- Rounding a huge size up, and the check against the end of the address range, wrap around:
  `VirtualMemory.PagesForExactIff`, `VirtualMemory.FitsExactIff`, `VirtualMemory.WrapAccepted`.

## Model

| member | source | states |
|---|---|---|
| Line.Display.DrawLine | Kernel/drives/display.c:80-93 | the points plotted are, in order, the points of the rounded ideal line, max(dx, dy) + 1 of them; exactly their visible pixels change; the loop ends and no `int32_t` overflows while three times the longer side fits |
| Line.Display.PutPixel | Kernel/drives/display.c:34-37 | sets one visible pixel and no other; off-screen points are ignored |
| Line.LineEnds | Kernel/drives/display.c:86-92 | the line starts at the first point, and reaches the second at its last point and no earlier |
| Line.NoOvershoot | Kernel/drives/display.c:86-92 | every point lies in the rectangle of the two ends |
| Line.RoundedIsWithinHalf | Kernel/drives/display.c:86-92 | the rounded point is within half a pixel of the ideal line along the minor axis |
| Line.WithinHalfIsUnique | Kernel/drives/display.c:86-92 | only one pixel per column (row) is that close |
| Line.BandIsRounded | Kernel/drives/display.c:85-92 | the deviation kept in the error term is in its band if and only if the pixel is the rounded point |
| Line.ErrorTermStaysInBand | Kernel/drives/display.c:89-91 | the two comparisons keep the deviation in the band, always step along the longer side and stay within three times it |
| Line.OnLineStep | Kernel/drives/display.c:89-91 | one iteration leads from one point of the line to the next |
| Line.OnLineIsLinePoint | Kernel/drives/display.c:85-92 | the loop's state is the point of the closed form, and the loop's test holds at the last point only |
| FatTable.SearchTerminatesIff | Kernel/fs/fat32.c:428-451 | the circular search ends iff it starts in the volume, or at a free padding entry, or some cluster is free |
| FatTable.SearchCorrectIff | Kernel/fs/fat32.c:428-451 | it ends at a cluster of the volume iff the hint is safe |
| FatTable.HintPastTheEnd | Kernel/fs/fat32.c:444-449 | tables of one sector on which the hint left by the last cluster makes the search loop or return a padding entry |
| FatTable.ProbesAreDistinct | Kernel/fs/fat32.c:433-449 | no cluster is visited twice |
| FatTable.ProbeReaches | Kernel/fs/fat32.c:433-449 | every cluster is reached |
| FatTable.AllocIsNearestFree | Kernel/fs/fat32.c:428-451 | the cluster that a search from a safe hint hands out is free and nearest in circular order; 0 iff none is free |
| FatTable.ReleaseFreesReached | Kernel/fs/fat32.c:454-465 | on every table with links in range, cyclic ones included, exactly the clusters reached are freed |
| FatTable.ReleaseCountExactIff | Kernel/fs/fat32.c:454-465 | the count grows by the number of entries freed, plus one iff the walk does not leave the table |
| FatTable.CycleCountedTwice | Kernel/fs/fat32.c:454-465 | a two-cluster cycle: two entries freed, three counted |
| FatTable.ReleaseOfChain | Kernel/fs/fat32.c:454-465 | releasing a chain frees its clusters and no others, one iteration each |
| FatTable.JoinChains | Kernel/fs/fat32.c:580-585 | linking a tail to the head of another chain joins two disjoint chains |
| FatTable.LinkToTail | Kernel/fs/fat32.c:603-608 | linking a fresh cluster extends a chain by it |
| FatTable.CutChain | Kernel/fs/fat32.c:540-546 | marking an end inside a chain cuts it in two chains |
| FatTable.ChainUnique | Kernel/fs/fat32.c:191-206 | the first cluster determines the chain |
| FatRuns.StepKeeps | Kernel/fs/fat32.c:428-465 | allocate, link, cut and free keep disjoint acyclic EOF-terminated chains that cover all clusters in use, and an exact count |
| FatRuns.RunKeeps | Kernel/fs/fat32.c:428-465 | so does every run of them with a safe hint at each allocation |
| FatRuns.RunFrame | Kernel/fs/fat32.c:428-465 | a chain that no step of a run names is unchanged |
| Bytes.Le32RoundTrip | Kernel/fs/fat32.c:6-22 | reading back a little-endian 32-bit word gives the word written |
| Bytes.Le32Disjoint | Kernel/fs/fat32.c:6-22 | words elsewhere are unaffected |
| Bytes.Le32Digits | Kernel/fs/fat32.c:15-22 | the bytes written are the digits of the value to base 256, lowest first, and no other byte changes |
| BlockDevice.RunRoundTrip | Kernel/fs/fat32.c:135-148 | sectors written are the sectors read |
| FatLayout.ClustersAreDisjoint | Kernel/fs/fat32.c:118-120 | different clusters have different sectors |
| FatLayout.EntriesAreDisjoint | Kernel/fs/fat32.c:122-133 | different entries, or copies, have different words |
| FatLayout.EntryPlace | Kernel/fs/fat32.c:122-133 | copy i is the sectorsPerFat sectors from partition + reserved + i * sectorsPerFat on, and an entry is the word of its number in it |
| FatLayout.WriteEntryRefines | Kernel/fs/fat32.c:410-425 | writing an entry in every copy sets that entry, masked to 28 bits, of the abstract table; copies stay identical and no cluster changes |
| FatLayout.WriteClusterRefines | Kernel/fs/fat32.c:141-148 | writing a cluster replaces its bytes only, and no table entry |
| FatVolume.Volume.NextCluster | Kernel/fs/fat32.c:122-133 | returns the entry of the abstract table, which is the word of that number behind the reserved sectors |
| FatVolume.Volume.WriteFatEntry | Kernel/fs/fat32.c:410-425 | updates one entry of the abstract table, no cluster, and keeps the copies in step; it is there in every copy, and no sector outside the tables changes |
| FatVolume.Volume.ReadCluster | Kernel/fs/fat32.c:135-139 | returns the bytes of the cluster, which are those of its sectors behind the tables |
| FatVolume.Volume.WriteCluster | Kernel/fs/fat32.c:141-148 | replaces the bytes of one cluster, and no sector outside it |
| FatVolume.Volume.constructor | Kernel/fs/fat32.c:43-66 | a mounted volume; it stays valid only while no sector in front of its tables or behind its last cluster changes, which every operation keeps |
| FatVolume.Volume.AllocCluster | Kernel/fs/fat32.c:428-451 | takes the nearest free cluster, moves the hint behind it and lowers a known count; changes nothing when none is free |
| FatVolume.Volume.FreeClusterChain | Kernel/fs/fat32.c:454-465 | frees the clusters reached and adds the iterations to a known count |
| FileData.RoomIff | Kernel/fs/fat32.c:428-451 | a condition on the table that holds iff each of the next k allocations, up to one that finds the volume full, begins with a safe hint |
| FileWrite.WriteFileChain | Kernel/fs/fat32.c:496-551 | after a full write, for every chain and recorded size: one proper chain that extends or is cut from the old one, as long as the data or the old size asks for, holding the data; the size never goes down |
| FileWrite.ReadAfterWrite | Kernel/fs/fat32.c:496-551 | for every chain and size: the content begins with the data and goes on with the old bytes of the clusters kept; it is the data and then the old rest iff a condition on lengths holds |
| FileWrite.ReadAfterMatchingWrite | Kernel/fs/fat32.c:496-551 | when chain and size match: exactly the clusters the data needs; the old rest is kept iff the data needs at least as many clusters as before |
| FileWrite.ShrinkLosesBytes | Kernel/fs/fat32.c:540-550 | a file of more than one 512-byte cluster, up to two, overwritten by one byte reads as 512 bytes and keeps its recorded size |
| FileWrite.KeptMatching | Kernel/fs/fat32.c:540-546 | the comparison that guards the cut leaves a matching file with exactly the clusters its data needs |
| FileWrite.WriteFileSafe | Kernel/fs/fat32.c:496-551 | on every chain, while the hints are safe: a proper chain, short only on a full volume, an exact count |
| FileWrite.WriteFileFrame | Kernel/fs/fat32.c:496-551 | clusters used by others keep entry and bytes |
| FileWrite.WriteLeavesOthers | Kernel/fs/fat32.c:496-551 | other files keep chain and content |
| FileWrite.WriteLoopContent | Kernel/fs/fat32.c:514-538 | the clusters written hold the data, and behind it their old bytes |
| FileAppend.ReadAfterAppend | Kernel/fs/fat32.c:554-614 | when chain and size match: the content is the old content followed by the data, on ceil(size / cluster size) clusters |
| FileAppend.ReadAfterAnyAppend | Kernel/fs/fat32.c:554-614 | for every chain and size: the chain has the clusters the data needs at the append position and holds its old bytes with the data written over them from there; a reader gets them up to the new size |
| FileAppend.AppendsIff | Kernel/fs/fat32.c:554-614 | data of a length that fits is appended to the content, whatever its bytes, iff the append position is the end of the content and it is the recorded size or the data ends a cluster |
| FileAppend.AppendAfterShrink | Kernel/fs/fat32.c:554-614 | a 1000-byte file on two 512-byte clusters, overwritten by one byte: a byte appended then lands at 488 and the content stays at 512 bytes |
| FileAppend.AppendFileSafe | Kernel/fs/fat32.c:554-614 | while the hints are safe: a proper chain, short only on a full volume, an exact count |
| FileAppend.AppendFileFrame | Kernel/fs/fat32.c:554-614 | clusters used by others keep entry and bytes |
| FileAppend.AppendLeavesOthers | Kernel/fs/fat32.c:554-614 | other files keep chain and content |
| FileOps.ReadFile | Kernel/fs/fat32.c:191-208 | the first bytes delivered are the content along the chain; a directory delivers nothing |
| FileOps.WriteFile | Kernel/fs/fat32.c:496-551 | volume and entry end up as the overwrite function says, the new entry stored in the directory, for every chain, while the hints are safe; the entry keeps every byte but those of first cluster and size |
| FileOps.AppendFile | Kernel/fs/fat32.c:554-614 | the same for the append function |
| FileOps.FindEntry | Kernel/fs/fat32.c:159-188 | finds the first valid entry with the 11-byte name along the directory's chain |
| FileOps.WriteDirEntry | Kernel/fs/fat32.c:468-492 | overwrites that entry and nothing else |
| DirEntry.PutThenLookup | Kernel/fs/fat32.c:468-492 | looking the name up afterwards gives the entry written, in the same place |
| DirEntry.EntryFields | Kernel/fs/fat32.c:548-549 | setting first cluster or size changes what it names and no byte but 20, 21 and 26 to 31 |
| DirEntry.EntryPlaces | Kernel/include/fs/fat32.h:33-46 | where the bytes of first cluster and size are |
| DirEntry.EntryDetermined | Kernel/include/fs/fat32.h:33-46 | first cluster, size and the other bytes make up the whole entry |
| FileSession.ChangeIsVisible | Kernel/fs/fat32.c:468-492 | after a complete operation the directory leads to the new content |
| FileSession.AppendThenRead | Kernel/kernel/kernel.c:338-352 | append, look up, read: exactly the old bytes of the file's clusters with the data written over them from the append position; old content and data when that position is the end of the file |
| FileSession.WriteThenRead | Kernel/kernel/kernel.c:318-332 | overwrite, look up, read, for every chain: the data first, the old rest behind it iff the lengths say so; the file can be overwritten again |
| FileSession.OverwriteAndRestore | Kernel/kernel/kernel.c:318-336 | the whole session on every chain: read, overwrite, write the old content back, read: the old content comes first, and nothing else iff a condition on lengths holds |
| FileSession.RestoresMatchingIff | Kernel/kernel/kernel.c:318-336 | when chain and size match: iff the overwrite was no longer than the file or the file fills its clusters |
| FileRuns.WriteUsed | Kernel/fs/fat32.c:496-551 | after an overwrite, complete or not, the clusters in use are the file's and those others used |
| FileRuns.AppendUsed | Kernel/fs/fat32.c:554-614 | the same for an append |
| FileRuns.StepKeeps | Kernel/fs/fat32.c:496-614 | an overwrite or append of a file whose allocations begin with safe hints keeps every directory and every file on a chain of its own, every cluster in use on one of them, and a known free count exact, also when the volume fills up |
| FileRuns.EnabledIff | Kernel/fs/fat32.c:428-451 | in a state of a run an operation is possible iff it names a file and each of its allocations begins with a safe hint |
| FileRuns.RunKeeps | Kernel/fs/fat32.c:496-614 | every state of every run of possible operations satisfies the invariant |
| FileRuns.OneOwner | Kernel/fs/fat32.c:496-614 | in every state of every such run each cluster in use is on exactly one chain |
| FileRuns.RunFrame | Kernel/fs/fat32.c:496-614 | in every such run a file that no operation names keeps chain, size and content |
| FileRuns.StepEditsIff | Kernel/fs/fat32.c:496-614 | a complete operation does to the contents of all files what it does to byte strings iff it does not need fewer clusters than the file has |
| FileRuns.RunEdits | Kernel/fs/fat32.c:496-614 | so a run of such operations, interleaved over the files in any way, leaves each file with the bytes its own operations make |
| FileRuns.HintLeavesVolume | Kernel/fs/fat32.c:444-449 | one byte appended on a volume whose last cluster is the only free one: the hint leaves the volume, and the next append that needs a cluster is not possible, since the search would hand out a padding entry |
| FileRuns.LostChainIff | Kernel/fs/fat32.c:534-549 | the directory entry does not name the file's chain afterwards iff the file had none and some but not all of the data was written; the recorded size is the same in memory and in the directory |
| FileRuns.ChainLost | Kernel/fs/fat32.c:534-549 | 513 bytes for an empty file on a volume with one free cluster: 512 are written, and the directory names no cluster |
| OpenFiles.OpenFiles.WriteTo | Kernel/fs/fs.c:102-105 | an overwrite through the driver is the step of the run, and the entries in memory go on naming the chains; no other entry changes, nor this one if it had a chain and its size is not raised |
| OpenFiles.OpenFiles.AppendTo | Kernel/fs/fs.c:107-110 | the same for an append |
| LongNames.PieceFields | Kernel/fs/fat32.c:617-652 | a stored piece is recognised as one, carries the checksum, its number from the end and its stretch of the name |
| LongNames.CharPlaces | Kernel/fs/fat32.c:617-652 | where the thirteen characters of a piece are |
| LongNames.MakePieces | Kernel/fs/fat32.c:617-652 | builds the pieces in the order in which they are stored |
| LongNames.RebuildName | Kernel/fs/fat32.c:236-246 | joins the characters of the pieces from last to first |
| LongNames.CopyChars | Kernel/fs/fat32.c:220-231 | copies up to the terminator, skipping padding, within the room given |
| LongNames.ListOrderRoundTrip | Kernel/fs/fat32.c:381-386 | every name of at most 255 characters comes back in the order used by list, rename and delete |
| LongNames.SearchOrderRebuild | Kernel/fs/fat32.c:299-306 | the search order gives the name's 13-character stretches last one first |
| LongNames.SearchOrderRoundTripIff | Kernel/fs/fat32.c:299-306 | it gives every name of a length back iff the length is at most 13 |
| ShortNames.ShortNameStart | Kernel/fs/fat32.c:90-115 | exactly which names get a short name that looks deleted or like a dot entry |
| ShortNames.ShortNameParts | Kernel/fs/fat32.c:90-115 | the beginning of the part in front of the last dot goes to bytes 0 to 7, that of the part behind it to bytes 8 to 10, in upper case, with blanks behind |
| ShortNames.ShortNamesFoldCase | Kernel/fs/fat32.c:90-115 | short names have no lower-case letters, and names that differ in case only share one |
| ShortNames.ChecksumDetects | Kernel/fs/fat32.c:211-217 | short names that differ in exactly one byte have different checksums |
| ShortNames.ChecksumUndo | Kernel/fs/fat32.c:211-217 | taking away the last byte and turning the sum to the left gives the checksum without it |
| Directory.SlotSearchSafe | Kernel/fs/fat32.c:742-785 | the slots found fit, none is live, and no free slot lies in front of them |
| DirectorySearch.SlotSearchIff | Kernel/fs/fat32.c:767-785 | the search for slots finds none iff there are neither enough deleted slots in a row nor enough slots from the first free one on; else the first such row, or the free slots with the deleted ones directly in front of them |
| DirectorySearch.CreateEndsIff | Kernel/fs/fat32.c:742-829 | `Exists` iff something is named like the new file, else a full directory iff no cluster has a place; then nothing changes |
| DirectorySearch.CreatesFirst | Kernel/fs/fat32.c:742-829 | otherwise the entries are written at the place in the first cluster that has one |
| Directory.CreateOverwritesNothing | Kernel/fs/fat32.c:742-829 | creating a file leaves every live entry alone |
| Directory.NewEntryFields | Kernel/fs/fat32.c:813-825 | the entry of a new file: name, attribute, the five time and date fields, and zero everywhere else |
| Directory.CreateKeeps | Kernel/fs/fat32.c:742-829 | it keeps "nothing live behind the first 0x00" and the short names of files distinct |
| Directory.CreatedIsFoundIff | Kernel/fs/fat32.c:249-327 | after a successful create, the search by name returns the very slot created iff the name is not one of those that hide it |
| Directory.HiddenName | Kernel/fs/fat32.c:249-327 | creating `..A` in an empty directory succeeds, and the search does not find it |
| Directory.FindMisses | Kernel/fs/fat32.c:249-327 | when the search finds nothing, no file has the short name |
| DirectorySearch.RebuildIsText | Kernel/fs/fat32.c:220-246 | rebuilding a name joins the texts of the pieces, as far as there is room |
| DirectorySearch.FindNoneIff | Kernel/fs/fat32.c:249-327 | the search by name finds nothing iff no entry has the short form of the name, nor pieces in front of it, up to the last other entry and across clusters, with its checksum that spell the name last piece first |
| DirectorySearch.FindFirstIff | Kernel/fs/fat32.c:249-327 | and otherwise the first such entry |
| Directory.RenameKeeps | Kernel/fs/fat32.c:655-731 | renaming keeps the same two properties |
| DirectorySearch.RenameEndsIff | Kernel/fs/fat32.c:655-731 | `Exists` iff something is named like the new name, else `NotFound` iff no file is called like the old one (by short name, or by the pieces in front of it in their order); then nothing changes |
| DirectorySearch.RenamesFirst | Kernel/fs/fat32.c:674-717 | otherwise the first file called so is renamed and no other cluster changes: its entry keeps all bytes but the name, its pieces become those of the new name if there are as many and else are marked deleted, no other slot changes |
| DirectorySearch.RenamedReads | Kernel/fs/fat32.c:704-717 | after a rename the pieces in front of the file spell the new name if the old one had as many; otherwise none are left |
| Directory.RunKeepsNames | Kernel/fs/fat32.c:655-829 | after every run of creates and renames the short names of files differ, and looking one up along the whole directory gives its own slot |
| Directory.CreateDistinctIff | Kernel/fs/fat32.c:742-829 | creating keeps the short names of all entries distinct, those that look like a dot entry included, iff no entry has the new one; if one has, the name looks like a dot entry |
| Directory.RenameDistinctIff | Kernel/fs/fat32.c:655-731 | the same for renaming |
| Directory.RunKeepsEntries | Kernel/fs/fat32.c:655-829 | every run that gives no file a name looking like a dot entry keeps the short names of all entries distinct |
| Directory.SameNamesAreDotted | Kernel/fs/fat32.c:287-291 | in every directory with distinct files, two entries with the same short name look like dot entries |
| Directory.DotNameTwice | Kernel/fs/fat32.c:742-829 | `..A` is created twice in an empty directory, and leaves two entries with the same short name |
| DirectoryOps.FindEntryAny | Kernel/fs/fat32.c:249-327 | the search along the directory's chain on the volume, pieces carried over from cluster to cluster |
| DirectoryOps.CreateFile | Kernel/fs/fat32.c:742-829 | creates the entry and its pieces on the volume as the create function says, or reports why not; no table entry and no other cluster changes |
| DirectoryOps.RenameFile | Kernel/fs/fat32.c:655-731 | renames on the volume as the rename function says; no table entry and no other cluster changes |
| DirectoryOps.FreeSlots | Kernel/fs/fat32.c:767-785 | the loop that looks for consecutive slots |
| DirectoryOps.ScanSlots | Kernel/fs/fat32.c:262-320 | the loop over one cluster in the search by name |
| DirectoryOps.RenameSlots | Kernel/fs/fat32.c:674-705 | the loop over one cluster in a rename: the file's slot and the slots of its pieces |
| ThreadQueue.Queue.Enqueue | Kernel/kernel/Thread.c:47-56 | appends a thread; the list stays acyclic with a correct tail |
| ThreadQueue.Queue.Dequeue | Kernel/kernel/Thread.c:58-65 | takes the first thread; null iff empty |
| ThreadQueue.Queue.Unlink | Kernel/kernel/Thread.c:626-640 | takes out one element given its predecessor, with head and tail kept right |
| ThreadQueue.Queue.Remove | Kernel/kernel/Thread.c:89-110 | removes a thread wherever it is; a queue without it is left alone |
| Scheduling.WakePartition | Kernel/kernel/Thread.c:618-653 | exactly the sleepers that are due are woken |
| Scheduling.WakeConserves | Kernel/kernel/Thread.c:618-653 | no sleeper is lost or duplicated |
| Scheduling.WakeKeepsOrder | Kernel/kernel/Thread.c:618-653 | those woken, and those left, keep their order |
| Scheduling.ScheduleKeeps | Kernel/kernel/Thread.c:363-383 | `schedule()` leaves each thread in one place with the tag of that place, and nobody overslept |
| Scheduling.ScheduleEffect | Kernel/kernel/Thread.c:363-383 | it leaves threads on wait queues blocked, blocks nobody, and wakes a sleeper iff it is due |
| Kernel.Scheduler.constructor | Kernel/kernel/Thread.c:26-45 | start-up: the kernel thread runs, the idle thread is ready |
| Kernel.Scheduler.WakeSleepingThreads | Kernel/kernel/Thread.c:618-653 | the pass over the linked sleep queue is the stable partition, and relinks no other thread |
| Kernel.Scheduler.Schedule | Kernel/kernel/Thread.c:363-383 | the linked code does what the scheduler function says, and relinks no other thread |
| Kernel.Scheduler.MutexTry | Kernel/kernel/Thread.c:485-494 | one round of the lock loop: take the mutex, or join its queue and give up the processor; relinks no other thread |
| Kernel.Scheduler.MutexEnter | Kernel/kernel/Thread.c:475-495 | the owner goes straight through, any other thread makes one round; relinks no other thread |
| Kernel.Scheduler.MutexUnlock | Kernel/kernel/Thread.c:498-517 | only the owner releases; the first waiter becomes ready |
| Kernel.Scheduler.SemTry | Kernel/kernel/Thread.c:681-691 | one round of the wait loop; relinks no other thread |
| Kernel.Scheduler.SemPost | Kernel/kernel/Thread.c:694-704 | adds a unit and makes the first waiter ready |
| Kernel.Scheduler.OnTimer | Kernel/kernel/pic.c:123-132 | the tick counter moves on, starting over at 2^64 - 1, and the scheduler runs; threads on wait queues keep their links |
| Kernel.Scheduler.ThreadSleepMS | Kernel/kernel/Thread.c:592-602 | the current thread sleeps with its 64-bit deadline; threads on wait queues keep their links |
| Kernel.Scheduler.Spawn | Kernel/kernel/Thread.c:128-180 | a new thread becomes live and ready, at the back of the ready queue |
| Kernel.Scheduler.RemoveFromSleepQueue | Kernel/kernel/Thread.c:89-110 | the sleep queue without the thread, the ready queue untouched |
| Kernel.Scheduler.KillThread | Kernel/kernel/Thread.c:524-589 | a ready or sleeping thread leaves its queue and the live threads, and nothing else changes; threads on wait queues keep their links |
| Locks.StepKeeps | Kernel/kernel/Thread.c:363-704 | every step of any thread or the timer keeps the invariant of places, queues, mutexes and semaphores |
| Locks.RunKeeps | Kernel/kernel/Thread.c:363-704 | so does every interleaving |
| Locks.EveryRunIsSafe | Kernel/kernel/Thread.c:26-45 | in particular every one that begins at start-up |
| Locks.AlwaysDispatchable | Kernel/kernel/Thread.c:370-380 | while the idle thread lives there is a thread to dispatch |
| Interleavings.OnePlace | Kernel/kernel/Thread.c:47-110 | in every reachable state each live thread is in exactly one of processor, ready, sleep or one wait queue, once, and its tag agrees |
| Interleavings.MutualExclusion | Kernel/kernel/Thread.c:475-517 | in every reachable state a mutex is locked iff it has an owner, and the owner is the only thread inside |
| Interleavings.OwnerStep | Kernel/kernel/Thread.c:475-517 | ownership ends only by the owner's release and begins only by the running thread taking an open mutex |
| Interleavings.NoLostWakeup | Kernel/kernel/Thread.c:475-517 | if threads wait for an open mutex, a woken one is ready or running and about to retry |
| Interleavings.UnitsAreConserved | Kernel/kernel/Thread.c:656-704 | initial value plus posts is count plus completed waits; the count is never negative, and at most the number of woken threads while any wait |
| Interleavings.NeverFallsBack | Kernel/kernel/Thread.c:370-380 | the ready queue is not empty when `schedule()` dispatches |
| Interleavings.FallbackUnreachable | Kernel/kernel/Thread.c:370-380 | over every run from start-up the kernel-thread fallback is never taken |
| Interleavings.WaitsInTurn | Kernel/kernel/Thread.c:47-65 | a thread at place k of the ready queue is still queued after up to k calls of `schedule()` |
| Interleavings.DispatchedInTurn | Kernel/kernel/Thread.c:363-383 | and is dispatched by exactly the (k+1)-st, whatever the others do |
| Interleavings.WokenInTurn | Kernel/kernel/Thread.c:498-517 | a waiter woken by an unlock retries on the call its place gives it |
| Interleavings.ClockStep | Kernel/kernel/pic.c:123-132 | only the timer moves the clock, by one tick modulo 2^64 |
| Interleavings.SleeperStep | Kernel/kernel/Thread.c:618-653 | a sleeper stays asleep after a step iff the clock is still before its deadline |
| Interleavings.NotBeforeDeadline | Kernel/kernel/Thread.c:592-653 | over every run, no sleeper is dispatched before its deadline |
| Interleavings.AwakeAtDeadline | Kernel/kernel/Thread.c:592-653 | the first step at or after the deadline makes it ready or running |
| Interleavings.FallsAsleep | Kernel/kernel/Thread.c:592-602 | the deadline is `ms` ticks ahead unless the arithmetic wraps; asleep iff it is in the future |
| Machine.Machine.constructor | Kernel/kernel/Thread.c:26-45 | start-up with unused locks is the start of the step system, with every list well formed |
| Machine.Machine.Tick | Kernel/kernel/pic.c:123-132 | the timer interrupt on the linked queues is the step `Tick`, and every list stays well formed |
| Machine.Machine.YieldNow | Kernel/kernel/Thread.c:363-383 | the same for `schedule()` |
| Machine.Machine.SleepMS | Kernel/kernel/Thread.c:592-602 | the same for sleeping |
| Machine.Machine.Lock | Kernel/kernel/Thread.c:475-495 | the same for `mutex_lock` up to where it returns or gives up the processor |
| Machine.Machine.Relock | Kernel/kernel/Thread.c:485-494 | the same for another round of its loop |
| Machine.Machine.Unlock | Kernel/kernel/Thread.c:498-517 | the same for `mutex_unlock` |
| Machine.Machine.Wait | Kernel/kernel/Thread.c:681-691 | the same for one round of `sem_wait` |
| Machine.Machine.Post | Kernel/kernel/Thread.c:694-704 | the same for `sem_post` |
| Machine.Machine.Create | Kernel/kernel/Thread.c:128-180 | the same for creating a thread |
| Machine.Machine.KillThread | Kernel/kernel/Thread.c:524-589 | the same for killing a ready or sleeping thread |
| Machine.Machine.OnOneList | Kernel/kernel/Thread.c:47-110 | every live thread object is on the processor or linked into exactly one list, and its state field says which |
| Bitmap.Bitmap.constructor | Kernel/mm/bitmap.c:15-24 | all bits have the value given |
| Bitmap.Bitmap.GetBit | Kernel/mm/bitmap.c:9-12 | returns the bit |
| Bitmap.Bitmap.SetBits | Kernel/mm/bitmap.c:52-61 | sets a range, clipped to the map, and no other bit |
| Bitmap.Bitmap.AllocBits | Kernel/mm/bitmap.c:27-49 | returns the first place where the loop's examination succeeds, -1 iff there is none, and sets the bits it takes, clipped to the map |
| Bitmap.AllocExactIff | Kernel/mm/bitmap.c:27-49 | the call is correct (n bits in the map that had the value, all now set, or nothing) iff there is no such place or all n bits at the first one are in the map and have the value |
| Bitmap.AllocTwoFails | Kernel/mm/bitmap.c:36-46 | maps on which a request for two or three bits gets a bit that is in use, or bits outside the map |
| Bitmap.AllocOneExact | Kernel/mm/bitmap.c:27-49 | requests for one bit are always correct |
| Frames.ShiftPageExactIff | Kernel/mm/pmm.c:83 | the 32-bit shift is right iff the page number is below 2^19 |
| Frames.TakeFrameSpec | Kernel/mm/pmm.c:78-89 | one page: a frame that was free and no longer is, all others unchanged; 0 and no change iff none is free |
| Frames.GiveFrameSpec | Kernel/mm/pmm.c:91-104 | exactly the frame given becomes free |
| Frames.CollectSpec | Kernel/mm/vmm.c:151-163 | the frames collected are distinct and were free, and there are as many as asked for unless fewer were free |
| Frames.RollbackRestores | Kernel/mm/vmm.c:155-161 | giving them back restores every bitmap exactly |
| Frames.BitsDetermined | Kernel/mm/pmm.c:78-104 | the bitmaps are determined by which frames are free |
| FrameAllocator.FrameAllocator.Malloc | Kernel/mm/pmm.c:78-89 | the loop over descriptors takes the frame the function says |
| FrameAllocator.FrameAllocator.Free | Kernel/mm/pmm.c:91-104 | the loop over descriptors frees the frame the function says |
| PageTables.TranslateAt | Kernel/mm/paging.c:167-211 | a translation is what the entry at any level on the way makes of the address |
| PageTables.WriteEffect | Kernel/mm/paging.c:78-151 | in a tree of tables, writing one entry changes the addresses below it and no others |
| Mapping.WalkSpec | Kernel/mm/paging.c:78-116 | a creating walk succeeds iff there are enough free frames; the tables stay a tree, other pages keep their translation except those in a large page on the way |
| Mapping.MapPageSpec | Kernel/mm/paging.c:135-151 | the page translates to the frame given, every other page as before, except the rest of a large page on the way; on failure nothing is mapped |
| Mapping.MapKeepsOthersIff | Kernel/mm/paging.c:100-107 | all other pages keep their translation iff there is no large page on the way |
| Mapping.LargePageLost | Kernel/mm/paging.c:100-107 | a 2 MiB page, one of its pages remapped: the next page no longer translates |
| Mapping.UnmapPageSpec | Kernel/mm/paging.c:118-132 | clears exactly one page if it has a last-level entry, else changes nothing |
| MissingTables.NeedsMissing | Kernel/mm/paging.c:78-116 | a walk takes one frame for each level at which the way is missing |
| MissingTables.MapReaches | Kernel/mm/paging.c:78-151 | a successful mapping adds exactly the tables on the page's own way, for every address |
| MissingTables.MapFails | Kernel/mm/paging.c:135-151 | a failed one leaves its page without a last-level entry |
| MissingTables.MapStuck | Kernel/mm/paging.c:135-151 | once no frame is left, mapping another page does not give it one either |
| MissingTables.RangeExact | Kernel/mm/vmm.c:12-21 | there are frames for all the walks of a range iff there is one for each distinct table that its pages are missing before the call, level by level, and for each missing last-level entry |
| Remapping.SplitPreserves | Kernel/mm/paging.c:49-76 | splitting a 1 GiB or 2 MiB page preserves the translation of every address |
| Remapping.ReplaceIdentitySpec | Kernel/mm/paging.c:268-290 | addresses in large pages, holes and elsewhere translate as before; those under finer tables become identity mapped |
| Remapping.IdentityStays | Kernel/mm/paging.c:268-290 | identity-mapped low addresses stay so |
| AccessRights.MapAllowsIff | Kernel/mm/paging.c:78-151 | a mapped page may be written, or used by user code, iff its flags say so and so do the tables that were on its way already; new tables allow everything |
| AccessRights.SplitAllowsIff | Kernel/mm/paging.c:49-76 | an address in a large page that is split may be accessed as before |
| Paging.PhysicalMemory.MallocPage | Kernel/mm/paging.c:5-10 | takes a frame and zeroes it |
| Paging.PhysicalMemory.WalkCreate | Kernel/mm/paging.c:78-116 | the loop over levels does what the walk function says |
| Paging.PhysicalMemory.MapPage | Kernel/mm/paging.c:135-151 | maps a page as the function says |
| Paging.PhysicalMemory.UnmapPage | Kernel/mm/paging.c:118-132 | unmaps a page as the function says |
| Paging.PhysicalMemory.VirtToPhys | Kernel/mm/paging.c:167-211 | the unrolled look-up is the translation |
| Paging.PhysicalMemory.SplitHugePage | Kernel/mm/paging.c:49-76 | fills the sub-table entry by entry and hangs it in |
| Paging.PhysicalMemory.ReplaceIdentityPdpt | Kernel/mm/paging.c:268-290 | fills the new table entry by entry and hangs it in |
| VirtualMemory.PagesForExactIff | Kernel/mm/vmm.c:140 | rounding up covers the size iff it does not wrap; else no page is asked for |
| VirtualMemory.FitsExactIff | Kernel/mm/vmm.c:144-148 | the limit check is right iff the sum does not wrap |
| VirtualMemory.WrapAccepted | Kernel/mm/vmm.c:144-148 | a concrete request past the end that is let through |
| VirtualMemory.MapKeepsMapped | Kernel/mm/paging.c:135-151 | pages with a last-level entry stay mapped when another page is mapped |
| VirtualMemory.MapRangeSpec | Kernel/mm/vmm.c:12-21 | mapping a range keeps all pages in use; each new page is mapped to its frame or has no last-level entry; all are mapped iff there are frames for all the walks |
| VirtualMemory.MallocResult | Kernel/mm/vmm.c:132-180 | an allocation succeeds iff the size is not 0, the limit check passes and there are frames for its pages; a failed one changes nothing, bitmaps included |
| VirtualMemory.MallocSpec | Kernel/mm/vmm.c:132-180 | a successful one returns the page-aligned range above all earlier ones; each page is mapped to a frame of its own that was free or not mapped at all, and all are mapped iff the free frames cover the pages and the tables they were missing (five per page are enough); pages in use keep theirs |
| VirtualMemory.SilentFailure | Kernel/mm/vmm.c:132-180 | with one frame left an allocation of one byte returns an address that is not mapped |
| VirtualMemory.ReleaseSpec | Kernel/mm/vmm.c:183-211 | freeing pages that are in use or not mapped: none of them is mapped afterwards, exactly the frames behind those in use become free, all other pages keep theirs, the top stays; a call with a bad address or size changes nothing |
| VirtualMemory.ReleaseTwice | Kernel/mm/vmm.c:183-211 | a range may be freed again, which does nothing to tables and frames |
| Allocations.RunKeeps | Kernel/mm/vmm.c:132-211 | every run of allocations and frees, of unmapped ranges and of ranges already freed too, keeps ranges stacked and pages backed |
| Allocations.BooksBalance | Kernel/mm/vmm.c:172-174 | over every such run the descriptor's page and byte counts are those handed out less those of the frees not turned away, modulo 2^64 |
| Allocations.RangesAndFrames | Kernel/mm/vmm.c:132-211 | over every run ranges are page aligned and never overlap, even after frees; each page in use translates to a frame of its own that is not free |
| AddressSpaces.AddressSpace.CollectFrames | Kernel/mm/vmm.c:151-163 | the loop with its roll-back |
| AddressSpaces.AddressSpace.MapPages | Kernel/mm/vmm.c:12-21 | the loop that maps a range |
| AddressSpaces.AddressSpace.Malloc | Kernel/mm/vmm.c:132-180 | does what the allocation function says |
| AddressSpaces.AddressSpace.Free | Kernel/mm/vmm.c:183-211 | does what the release function says |

## Left out

- The disk is a sequence of sectors on a master drive and never fails; the driver's I/O error paths are not modelled.
- FatTable.SearchCorrectIff: asks that the hint lies in the table; on a volume without padding entries the hint behind the last cluster makes the driver read the sector after the table, which is not modelled.
- FatVolume.Volume.AllocCluster: asks for a hint from which the search ends in the volume, for the same reason.
- FatTable.AllocIsNearestFree: is about the function that the search computes from a safe hint; from any other the driver hands out a padding entry or does not return.
- FileWrite.WriteFileSafe: describes the driver while `FileData.RoomIff`'s condition holds, which it does not ask for.
- FileAppend.AppendFileSafe: the same.
- FatVolume.Volume.FreeClusterChain: asks that a known count plus the clusters freed stays below the "unknown" mark, and that links are in range.
- FileOps.ReadFile: asks that the recorded size is more than a cluster below 2^32, so that the driver's 32-bit sums do not wrap, and for a cluster when the size is not 0.
- FileOps.WriteFile: asks the same of the data and the recorded size, for safe hints at its allocations, and for a known free count below 0xF000_0000; writing no data to a file with a size and no cluster is left out, where the driver follows table entry 0.
- FileOps.AppendFile: asks the same of the new size, for safe hints and such a count; a file with a size and no cluster is left out, where the driver follows table entry 0.
- FileSession.OverwriteAndRestore: asks for a file with bytes and a cluster and for a safe hint after the first write; it writes the whole content back, where the shell writes the bytes in front of the first zero byte of its buffer.
- FileRuns.StepKeeps: asks for safe hints; the clusters of directories are chains that no step extends, and what the driver writes to them is left open; bytes that a short write leaves out of the directory are the subject of `FileRuns.LostChainIff`.
- OpenFiles.OpenFiles.WriteTo: asks for the 32-bit sums of `FileOps.WriteFile`; it holds an entry for every file of the volume, and the open mode is not modelled.
- OpenFiles.OpenFiles.AppendTo: asks for those of `FileOps.AppendFile`.
- DirectoryOps.CreateFile: a full directory is an error, where the driver goes on to grow it (and, at fat32.c:793, writes the link under the number of the end mark instead of that of the last cluster); so for `FAT32_CreateDir`.
- Deleting, listing and creating directories: their loops repeat those of search, create and rename.
- Long-name pieces collected across a cluster boundary are kept as values; the driver keeps pointers into a buffer that it reads again.
- `FSInfo` sector validation: the free count and the hint are taken as given.
- Thread exit, kills of blocked or running threads, reclaiming a killed thread's memory, the TCB free list and the thread table.
- Kernel.Scheduler.KillThread: asks that the thread is neither the current nor the kernel thread; it also clears `next` of a thread taken from the ready queue, which the kernel leaves dangling.
- Machine.Machine.KillThread: asks that the thread is at no lock and is not the current, the idle or the kernel thread.
- `switch_to` sets the current thread and nothing else; registers, CR3 and the TSS are not modelled, nor are spinlocks.
- `ThreadSleepSecond`, which differs from `ThreadSleepMS` in a factor, and overflow of a semaphore's `int` count.
- Interrupts may come between any two interrupts-off segments and also before a retry, which allows more interleavings than the kernel has.
- Frames.TakeFrameSpec: asks for regions of at most 2^19 pages, above which `Frames.ShiftPageExactIff` says that the address is wrong.
- Reading the firmware's memory map, and where the bitmaps are placed in memory.
- Paging.PhysicalMemory.MallocPage: when no frame is free the kernel still clears a page, at address 0, which is not modelled.
- Mapping.MapPageSpec: entries are numbers without a 64-bit limit, flags are below 4096 (so no NX bit), TLB flushes are not modelled, access rights are the subject of `AccessRights` only, tables are not shared between address spaces.
- Remapping.ReplaceIdentitySpec: asks for a free frame, since the kernel does not check for one, and for a PML4 entry that is not large.
- Remapping.IdentityStays: asks the same.
- Paging.PhysicalMemory.ReplaceIdentityPdpt: asks for a free frame.
- A page taken for a last-level entry that is about to be overwritten is never given back, by the kernel or by the model; frames are not conserved across mapping.
- VirtualMemory.ReleaseSpec: asks that none of the pages is mapped without being in use; the kernel also frees what an address inside a page, or a large page, leads to.
- Allocations.RunKeeps: asks the same of every free.
- Allocations.BooksBalance: asks the same.
- Allocations.RangesAndFrames: asks the same.
- AddressSpaces.AddressSpace.Free: asks the same.
- Allocation records of the virtual memory manager, and setting up an address space.
- The other drawing primitives, device drivers, the boot loader, the shell, ACPI and system calls.
