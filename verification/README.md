# A model of the FAT file system driver

These modules model the parts of the FASTFAT driver in which several views of the same
facts have to agree: the cluster allocator, directory files, run-based reads, the paging
file, directory enumeration and the deferred closes.  They follow the code branch by
branch, with its 32-bit arithmetic, and prove what the driver relies on.  Where the source
changes things step by step the model does too: volumes, the FAT, files, directories and
the close queues are classes, and scans, searches and writers are methods with loops; each
is proved against a specification on values, and the properties are lemmas about those.

The whole project is checked with `dafny verify dfyconfig.toml`.

## Modules

The cluster allocator, bottom up:

- `Bits`: bitmaps, and the Rtl bitmap searches.
- `FatEntries`: entries of a FAT as values: cluster types, chains, runs.
- `FatTable`: class `Fat`, the FAT in its pages and sectors; reading, writing and run writing.
- `Windows`, `Books`: the windows of a volume; bitmap, window counts, volume count and
  pre-charge as one value, the books, and what it means that they are in order.
- `Volume`: class `Vcb`, with the scan of the FAT, window switches, reserving and unreserving.
- `Sizes`: bytes and clusters.
- `OneWindow`, `Allocation`, `Deallocation`: taking and giving back disk space.
- `AllocThreads`, `AllocProgress`: the same steps as a state machine over any number of
  threads: what every interleaving keeps, and that none comes to a standstill.
- `Mcb`, `FileMap`: the run map of a file, and what a lookup in it answers.
- `FileAllocation`, `FileGrowth`, `FileRuns`: class `Fcb`; looking up, growing, cutting,
  splitting and merging allocations; any sequence of requests on any files.

Directory files follow the Microsoft FAT32 File System Specification, sections "FAT
Directory Structure" and "FAT Long Directory Entries":

- `Lfn`, `LfnFormat`, `LfnScan`: writing and reading long names; their entries and the
  checksum byte by byte; what a search finds in any directory.
- `Defrag`: moving the live entries to the front, with the open files.
- `DefragListing`: what the directory lists before and after.
- `DirentSlots`: class `Dcb`; creating, deleting and rescanning.
- `Buffers`, `QueryDirectory`, `DirectoryListing`: directory enumeration, and what it lists.

Requests:

- `PagingIo`: the completion protocol of the paging file, as a state machine over any
  number of requests that share the reserve MDL.
- `NonCachedIo`, `NonAlignedRead`: reads over runs, and reads that do not start or end at sectors.
- `CloseQueue`: class `FatData`; the queues of deferred closes.

## How to read the claims

`Vcb.Valid()` says that the bitmap, the window counts and the volume count agree with the
FAT.  `IsChain` says that clusters are linked, in order, up to the last mark.  `Taken`,
`FreedAs`, `Grew` and `CutAt` state the whole new FAT after an allocation, a deallocation,
a grown file and a cut file, the unchanged entries included.  `Fcb.Ok()` says that a
file's map is a part of its chain, cut where a longest run ends, and that its size is that
of the chain once it is known.  `SlotsOk()` says that a slot's bit is set exactly when its
entry is live, and that never-used slots are exactly those from the end marker on.

Several properties that the driver's comments suggest hold only under a condition.  The
model keeps the code as it is and proves the exact condition:

- On a FAT32 volume with a single window the fragmented search can stop the system while
  clusters are free.  `Allocation.AllocateFragmented` says exactly when, in terms of the
  bitmap and the hint before the call, and `FileGrowth.Granted` carries the condition up to
  the files that grow; `OneWindow.StopsWitness` and `Allocation.StopsVolume` give a case.
- A link to a cluster at or above the reserved values cannot be read back.  That concerns
  12-bit volumes with a cluster 0xff0 or above and 16-bit volumes with a cluster 0xfff0 or
  above (`FatEntries.LinkReadableIff`).  A volume without such clusters keeps all chains
  readable, and no other volume does (`FileGrowth.EveryGrowthReadable`); of a single growth,
  `FileGrowth.GrewIsChain` says whether it can be read.
- Defragmenting rewrites only the holes between sets, so orphaned entries of long names
  behind the last set stay where they are, with clear bits; creating an entry can then find
  the directory corrupt, and the bitmap is no longer exact.  `DirentSlots.Dcb.CreateNewDirent`
  says exactly when, `DirentSlots.Dcb.Serve` carries the condition through any run and
  restarts it at a rescan, and `DirentSlots.Dcb.GrowingIsClean` rules it out for
  directories that can grow.
- Defragmenting measures a set by the entries that the name found needs.  A last entry
  numbered above one that starts with the terminator comes in front of those, and is
  dropped; the file then loses its long name.  `DefragListing.ListingKept` proves that a
  directory lists what it listed before if and only if there is no such name, and
  `DefragListing.ExtraEntryLosesName` gives a case; the driver writes no such name itself
  (`DefragListing.WrittenNameKept`).
- A paging request that has waited for the reserve MDL and then finds a failed status
  leaves its loop with that MDL in hand, and nothing ever sets the event again: requests
  that have to wait for the MDL later are never completed.  `PagingIo.ServedIff` proves
  that all requests are served if and only if none has taken that step; `PagingIo.CanLose`
  gives a run that takes it, for every request of more than one run.
- `FatSetFatEntry` keeps the upper four bits of a FAT32 word, `FatSetFatRun` clears them.
  The model follows the code (`FatTable.Fat.SetFatEntry`, `FatTable.Fat.SetFatRun`).
- The comment at `FatSelectBestWindow` speaks of more than half; the code takes a window
  that is at least half free (and not entirely free).  The model follows the code.
- A directory query whose first name does not fit stores the offset it started from, so
  the next query starts with the same entry (`QueryDirectory.QueryDirectory`).

## Model

| member | source | states |
|---|---|---|
| `AllocThreads.AlwaysTrue` | FAST FAT/C++/allocsup.c:71-116 | For any number of threads, in every state of every interleaving: a cluster about which the bitmap's books and the FAT disagree is in flight in a thread that holds ChangeBitMapResource; no two threads own a cluster together; and whenever nobody has the bitmap mutex, the current window's count is the number of clear bits and the window counts add up to the volume count and all unspent pre-charges |
| `AllocThreads.EveryExecution` | FAST FAT/C++/allocsup.c:1875-2149 | Every step taken in any interleaving of fast and slow allocations, frees and window switches is safe, also where a thread that holds the resource exclusively lets go of it with part of its charge unspent: no bit is set twice or cleared twice, no count goes below zero, and a switch happens only under the exclusive resource; the invariant holds in every state |
| `AllocThreads.StepKeeps` | FAST FAT/C++/allocsup.c:2658-2842 | Each of the steps of the locking protocol (charge, reserve, count, write an entry, unreserve, credit a window, add to the volume count, switch, take and release the locks) is safe where it is enabled and keeps the invariant |
| `AllocThreads.ExclusiveSeesAgreement` | FAST FAT/C++/allocsup.c:2145-2149 | A thread that has the resource exclusively and nothing in flight sees the books and the FAT agree about every cluster, so the bitmap that it rebuilds from the FAT is the bitmap of the window |
| `AllocProgress.Progress` | FAST FAT/C++/allocsup.c:1872-2149 | In every state of every execution, the thread that has the mutex can take a step, and so can some thread that has begun and is not done, unless all are idle: the protocol never stands still |
| `AllocProgress.AllCanEnd` | FAST FAT/C++/allocsup.c:1739-2915 | From every state of every execution there is a way to go on after which every request has been answered or carried out and all threads are idle; in particular every cluster that has been charged for can be found and taken |
| `AllocProgress.MutexComesFree` | FAST FAT/C++/allocsup.c:71-116 | A thread that has the mutex can give it back by steps of its own, whatever update it is in the middle of |
| `AllocProgress.OnlyAnswer` | FAST FAT/C++/allocsup.c:1875-1886 | What follows for a request that has the mutex is that exactly the clusters asked for are charged, if as many are free or more, and nothing otherwise |
| `AllocProgress.Answered` | FAST FAT/C++/allocsup.c:1872-1886 | From there the thread's own steps charge exactly what it has asked for if as many clusters are free, and otherwise leave it idle and the books, the FAT and all other threads as they were |
| `AllocProgress.TakesRun` | FAST FAT/C++/allocsup.c:2045-2130 | A run as long as the charge in the current window is taken and linked by the thread's own steps, with the resource shared |
| `AllocProgress.MayShare` | FAST FAT/C++/allocsup.c:1872-1872 | Threads that want the resource shared get it together; one that wants it exclusively gets it exactly when no other has it |
| `AllocProgress.MayBegin` | FAST FAT/C++/allocsup.c:1739-1872 | An idle thread may ask for any number of clusters, and give up any clusters in use that no other thread has in flight |
| `Allocation.AllocateDiskSpace` | FAST FAT/C++/allocsup.c:1739-2587 | Takes exactly the clusters that the byte count needs, all free before and all different, links them in the order of the map into one chain that ends in the last mark and leaves every other entry alone, returns the rounded size and charges the volume; fails with disk full, changing nothing, exactly when more clusters are asked for than are free; takes the clusters at the place a caller names if they are free and in one window there, and otherwise, if the current window has a run that is long enough, the first such run at or behind the volume's hint, or failing that the first of the window; stops the system exactly under a condition on the bitmap and the hint that can be checked before the call |
| `Allocation.AllocateFragmented` | FAST FAT/C++/allocsup.c:2172-2483 | The fragmented path ends, and takes exactly what has been charged for; it stops the system if and only if the volume is FAT32 with one window and the tail of the bitmap will be taken whole before the request is met |
| `Allocation.TakePass` | FAST FAT/C++/allocsup.c:2190-2482 | A pass that takes nothing and is not on a roll has met a window without free clusters, so every second pass takes something |
| `Allocation.ChooseWindow` | FAST FAT/C++/allocsup.c:2342-2401 | The window switched to has free clusters |
| `Allocation.LinkRun` | FAST FAT/C++/allocsup.c:2433-2482 | A run that is taken is linked behind the one before it, the map is extended by exactly its clusters, and the bitmap, the counts and the FAT agree again |
| `Allocation.PickHint` | FAST FAT/C++/allocsup.c:1895-2015 | The hint of a search lies in the current window, and a caller's hint that names a cluster of the volume makes its window the current one |
| `Allocation.FindFreeClusterRun` | FAST FAT/C++/allocsup.c:229-236 | Finds the first free run of the length asked for that starts at or behind the hint, and failing that the first of the bitmap, and says so exactly if there is none |
| `OneWindow.PassKeepsCourse` | FAST FAT/C++/allocsup.c:2200-2330 | As long as the run at the end of the bitmap has not been taken, each pass takes a run that is no shorter, so the search is on course to be stopped exactly when the longer runs do not suffice |
| `OneWindow.SearchPass` | FAST FAT/C++/allocsup.c:2273-2325 | The same for a pass by pot luck, whatever of the first longest runs it takes |
| `OneWindow.HintPass` | FAST FAT/C++/allocsup.c:2204-2240 | A first pass at a hint inside the last run stops the search exactly when the run is shorter than the request |
| `OneWindow.StopsWitness` | FAST FAT/C++/allocsup.c:2332-2340 | Three free clusters in a bitmap of four, no run of three among them, and a request for three: the search runs into its stop although the clusters are there |
| `Allocation.StopsVolume` | FAST FAT/C++/allocsup.c:2332-2340 | A volume with that bitmap counts three clusters free, so the request for three is not refused, and stops the system |
| `OneWindow.TakingMaximalRun` | FAST FAT/C++/allocsup.c:2299-2325 | Taking a whole longest run removes its length from the clusters in long runs, and no other |
| `Deallocation.DeallocateDiskSpace` | FAST FAT/C++/allocsup.c:2590-2915 | Every cluster of the map becomes available, no other entry changes, the bitmap and all counts follow, and the volume count grows by the length of the map |
| `Deallocation.CreditWindows` | FAST FAT/C++/allocsup.c:2796-2822 | Freeing a run that spans any number of windows adds to each window's count exactly what it has in common with the run |
| `Deallocation.ReleaseRun` | FAST FAT/C++/allocsup.c:2707-2828 | Giving back a run clears exactly its intersection with the current window and leaves the books in order |
| `Books.TakeKeepsOrder` | FAST FAT/C++/allocsup.c:2433-2440 | Taking a charged run of the current window keeps bitmap, window counts, volume count and pre-charge in agreement |
| `Books.GiveBackKeepsOrder` | FAST FAT/C++/allocsup.c:2707-2829 | Giving back a run of clusters in use keeps them in agreement |
| `Books.CurrentWindowGood` | FAST FAT/C++/allocsup.c:71-86 | While the books are in order, what the driver asserts at every lock and unlock of the bitmap is true |
| `Books.FreeCountsAddUp` | FAST FAT/C++/allocsup.c:1875-1885 | While the books are in order, the window counts add up to the volume count and what has been charged beforehand |
| `Books.CountWithClear` | FAST FAT/C++/allocsup.c:2725-2788 | Clearing a set run adds to the count of any range exactly what they have in common |
| `Windows.WindowsAddUp` | FAST FAT/C++/allocsup.c:4592-4666 | Windows that partition the heap and are counted right have as many free clusters together as the heap |
| `Windows.SomeWindowHasFree` | FAST FAT/C++/allocsup.c:2384-2401 | As long as a cluster is free somewhere, some window has one |
| `Windows.WindowHolds` | FAST FAT/C++/allocsup.c:253-253 | A cluster lies in the window that its number says, and in no other |
| `Windows.SelectBestWindow` | FAST FAT/C++/allocsup.c:277-353 | The first window at least half but not entirely free; failing that, the first entirely free one; failing that, the first of those with the most free clusters; and one with free clusters if there is any |
| `Windows.AtWindowEnd` | FAST FAT/C++/allocsup.c:4773-4807 | A scan that tests whether it is at a multiple of the window size finds the window ends, and only those |
| `Volume.Vcb.constructor` | FAST FAT/C++/allocsup.c:357-543 | A volume that is set up has windows, counts and a bitmap that agree with its FAT |
| `Volume.Vcb.SetUpWindows` | FAST FAT/C++/allocsup.c:4472-5036 | The setup scan partitions clusters 2 to N + 1 into windows and counts each of them, and the volume, right |
| `Volume.Vcb.ScanEntries` | FAST FAT/C++/allocsup.c:4753-4978 | The scan by runs, with the page stepping and whatever it guesses about the first cluster, records the same bits and counts as testing every entry |
| `Volume.Vcb.SwitchToWindow` | FAST FAT/C++/allocsup.c:4472-5036 | Switching builds the bitmap of the window from the FAT and leaves every count alone; with one window it also counts the volume |
| `Volume.Vcb.FillBitmap` | FAST FAT/C++/allocsup.c:4592-4668 | A caller's bitmap is filled with what the FAT says, and neither counts nor windows change |
| `Volume.Vcb.ReserveClusters` | FAST FAT/C++/allocsup.c:197-215 | Sets exactly the bits of the run and leaves the hint at the first clear bit behind the run, or failing that the first of the bitmap, or at its start if none is clear |
| `Volume.Vcb.UnreserveClusters` | FAST FAT/C++/allocsup.c:176-183 | Clears exactly the bits of the run, and pulls the hint back to the run exactly when it lies behind it or is not set |
| `Volume.Vcb.TakeRun` | FAST FAT/C++/allocsup.c:2054-2063 | Taking a run that has been charged for: the new books are those of a run taken |
| `Volume.LinkExtend` | FAST FAT/C++/allocsup.c:2433-2482 | Chaining a free run together and linking the last cluster before it to it extends the chain under construction by the run, without touching another entry |
| `FatTable.Fat.SetFatEntry` | FAST FAT/C++/allocsup.c:3511-3895 | Replaces one entry, keeps the upper four bits of the FAT32 word it lies in and the neighbours of a 12-bit entry, changes no byte outside the entry, and marks every sector dirty in which a byte changes, also where an entry lies across two |
| `FatTable.Fat.SetFatRun` | FAST FAT/C++/allocsup.c:3898-4410 | Written in rounds of 64K clusters and page by page, a run comes out as a flat loop over the 28-bit entries writes it; on FAT32 whole words are stored, so that the upper four bits of every word of the run are cleared (allocsup.c:4150-4171), unlike where a single entry is set; the pointer stays inside the pinned pages, no byte outside the run changes, and every sector in which a byte changes is marked dirty |
| `FatTable.Fat.StoreRun` | FAST FAT/C++/allocsup.c:4150-4171 | One round of the pointer through the pinned pages stores the entries of the round |
| `FatTable.Fat.LookupFatEntry` | FAST FAT/C++/allocsup.c:3326-3508 | Reads the entry that was stored, and refuses a number outside the heap |
| `FatTable.EntryByBytes` | FAST FAT/C++/allocsup.c:3326-3508 | Where an entry lies, in bytes: two 12-bit entries in every three bytes, the even one in the first byte and the low half of the second, the odd one in the rest; of a FAT32 word the low 28 bits |
| `FatTable.Store12Other` | FAST FAT/C++/allocsup.c:3662-3726 | Storing a 12-bit entry leaves the neighbours alone with which it shares bytes |
| `FatTable.ScanStartsInsidePage` | FAST FAT/C++/allocsup.c:4734-4749 | The first entry of a scan never starts a page, which is why the page stepping is right |
| `FatEntries.LinkReadableIff` | FAST FAT/C++/allocsup.c:3234-3323 | A link is read back as a link to the cluster it names exactly when the cluster lies below the reserved values; 12-bit volumes with a cluster 0xff0 or above, and 16-bit volumes with a cluster 0xfff0 or above, have clusters that cannot be linked to |
| `FatEntries.ClusterTypeIs` | FAST FAT/C++/allocsup.c:3234-3323 | What every value of a 12-, 16- and 32-bit entry means, range by range: 0 available; links up to 0xfef, 0xffef and 0x0fffffef; then reserved; 0xff7, 0xfff7 and 0x0ffffff7 bad; and every value from 0xff8, 0xfff8 and 0x0ffffff8 on an end mark |
| `FatEntries.ChainByValues` | FAST FAT/C++/allocsup.c:825-1027 | A chain is clusters that link to each other by entries of at most those values, the last of which holds any of the end marks |
| `FileGrowth.EveryGrowthReadable` | FAST FAT/C++/allocsup.c:3234-3323 | In a volume of N clusters, every chain that free clusters are linked behind, or that they make up, can be read back, whatever the FAT, the chain and the clusters, if and only if N + 2 does not exceed the reserved values |
| `FileGrowth.AllocateWholeHeap` | FAST FAT/C++/allocsup.c:1739-2132 | In an empty volume with one window, the request for the whole heap gets clusters 2 to N + 1 in order, and the driver can read that chain back if and only if N + 2 does not exceed the reserved values |
| `FatEntries.ChainDistinct` | FAST FAT/C++/allocsup.c:825-1027 | A chain that ends has no cluster twice |
| `FatEntries.ChainUnique` | FAST FAT/C++/allocsup.c:825-1027 | A cluster starts at most one chain |
| `FatEntries.ChainsMeetOnlyInTails` | FAST FAT/C++/allocsup.c:825-1027 | Two chains are disjoint unless one of them is the end of the other |
| `FatEntries.Pigeonhole` | FAST FAT/C++/allocsup.c:721-723 | Different clusters of a volume are no more than it has |
| `FatEntries.LinkedIsChain` | FAST FAT/C++/allocsup.c:2403-2482 | Clusters linked in order are read as one chain exactly when all but the first lie below the reserved values |
| `FatEntries.SplitParts` | FAST FAT/C++/allocsup.c:3032-3073 | After a cut, each part is a chain of its own, the first ending in the last mark |
| `FatEntries.JoinedParts` | FAST FAT/C++/allocsup.c:3174-3202 | Linking the last cluster of a chain to a disjoint chain makes one chain of them |
| `FatEntries.ChainKept` | FAST FAT/C++/allocsup.c:2403-2482 | A chain that has no cluster in common with those that change stays a chain |
| `Sizes.RoundedUpIs` | FAST FAT/C++/allocsup.c:1837-1862 | The mask arithmetic rounds up to the smallest number of whole clusters, and gives zero exactly when that is 4 GB |
| `FileMap.LookupMcbEntry` | FAST FAT/C++/fsctrl.c:413-480 | Answers for a byte exactly when the map holds it, with the place on the disk, the bytes left in its run, and the index of the run |
| `FileMap.LbosAdjoin` | FAST FAT/C++/fat.h:533-545 | Two clusters lie next to each other on the disk exactly when their numbers do |
| `FileMap.ClusterPlaces` | FAST FAT/C++/fat.h:533-545 | Cluster two lies where the file area starts, and every cluster its size behind the one before |
| `FileMap.AnswerIs` | FAST FAT/C++/allocsup.c:616-640 | The answer for a byte is its place in its cluster on the disk, and reaches to the end of the longest stretch of consecutive clusters |
| `FileMap.IndexOfLbo` | FAST FAT/C++/fat.h:533-545 | Every byte of a cluster leads back to the cluster |
| `FileMap.PrefixAnswers` | FAST FAT/C++/allocsup.c:695-713 | A map that is cut where a longest run ends answers, for what it holds, as the map of the whole chain |
| `FileMap.AnswerUnique` | FAST FAT/C++/allocsup.c:695-713 | A map has at most one answer for a byte |
| `Mcb.RunEndIsNextStart` | FAST FAT/C++/fsctrl.c:530-577 | The run of a cluster ends where the run with the next index starts |
| `FileAllocation.Fcb.LookupFileAllocation` | FAST FAT/C++/allocsup.c:616-1073 | With whatever part of the chain the map holds, answers as a walk along the whole chain would, whichever of the end marks the chain ends in, with the place of the byte on the disk; keeps the map a part of the chain that is cut where a longest run ends; on any contents of the FAT it stops after a bounded number of entries, and reports corruption only where there is no chain of at most 4 GB |
| `FileAllocation.Fcb.LookupFileAllocationSize` | FAST FAT/C++/allocsup.c:1679-1735 | Succeeds exactly when the file has a chain of at most 4 GB that is no shorter than its size; on a cyclic or broken chain it always reports corruption |
| `FileAllocation.Fcb.ReadableByValues` | FAST FAT/C++/allocsup.c:825-1027 | A file can be read exactly when its clusters link to each other in the FAT, the last holds any of the end marks, and they are at most 4 GB together |
| `FileAllocation.Fcb.AnswerByValues` | FAST FAT/C++/allocsup.c:695-1073 | A file whose clusters lie so in the FAT, with any end mark, is looked up with the place of each of its bytes, and never as corrupt |
| `FileAllocation.Fcb.NotReadable` | FAST FAT/C++/allocsup.c:825-1027 | A walk that leaves the heap, meets a free, bad or reserved cluster, or goes on for more clusters than the volume has, proves that there is no chain; so a sound file never trips the guard |
| `FileAllocation.Fcb.MapAnswersForChain` | FAST FAT/C++/allocsup.c:695-713 | What the partly filled map answers is what the whole chain answers |
| `FileAllocation.Fcb.AddMcbEntry` | FAST FAT/C++/fsctrl.c:359-410 | A run added at the end extends the map by its clusters |
| `FileGrowth.AddFileAllocation` | FAST FAT/C++/allocsup.c:1077-1410 | The outcome is a function of the bitmap, the hint, the free count and the file before the call: the size cannot be read, the chain holds it already, the disk is full, the system stops, or the file grows; each exactly under its condition. A grown file has exactly the clusters that its new size calls for, linked behind those it had; its map is its chain and its size that of the chain; all but growing and stopping changes neither the FAT nor the count |
| `FileGrowth.TruncateFileAllocation` | FAST FAT/C++/allocsup.c:1424-1676 | Fails exactly on a file whose size is not known and cannot be; otherwise cuts exactly when the chain is longer than the size calls for, and keeps exactly what holds the size; the rest is free, and the volume count grows by it |
| `FileGrowth.GrewIsChain` | FAST FAT/C++/allocsup.c:1241-1307 | The grown chain can be read exactly when its links can; every other cluster in use keeps its entry |
| `FileGrowth.CutIsChain` | FAST FAT/C++/allocsup.c:1496-1607 | What is kept is a chain that ends in the last mark, what is cut off is free, and every other cluster in use keeps its entry |
| `FileGrowth.SplitAllocation` | FAST FAT/C++/allocsup.c:2922-3105 | Moves the runs from a cluster on to another map and marks the cluster before last, and nothing else |
| `FileGrowth.MergeAllocation` | FAST FAT/C++/allocsup.c:3108-3231 | Appends the second map and links the last cluster of the first to it, and nothing else |
| `FileGrowth.SplitThenMerge` | FAST FAT/C++/allocsup.c:3032-3202 | Splitting a chain and merging the parts restores the map and every entry of the FAT |
| `FileGrowth.AddToSize` | FAST FAT/C++/allocsup.c:1259-1297 | The sum of the sizes with its wrap to the maximal file, and the comparison that tells a new file from a grown one |
| `FileGrowth.LongerThan` | FAST FAT/C++/allocsup.c:1505-1536 | The test for a longer allocation, in 32-bit arithmetic, is the comparison of cluster numbers |
| `FileRuns.Serve` | FAST FAT/C++/allocsup.c:616-1735 | Over any sequence of growing, cutting and looking up any files of a volume, at every point of the run: every map is a part of its file's chain, all chains are sound, no two share a cluster, and the books agree with the FAT. Every request is answered rightly (growing and cutting with the outcome that the snapshot before determines, a lookup with the place of the byte in the chain or that there is none), and each chain develops as its requests say. The run ends early exactly at the first request that stops the system, whose condition is one on the snapshot before it and needs a FAT32 volume with one window, or that gives a file a cluster no link can name, which needs a volume with such clusters and leaves all other files in order |
| `FileRuns.SpaceConserved` | FAST FAT/C++/allocsup.c:1076-1676 | At every point of every run, the free count and the lengths of all chains add up to what they were at the start |
| `FileRuns.FilesKept` | FAST FAT/C++/allocsup.c:1076-1676 | A change of one file that involves only its own and free clusters leaves all other files as they are |
| `FileRuns.GrowOne` | FAST FAT/C++/allocsup.c:1076-1410 | Growing has the outcome that bitmap, hint, free count, fields and chain determine before the call; it keeps the old chain as a beginning, makes it just long enough, takes what it adds from the free count, and leaves the file in order exactly when all links can be read back |
| `FileRuns.TruncateOne` | FAST FAT/C++/allocsup.c:1424-1676 | Cutting keeps just the clusters that hold the size, exactly when the chain is longer and its size can be had, and gives the others back to the free count |
| `FileRuns.LookUpOne` | FAST FAT/C++/allocsup.c:616-1073 | Looking up any byte, also at or behind a known size, answers for the chain and leaves the file in order |
| `FileRuns.InUseStaysMarked` | FAST FAT/C++/allocsup.c:1159-1307 | While the files are in order, every cluster of a chain is in use in the FAT, in the books, and in the bitmap if it lies in the current window |
| `Lfn.ConstructLfn` | FAST FAT/C++/dirsup.c:2270-2373 | Writes in front of a short entry, in descending order, the entries that hold the name, its terminator and fillers, and the checksum, and no other entry |
| `Lfn.LocateDirent` | FAST FAT/C++/dirsup.c:1064-1645 | Finds what the scan specified by ScanFrom finds; the index stays thirteen times one less than the ordinal |
| `LfnScan.LocatesRightly` | FAST FAT/C++/dirsup.c:1064-1645 | For every directory, whoever has written it, every start and every query: the search finds the first entry that is looked for, passing every other, with exactly the long name that the bytes of the entries in front of it spell, and with none if they spell none; it raises at the first last entry numbered zero; and it finds nothing if the directory ends before either |
| `Lfn.NameFoundAt` | FAST FAT/C++/dirsup.c:1232-1481 | Whatever name was in progress before, a scan that comes to the entries of a name finds its short entry with exactly that name |
| `Lfn.FoundWithName` | FAST FAT/C++/dirsup.c:1232-1481 | From wherever in front a scan starts, and whatever lies between, the short entry is found with exactly its name |
| `Lfn.WriteThenLocate` | FAST FAT/C++/dirsup.c:2112-2373 | Writing any name of 1 to 255 characters and scanning returns the short entry with that name |
| `Lfn.FedOk` | FAST FAT/C++/dirsup.c:1295-1437 | Reading an entry of a long name keeps the index in step with the ordinal |
| `Lfn.ComputeLfnChecksum` | FAST FAT/C++/dirsup.c:2804-2840 | Computes the rotated sum of the eleven bytes of the short name |
| `LfnFormat.ChecksumIsRotatedSum` | FAST FAT/C++/dirsup.c:2831-2836 | For all bytes, the sum is what rotating right by a bit and adding the next byte gives in the arithmetic of bytes |
| `LfnFormat.ChecksumTellsApart` | FAST FAT/C++/dirsup.c:2831-2836 | Short names that differ in exactly one byte have different sums |
| `LfnFormat.NameLaidOut` | FAST FAT/C++/dirsup.c:2270-2373 | The entries in front of a short entry hold a name if and only if each of their 32 bytes is as given for that name: number, last flag, attributes, checksum, zeros, characters low byte first, terminator and fillers |
| `Lfn.TakeLfnEntry` | FAST FAT/C++/dirsup.c:1284-1437 | Continues the name in progress, starts another, or drops it; corrupt exactly on a last entry numbered zero |
| `DirentSlots.Dcb.CreateNewDirent` | FAST FAT/C++/dirsup.c:197-540 | Answers corrupt, cannot make or disk full each exactly under its condition on the entries before the call, and makes room otherwise: the slots set aside are free and overlap no live entry, every other entry is kept (or, where the directory is defragmented, all sets are moved to the front), and the bitmap and the marker are exact if and only if defragmenting met no orphaned long name behind the last set |
| `DirentSlots.Dcb.RefusedWhen` | FAST FAT/C++/dirsup.c:264-420 | In numbers: a fixed root directory of at most 8192 slots is refused for want of room exactly when its sets and the new entries do not fit, a larger one when it has no gap, and any other directory without a gap exactly from 65536 slots on; below that it grows, unless the disk is full |
| `DirentSlots.Dcb.RefusedInRun` | FAST FAT/C++/dirsup.c:264-420 | So it is for every create of every run that the driver makes with all entries in sight |
| `DirentSlots.Dcb.CreateAndFill` | FAST FAT/C++/dirsup.c:264-540 | Creating and filling answers in the same way, puts the entries in the slots and changes no other; a slot's bit is then set exactly when its entry is live, and the never-used slots are those from the marker on, if and only if defragmenting met no orphaned long name |
| `DirentSlots.Dcb.LiveEntrySurvives` | FAST FAT/C++/dirsup.c:264-540 | A create that does not defragment leaves every live entry where and as it was, except that a single new entry marks an orphaned long name right in front of it deleted |
| `DirentSlots.Dcb.LiveSetSurvives` | FAST FAT/C++/dirsup.c:264-540 | A create that defragments leaves every set of entries byte for byte in front of the new ones |
| `DirentSlots.Dcb.DeleteDirent` | FAST FAT/C++/dirsup.c:780-985 | Marks the entries of a file deleted, and no other, and clears their bits, which keeps the bitmap and the marker exact |
| `DirentSlots.Dcb.Rescan` | FAST FAT/C++/dirsup.c:3014-3218 | Whatever the bitmap and the end marker were before, rebuilds them from the entries; they are exact afterwards if and only if nothing but never-used entries lies behind the end marker |
| `DirentSlots.Dcb.TouchBehind` | FAST FAT/C++/cachesup.c:455-640 | Growing a directory adds zeroed entries with clear bits and keeps what was there |
| `DirentSlots.Dcb.Claim` | FAST FAT/C++/dirsup.c:431-537 | The last checks fail exactly on a slot that is not free, or on a single slot behind the end marker |
| `DirentSlots.Dcb.ChooseSlots` | FAST FAT/C++/dirsup.c:264-420 | Finds no slots exactly where the directory has no gap, may not be defragmented with success, and cannot grow or the disk is full; the slots chosen otherwise are free and do not reach behind a live entry or leave one behind the marker |
| `DirentSlots.Dcb.BlockedByOrphan` | FAST FAT/C++/dirsup.c:497-513 | After defragmenting, only orphaned long names behind the last set can block new entries |
| `DirentSlots.Dcb.Serve` | FAST FAT/C++/dirsup.c:197-985 | In any run of creates, deletes and rescans on any directory, the bitmap and the marker are exact after every request, and every answer is the one its condition on the entries calls for, from the start or from any rescan that finds nothing but never-used entries behind the end marker, up to the next create that defragments a directory with an orphaned long name behind its last set |
| `DirentSlots.Dcb.GrowingIsClean` | FAST FAT/C++/dirsup.c:371-420 | In a directory that can grow no create ever does that, and none finds the directory corrupt |
| `Defrag.DefragDirectory` | FAST FAT/C++/dirsup.c:3230-3700 | Moves the sets to the front in their order; the index returned starts a tail of at least the slots needed that is free in the bitmap; gives up or raises exactly when it should, changing nothing |
| `Defrag.SetMoved` | FAST FAT/C++/dirsup.c:3495-3552 | Every set is at its new place, byte for byte, in the same order |
| `DefragListing.ListingKept` | FAST FAT/C++/dirsup.c:3374-3552 | What one search after the other finds, the short entries and the long names they are found with, is the same in the same order before and after defragmenting, if and only if no name that is found is closed early: its last entry, numbered above one, starts with the terminator. In any case nothing is lost but just those names |
| `DefragListing.FoundAtSet` | FAST FAT/C++/dirsup.c:1232-1481 | A search that starts at the first slot of the set as the driver measures it finds what the search from wherever the listing stood had found, but for a name that is closed early |
| `DefragListing.WrittenNameKept` | FAST FAT/C++/dirsup.c:2270-2373 | Every name that was written by ConstructLfn is kept: its entry is listed under it, at the same place of the listing, before and after |
| `DefragListing.ExtraEntryLosesName` | FAST FAT/C++/dirsup.c:3374-3433 | A directory of three entries in which a last entry with nothing but the terminator comes in front of a name of thirteen characters: the file is found under that name, and under none after defragmenting |
| `Defrag.SetsCover` | FAST FAT/C++/dirsup.c:3374-3433 | The searches find every live entry: each lies in exactly one set, which ends with it |
| `Defrag.FindSets` | FAST FAT/C++/dirsup.c:3374-3433 | One search after the other finds the sets and counts their entries |
| `Defrag.Rewrite` | FAST FAT/C++/dirsup.c:3536-3552 | The two copies are put back one behind the other |
| `Defrag.NamedAtNewPlace` | FAST FAT/C++/dirsup.c:3605-3660 | With unique short names, looking up the short name finds the entry in its new place |
| `Defrag.DefragWithFiles` | FAST FAT/C++/dirsup.c:3605-3660 | With unique short names, every open file's offsets are left on its own set |
| `PagingIo.CompletedExactlyOnce` | FAST FAT/C++/deviosup.c:406-736 | In every interleaving of any number of requests, the master of each is completed at most once, only after everything issued has finished, and it has been completed when its thread is done and nothing is in flight |
| `PagingIo.SuccessTiles` | FAST FAT/C++/deviosup.c:431-736 | If a request is completed, it is with success if and only if no completion of a piece of it, on an associated IRP or on the master, has reported a failure; the pieces then tile the request, each at its place on the disk |
| `PagingIo.StatusIs` | FAST FAT/C++/deviosup.c:2697-2845 | In every state of every execution, the status of a request shows success exactly as long as none of its pieces has failed: an error is never lost |
| `PagingIo.StopsAtFailure` | FAST FAT/C++/deviosup.c:655-736 | Once a piece that went out on the master has failed, no further piece is issued |
| `PagingIo.MasterAfterSuccess` | FAST FAT/C++/deviosup.c:508-536 | A piece goes out on the master exactly if none has failed by the time that what was launched has drained |
| `PagingIo.PiecesFit` | FAST FAT/C++/deviosup.c:467-480 | No piece that goes out with the reserve MDL is longer than it, and none is cut shorter than it must be |
| `PagingIo.ServedIff` | FAST FAT/C++/deviosup.c:455-536 | In every execution that is over: every request has been completed once, and none that arrives later and has to wait for the reserve MDL is stuck for ever, if and only if no request has taken the losing step, in which a thread that has the reserve MDL in hand finds a failed status after it has drained and breaks off |
| `PagingIo.StuckIff` | FAST FAT/C++/deviosup.c:455-480 | A request is stuck for ever exactly when it waits for the reserve MDL and that is lost, or in the hand of a thread that is bound to lose it |
| `PagingIo.LostIff` | FAST FAT/C++/deviosup.c:521-536 | In every execution, the reserve MDL is lost (the event is clear and nothing holds it) exactly when some request has taken the losing step |
| `PagingIo.CanLose` | FAST FAT/C++/deviosup.c:521-536 | Every request of more than one run can lose it: the first piece fails on an associated IRP while the thread waits for it with the reserve MDL for the second |
| `PagingIo.GivenBack` | FAST FAT/C++/deviosup.c:2730-2762 | A request that has the reserve MDL and no failed status can set the event again by steps of its own |
| `PagingIo.StepsBounded` | FAST FAT/C++/deviosup.c:431-736 | In every execution, the steps taken and those left are bounded by the bytes and runs asked for, so every execution comes to an end |
| `PagingIo.EventKeeps` | FAST FAT/C++/deviosup.c:455-736 | Every step of every request, and every new request, is safe and keeps all requests in order, with the reserve MDL in one hand at most |
| `PagingIo.EveryExecution` | FAST FAT/C++/deviosup.c:406-736 | Every step of every interleaving of any number of requests is safe and leaves all of them in order |
| `PagingIo.StepKeeps` | FAST FAT/C++/deviosup.c:406-736 | Every step of one request is safe (nothing is touched after it has been completed) and keeps its invariant, whenever it is given the reserve MDL |
| `NonCachedIo.NonCachedRead` | FAST FAT/C++/deviosup.c:866-1255 | Each byte read is the byte of the disk at the file area, plus the size of a cluster for every cluster number above two, plus the offset in the cluster. For a file whose map is filled as far as earlier lookups went, and grows on the way: fails exactly when the request reaches past the chain; otherwise the part of the buffer holds the bytes of the file, as its chain defines them, and the rest of the buffer is as it was; the file stays in order |
| `NonCachedIo.LookUpByte` | FAST FAT/C++/deviosup.c:1042-1052 | With whatever part of the chain in its map, a lookup answers for the chain, and the map then reaches the byte |
| `NonCachedIo.PlanRuns` | FAST FAT/C++/deviosup.c:1146-1208 | Splits the request into one piece per run, adjoining in the buffer, each reading the right bytes |
| `NonCachedIo.MultipleAsync` | FAST FAT/C++/deviosup.c:1587-1935 | The pieces together fill the buffer with the bytes of the file |
| `NonCachedIo.SingleAsync` | FAST FAT/C++/deviosup.c:1079-1102 | A request within one run is filled by one transfer |
| `NonCachedIo.NextRunAnswers` | FAST FAT/C++/fsctrl.c:530-577 | The run with the next index answers for the byte behind the run |
| `NonCachedIo.RunsApart` | FAST FAT/C++/deviosup.c:1111-1144 | Comparing run indexes tells whether two bytes lie in one run |
| `NonCachedIo.AnswerAligned` | FAST FAT/C++/deviosup.c:1404-1414 | What a lookup answers is aligned as the offset is, and reaches to the end of the sector at least |
| `NonAlignedRead.NonCachedNonAlignedRead` | FAST FAT/C++/deviosup.c:1261-1575 | Likewise for a read that need not start or end at a sector: the head sector, the tail sector and the aligned middle fill the buffer with exactly the requested bytes of the file, and leave it alone behind them; fails exactly when the request reaches past the chain |
| `NonAlignedRead.ReadHead` | FAST FAT/C++/deviosup.c:1376-1438 | Copies the wanted part of the first sector |
| `NonAlignedRead.ReadTail` | FAST FAT/C++/deviosup.c:1446-1503 | Copies the wanted part of the last sector |
| `NonAlignedRead.AfterTheHead` | FAST FAT/C++/deviosup.c:1424-1440 | A request that ends in its first sector fails exactly when it starts behind the file, and what is left after it starts at a sector |
| `NonAlignedRead.BeforeTheTail` | FAST FAT/C++/deviosup.c:1446-1450 | The last sector starts at a sector and lies in the file exactly when the whole request does |
| `QueryDirectory.QueryDirectory` | FAST FAT/C++/dirctrl.c:228-1290 | The buffer holds the first matching entries from where the query starts, following the links visits exactly those, Information is where the last name ends and never exceeds the buffer, the status says why it ended, and the next query goes on behind them, or with the same entry if its name was cut off |
| `QueryDirectory.Enumerate` | FAST FAT/C++/dirctrl.c:748-1280 | Successive queries list every matching entry exactly once, in order; a name is cut off only if some buffer is too small for the entry that comes next, and otherwise one more query than there are entries finds that there are no more |
| `QueryDirectory.VisitsPacked` | FAST FAT/C++/dirctrl.c:976-985 | Following the next-entry links visits exactly the packed entries |
| `QueryDirectory.PacksOneMore` | FAST FAT/C++/dirctrl.c:1163-1196 | Putting an entry behind the others and linking the last one to it keeps all of them readable |
| `QueryDirectory.TakeEntry` | FAST FAT/C++/dirctrl.c:850-1241 | An entry goes in exactly when all of it fits; the first is cut off instead |
| `QueryDirectory.ShortNameIs` | FAST FAT/C++/namesup.c:178-372 | The name listed for a short entry, character by character: the base and the extension without the spaces behind them, a dot between them exactly if there is an extension, 0xe5 for a first byte of 0x05, and lower case as the two case bits ask |
| `QueryDirectory.EntryListed` | FAST FAT/C++/dirctrl.c:1092-1200 | An entry is listed with the byte offset of its slot, and the characters of its name low byte first |
| `QueryDirectory.StartsAt` | FAST FAT/C++/dirctrl.c:434-450 | A query starts at the entry behind the one whose index is given, with the wrap of a ULONG, or at the first entry when the scan is restarted, or where the last query stopped |
| `DirectoryListing.ListsMatching` | FAST FAT/C++/dirctrl.c:748-805 | In a directory whose long names are well formed, what the queries list are the entries that match by short or long name, all of them, in order, each under its own name, and no search fails |
| `DirectoryListing.SearchFindsNext` | FAST FAT/C++/dirsup.c:1232-1645 | From between two sets, a search finds the next matching entry with its own name |
| `CloseQueue.FatData.QueueClose` | FAST FAT/C++/close.c:571-637 | Appends the context to the right list and its volume's list, and starts the worker if and only if it is not active and the close is not delayed or makes the delayed list longer than the limit |
| `CloseQueue.FatData.RemoveClose` | FAST FAT/C++/close.c:643-841 | Takes the oldest context, async ones first, of the volume asked for, or of the one looked at last if a worker is under pressure and that one has any, or else of any; keeps the per-volume lists in step; the worker that finds none is active no longer |
| `CloseQueue.FatData.TakeOf` | FAST FAT/C++/close.c:787-836 | Takes the oldest close of one volume exactly when it has any |
| `CloseQueue.FatData.TakeAny` | FAST FAT/C++/close.c:732-781 | Takes the oldest close of all exactly when there is work |
| `CloseQueue.FatData.Serve` | FAST FAT/C++/close.c:373-841 | In any sequence of closes, worker calls and drains of volumes, every context queued is still pending or has been taken exactly once, and the active flag is set exactly while one worker is queued or running |
| `CloseQueue.OfVolumeUnlink` | FAST FAT/C++/close.c:740-823 | Unlinking a context takes it off its volume's list and leaves the order of all others |

## Left out

- Unwinding: what the driver undoes after an exception in the middle of an operation is not modelled; no claim is made about the state after such a failure, and errors raised by reading or writing the disk are not modelled.
- ExactMatchRequired: an allocation that must be at its hint is not modelled, because its window-relative hint may refer to a window that was switched away under it.
- Concurrency inside a step: `AllocThreads` lets threads interleave between the steps that the bitmap mutex and the resource separate; a step under the mutex is one step, and entries are written one by one in any order, which allows more than the driver does. `CloseQueue` takes what happens under the close mutex as one step.
- FileAllocation.Fcb.LookupFileAllocation: for files of 4 GB, whose last byte cannot be asked for, the answer is stated only up to the byte before; what it answers at or behind a known allocation size is stated for files in order, in FileRuns.LookUpOne.
- FileRuns.Serve: the run ends with the first growth that gives a file a cluster no link can name; how the driver goes on with a file whose chain it cannot read is stated only by the single operations, which find it corrupt.
- Side features of the FAT code: the clean and dirty volume bits, the map of bad blocks, prefetching, and statistics.
- Runtime primitives: the Rtl bitmap routines and the Mcb routines are modelled by simple bodies with the documented results; that `RtlFindLongestRunClear` takes the first of the longest runs, and that `RtlFindClearBits` takes the first run at or behind its hint and only failing that the first of the bitmap, are assumptions about them.
- DirentSlots.Dcb.Serve: once a create has defragmented a directory with an orphaned long name behind its last set, its bitmap is wrong, and nothing is stated about what further creates answer and do until a rescan finds nothing but never-used entries behind the end marker. That the hint for deleted entries points at the first free slot is not claimed, as it is only a hint.
- DirentSlots.Dcb.CreateNewDirent: whether the disk is full when the directory has to grow is a parameter.
- Lfn: converting and comparing names is a parameter, the predicates of `Query`; case tables and code pages are not modelled. A scan for a name that does not match a short entry keeps the long name in progress; the listing theorem therefore speaks of directories whose long names are well formed.
- Defrag: the copies are made of whole runs of entries; the cache pages of the directory file and their pinning are not modelled.
- QueryDirectory.QueryDirectory: of the fields of an entry only the link, the file index, the length of the name and the name are modelled; times, sizes, attributes, file identifiers and the short name beside a long one are left zero. Short names are converted in a code page of single bytes, and the buffer is shorter than 4 GB by eight bytes at least. Building the search template from the caller's pattern is not modelled.
- NonCachedIo.NonCachedRead: reads only, of files whose chain can be read and is shorter than 4 GB; the transfers of one request are made one after the other, and their completion routines are not modelled. Writes, and the zeroing of what lies behind the valid data, are left out.
- PagingIo.SuccessTiles: the paging file's map is complete and fixed, as the driver requires of it; the contents transferred are not modelled. A request that lies in one run, which is sent on as it came, is not part of the protocol. No fairness is assumed: a request that waits for the reserve MDL can always still get it, unless that is lost, but the order in which waiting requests get it is left open.
- CloseQueue.FatData.Serve: what closing a context does, and the references between files and volumes, are not modelled.
- Everything else: cache manager, oplocks, security, extended attributes, volume mount and verify, tunnelling, timestamps.
