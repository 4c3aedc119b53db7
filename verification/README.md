# Tupai: a Dafny model of the kernel's data and control cores

Tupai is a small monolithic kernel. Its drivers are thin, but a handful of components carry the
invariants everything else relies on. This project models those components and proves what they promise.

| file | models |
|---|---|
| `Common.dfy`, `Arith.dfy` | shared vocabulary (identifiers, bytes, `align_ceiling`, tables seen as finite maps) and facts of arithmetic |
| `RingQueue.dfy` | the ring buffer `_queue_t` |
| `Ageing.dfy`, `Processes.dfy`, `SchedulerRuns.dfy`, `Kernel.dfy` | the priority-ageing scheduler with the process and thread tables: the ageing loop, the state and its invariant, whole runs, and the kernel's fields updated in place |
| `HashTable.dfy` | the open-addressed `hashtable_t` behind every kernel table |
| `Blocks.dfy`, `Pool.dfy` | the memory pool: first fit over a block map, the ledger of live allocations, the packed two-bit map, the region's geometry |
| `Paging64.dfy`, `Paging32.dfy` | the boot page tables and the processor's walk of them (Intel SDM volume 3A, sections 4.5 and 4.3) |
| `Path.dfy`, `Namespace.dfy`, `Forest.dfy`, `VirtualFs.dfy`, `Pipes.dfy` | path splitting, the inode graph, resolution and mounting, the forest that the kernel builds and prints, the tables of the virtual filesystem, mounting a pipe |
| `Tar.dfy`, `Initrd.dfy`, `Ramdisk.dfy` | ustar archives ("ustar Interchange Format", pax, IEEE Std 1003.1-2017), the tree built from one, reading files |
| `Descriptors.dfy`, `FileCalls.dfy`, `Readers.dfy` | the two levels of file descriptors, the way from an archive to the bytes a process reads, and threads that read while the scheduler switches between them |
| `Conv.dfy`, `Vector.dfy`, `Spinlock.dfy` | integer printing, the growable vector, the `xchg` spinlock as a protocol |

How the model is built: each component has pure functions that say what an operation does to a value (a
queue, a table's cells, a block map, the scheduler's state, the inode graph), a class or a method with the
source's loops and in-place updates whose postconditions equate the new state with those functions, and
lemmas about the functions, mostly over whole runs. A full kernel table ignores an `add`, as in the source;
the lemmas say when that breaks an invariant. Panics are results of their own, after which nothing changes.

Where the code does not do what one would expect, the code is modelled as it is and the exact condition is
stated:

- `SpawnedInv`, `SpawnsOverflow`: spawning with a full thread table schedules a thread that is not in the table;
  256 spawns after boot are enough to get there.
- `NothingLeftToRun`: when the only thread has ended, which a spawn, a tick and a kill after boot bring about, the
  next tick would pop an empty queue.
- `RoundRobin`: `spawn_thread` gives every thread priority 0, so the ageing never acts and the scheduler is a
  plain round robin.
- `AddNeedsFreshKey`: a hashtable holds a map only while no present key is added again.
- `BodyInRegion`: for a pool's region that is not 16-aligned, or starts at zero, the body is moved the wrong way.
- `ClearingLoopFits`, `KernelPoolOverrun`: clearing the pool's map writes a byte, not two bits, for each
  block; for the kernel's own pool that goes past the region.
- `BlocksNeededSuffice`, `LargestRequest`: rounding a request up can wrap around, and then a single block is
  granted for it, as for the largest request in blocks of 64 bytes.
- `WordSearchIs`, `OneByteOverrun`: with blocks of a single byte the end of the search's inner loop can wrap
  around, and a block is granted that has no room.
- `FileFoundExactly`: a regular file of the archive whose path an earlier member made is lost.
- `RoundTrip`: the most negative integer prints as zero with a minus sign.
- `TerminatorMatters`: an octal size that ends in a space, which the archive format allows, is misread.
- `Thrashing`: pushing and popping in turn moves the whole storage every time exactly when the vector is full,
  as a new one is, and never otherwise.
- `GivenBack`, `IsLockedNeverReturns`: `is_locked` takes the lock twice; a held lock is given back exactly when
  its holder is in `create_inode`. One call of `is_locked` blocks everybody on the lock it is made on
  (`OneCallBlocksAll`); the kernel never makes the call.
- `OpenedPaired`, `OpensOverflow`: opening with a full table of open files returns a number that leads nowhere,
  unless the process's own table is full too; two processes after boot can get there.
- `TablesAreExact` of `Paging32`: half of the directory entries lead to empty tables, so 256 MiB, not
  512 MiB, are mapped in each half.

## Model

| member | source | states |
|---|---|---|
| RingQueue.Queue.Push | include/tupai/util/queue.hpp:44-57 | the contents gain the item at the end; a full queue loses its oldest item first |
| RingQueue.Queue.Pop | include/tupai/util/queue.hpp:74-84 | the oldest item is returned and removed; the next one is then the oldest |
| RingQueue.WindowPush | include/tupai/util/queue.hpp:46-53 | writing the cell after the newest extends the ring's window by that item, or rotates it when full |
| RingQueue.HistoryIsFifo | include/tupai/util/queue.hpp:38-84 | over any history the queue is a suffix of what was pushed, what was popped is what was pushed before it, in order, with only the items left out that a full queue lost |
| Ageing.ClosedForm | kernel/proc/scheduler.cpp:79-90 | the loop ends on every non-empty queue, after m*n+k+1 pops, with the leftmost task k of least countdown m; tasks behind it are lowered by m, those before it move to the back lowered by m+1 |
| Ageing.AgeConserves | kernel/proc/scheduler.cpp:79-90 | the chosen task and the queue left are together the tasks there were |
| Ageing.AgeLowersRank | kernel/proc/scheduler.cpp:79-90 | each pop chooses a given thread or lowers 256*countdown + position of its task |
| Processes.InitialInv | kernel/proc/proc.cpp:105-114 | booting establishes the invariant of tables and scheduler |
| Processes.CreatedInv | kernel/proc/proc.cpp:116-129 | creating a process keeps the invariant; the returned process exists exactly when the table had room |
| Processes.CreatedIsEmpty | kernel/proc/proc.cpp:116-129 | a created process has the next identifier, no threads and no descriptors |
| Processes.SpawnedInv | kernel/proc/proc.cpp:295-317 | spawning keeps the invariant exactly when the process does not exist or the thread table has room |
| Processes.SpawnedIsFound | kernel/proc/proc.cpp:295-312 | the local number returned leads to the new thread, in state NEW with its entry and the top of its 2048-byte block |
| Processes.ScheduledWaits | kernel/proc/scheduler.cpp:49-62 | within the range of a `short` a task is queued with the whole priority asked for, and as long to wait |
| Processes.RetiredInv | kernel/proc/scheduler.cpp:68-77 | when the running task gave up the processor, every thread is queued once, none is dead, and there is one to run exactly when the call was allowed |
| Processes.IncrementedInv | kernel/proc/scheduler.cpp:64-95 | a dispatch keeps queue, tables and links consistent, runs a live thread of the current process, and loses only the dead thread it buries |
| Processes.PreemptedInv | kernel/proc/scheduler.cpp:106-127 | a tick keeps the invariant and leaves a thread running that is neither new nor dead |
| Processes.KilledInv | kernel/proc/proc.cpp:251-256 | killing the running thread keeps the invariant |
| Processes.RosterSize | kernel/proc/proc.cpp:34-44 | the run queue and the running thread are as many as the table's threads, each thread being in exactly one place |
| Processes.LinkAdded | kernel/proc/proc.cpp:304-308 | entering a thread under a fresh local number keeps threads and their processes' tables mutually inverse |
| Processes.LinkDropped | kernel/proc/proc.cpp:319-335 | removing a thread from both tables keeps them mutually inverse |
| SchedulerRuns.RunInv | kernel/proc/scheduler.cpp:64-127 | over any run of create, spawn, kill and tick every live thread is scheduled exactly once and the tables stay mutually inverse |
| SchedulerRuns.SpawnsOverflow | kernel/proc/proc.cpp:295-317 | after boot 256 spawns fill the thread table, and the next queues a thread that is in no table |
| SchedulerRuns.KilledIsGone | kernel/proc/scheduler.cpp:68-71 | after the next tick a killed thread is out of the table, the queue and its process, and over any further run stays out and never runs |
| SchedulerRuns.StepKeepsProcesses | kernel/proc/proc.cpp:295-317 | no call of `create`, spawn, kill or tick touches a process's descriptors, and local thread numbers only grow, by one for each spawn |
| SchedulerRuns.TickChoice | kernel/proc/scheduler.cpp:64-95 | a tick runs the leftmost task of least wait among those queued and the running one, which waits its whole priority again; it leaves the others in order, lowered |
| SchedulerRuns.NoStarvation | kernel/proc/scheduler.cpp:64-95 | a queued thread runs within 256*countdown + position + 1 ticks, whatever else is spawned or dies |
| SchedulerRuns.ExactTurn | kernel/proc/scheduler.cpp:64-95 | while no task has a priority, a queued thread first runs at exactly the tick that its place in the queue says |
| SchedulerRuns.RoundRobin | kernel/proc/proc.cpp:310 | in every state reached from boot, where threads are spawned with priority 0, the scheduler is an exact round robin |
| SchedulerRuns.ContextRoundTrip | kernel/proc/scheduler.cpp:106-127 | over any run from boot a thread is bootstrapped as it was spawned, and otherwise resumed with the stack pointer it last left with; threads leave and enter in turns, and the last one entered is the one running; none is bootstrapped twice, and one in the table has been once exactly when it is not new |
| SchedulerRuns.EveryTickEnters | kernel/proc/scheduler.cpp:106-127 | in every run each tick enters the thread that is current after it |
| SchedulerRuns.BootedExactlyOnce | kernel/proc/scheduler.cpp:106-127 | a thread that waits in a state reached from boot has been bootstrapped exactly once by the tick that its rank says |
| SchedulerRuns.NothingLeftToRun | kernel/proc/scheduler.cpp:79-82 | spawn, tick and kill after boot end with an empty queue and no thread to run |
| Kernel.Scheduler.SpawnThread | kernel/proc/proc.cpp:295-317 | the state changes as `Spawned` says and the process-local number is returned |
| Kernel.Scheduler.CreateThread | kernel/proc/proc.cpp:337-358 | a new thread in state NEW with its entry and the top of its stack block |
| Kernel.Scheduler.DeleteThread | kernel/proc/proc.cpp:319-335 | the thread leaves its process's table and the thread table |
| Kernel.Scheduler.Retire | kernel/proc/scheduler.cpp:68-77 | a dead running thread is deleted, any other goes to the back of the queue with its countdown reset |
| Kernel.Scheduler.Select | kernel/proc/scheduler.cpp:79-90 | the in-place loop computes the pick of `Age` |
| Kernel.Scheduler.Increment | kernel/proc/scheduler.cpp:64-95 | retire, select, and make the chosen thread and its process current |
| Kernel.Scheduler.PreemptThread | kernel/proc/scheduler.cpp:106-127 | saves the stack pointer, dispatches, and bootstraps a new thread or returns the chosen one's stack pointer |
| Kernel.Scheduler.ScheduleTask | kernel/proc/scheduler.cpp:49-62 | queues a task whose priority is cut to a `short` |
| HashTable.HashOfWord | include/tupai/util/hashtable.hpp:35-54 | converting a signed key to an unsigned word does not change its first cell |
| HashTable.ProbeVisits | include/tupai/util/hashtable.hpp:54-57 | the wrapped probe visits every cell exactly once |
| HashTable.SearchesAreComplete | include/tupai/util/hashtable.hpp:71-100 | a search fails only when no cell is free, or no cell holds the key |
| HashTable.AddRefines | include/tupai/util/hashtable.hpp:52-69 | adding a fresh key updates the map and fails exactly at 256 entries |
| HashTable.AddNeedsFreshKey | include/tupai/util/hashtable.hpp:52-69 | keys stay distinct exactly when the added key was absent |
| HashTable.GetRefines | include/tupai/util/hashtable.hpp:89-100 | a lookup finds exactly the map's entry |
| HashTable.UpdateRefines | include/tupai/util/hashtable.hpp:89-105 | writing through the returned address updates the map at that key only |
| HashTable.RemoveRefines | include/tupai/util/hashtable.hpp:71-87 | removing takes exactly the key out of the map |
| HashTable.ListedMeaning | include/tupai/util/hashtable.hpp:107-121 | counting through `nth` meets every entry of the map exactly once, and `item_count` is the map's size |
| HashTable.TableRefinesMap | include/tupai/util/hashtable.hpp:39-122 | under any history of fresh adds, removes, lookups and sizes the table answers as a finite map does |
| HashTable.Table.Add | include/tupai/util/hashtable.hpp:52-69 | the first free probed cell takes the entry and the count follows; a full table is unchanged |
| HashTable.Table.Remove | include/tupai/util/hashtable.hpp:71-87 | the first probed cell with the key becomes free |
| HashTable.Table.Get | include/tupai/util/hashtable.hpp:89-100 | the first probed cell with the key |
| HashTable.Table.Nth | include/tupai/util/hashtable.hpp:107-121 | the n-th entry in cell order, or null past the end |
| Blocks.FirstFit | kernel/sys/pool.cpp:76-105 | the search finds the least run of unused blocks that is long enough whenever there is one; it panics exactly when there is none and the last block is unused |
| Blocks.ClaimShows | kernel/sys/pool.cpp:109-116 | entering an allocation into a gap shows the ledger with that interval added, disjoint from all others |
| Blocks.ReleaseShows | kernel/sys/pool.cpp:133-138 | releasing frees exactly the allocation's head and tails and removes it from the ledger |
| Blocks.LedgerDeterminesMap | kernel/sys/pool.cpp:30-36 | two maps that show the same live allocations are equal |
| Blocks.ReleaseInvertsGrant | kernel/sys/pool.cpp:72-141 | releasing what a search granted restores the map |
| Blocks.Conservation | kernel/sys/pool.cpp:72-141 | the used blocks are as many as the live allocations' lengths together |
| Blocks.StepRefines | kernel/sys/pool.cpp:72-141 | an allocation enters the least gap between live allocations, if there is one; a release removes one allocation |
| Blocks.RunRefines | kernel/sys/pool.cpp:72-141 | over any run the map shows a ledger of disjoint allocations that evolves by first fit and exact release |
| Blocks.NothingLeaks | kernel/sys/pool.cpp:54-63 | with nothing live the map is as it was when new |
| Pool.FieldLaw | kernel/sys/pool.cpp:186-205 | setting a two-bit field of a byte sets that field and no other |
| Pool.SetSlot | kernel/sys/pool.cpp:194-205 | setting slot i of the packed map changes slot i only |
| Pool.BodyInRegion | kernel/sys/pool.cpp:45-50 | the body starts where the region does exactly when the region is 16-aligned and not at zero; otherwise it is as far below as the next aligned address is above, in words, and aligned exactly for multiples of 8 |
| Pool.RegionEndsSame | kernel/sys/pool.cpp:45-50 | however the body is moved, body and size end where the region does |
| Pool.CountIsLargest | kernel/sys/pool.cpp:49-52 | on an aligned region the block count is the largest whose blocks and packed map fit |
| Pool.ClearingLoopFits | kernel/sys/pool.cpp:54-63 | the clearing loop stays inside the region exactly when the division's remainder is at least three times the count |
| Pool.KernelPoolOverrun | kernel/sys/kmem.cpp:31-32 | the kernel's own pool has 261123 blocks, whose packed map fits and whose cleared map does not |
| Pool.BlocksNeededSuffice | kernel/sys/pool.cpp:77 | the blocks granted have room for the bytes requested exactly when rounding up does not wrap around |
| Pool.LargestRequest | kernel/sys/pool.cpp:77 | for the largest request, in blocks of 64 bytes, a single block is granted |
| Pool.WordSearchIs | kernel/sys/pool.cpp:87 | the search in words is first fit while the end of the inner loop does not wrap |
| Pool.OneByteOverrun | kernel/sys/pool.cpp:87 | with blocks of one byte it can wrap, and a block without room is granted |
| Blocks.MapDeterminesLedger | kernel/sys/pool.cpp:30-36 | a map shows one ledger only |
| Pool.MemoryPool.constructor | kernel/sys/pool.cpp:41-70 | body and count as computed; the map shows no allocation |
| Pool.MemoryPool.Alloc | kernel/sys/pool.cpp:72-120 | one step of the block map: panics, returns null, or grants the searched block's address and marks exactly its blocks, which hold the request exactly when rounding up did not wrap |
| Pool.MemoryPool.Dealloc | kernel/sys/pool.cpp:122-141 | one step of the block map: a pointer to the first block of an allocation releases it; any other block's pointer and any misaligned one panics and changes nothing |
| Pool.AllocThenDealloc | kernel/sys/pool.cpp:72-141 | releasing a granted pointer always succeeds and restores the map, whatever else is allocated |
| Pool.Serve | kernel/sys/pool.cpp:72-141 | over any run of requests for bytes and releases of addresses the pool holds a ledger that evolves by first fit and exact release, whose byte ranges are disjoint and inside the body; whatever was granted and not given back is live at the address returned, with room for the bytes requested unless rounding them up wrapped |
| Paging64.SetupPaging64 | kernel/x86/amd64/paging64.s:27-88 | the stores and loops leave exactly the described entries in zeroed tables |
| Paging64.TablesAreExact | kernel/x86/amd64/paging64.s:29-88 | the four-level walk maps, writable, exactly four 256 MiB windows onto the first 256 MiB and faults everywhere else |
| Paging64.IdentityAndHigherHalf | kernel/x86/amd64/arch.cpp:55-58 | every address below 256 MiB maps to itself, also at the kernel's offset |
| Paging32.SetupPaging | kernel/x86/i386/paging.s:25-72 | the two loops leave exactly the described entries in zeroed tables |
| Paging32.TablesAreExact | kernel/x86/i386/paging.s:25-72 | the two-level walk maps, writable, exactly the identity window and the one at 0xC0000000 and faults everywhere else |
| Path.ElementCount | kernel/vfs/path.cpp:28-52 | the number of elements of a path |
| Path.ElementGet | kernel/vfs/path.cpp:54-93 | the element with an index, cut to 255 bytes, or failure past the end |
| Path.SlashSeparates | kernel/vfs/path.cpp:28-93 | a path with a slash in it splits into what its two sides split into |
| Path.WordIsElement | kernel/vfs/path.cpp:28-93 | a string without a slash is one element, or none when empty; with the row above this determines the splitting of every string |
| Path.OuterSlashes | kernel/vfs/path.cpp:28-93 | any number of slashes in front of a path and behind it makes no difference |
| Namespace.NamesAreWhole | kernel/vfs/path.cpp:54-93 | names are the elements themselves exactly when each is shorter than 256 bytes |
| Path.ElementsOfJoin | kernel/vfs/path.cpp:28-93 | splitting inverts joining with slashes |
| Path.StrEqual | include/tupai/util/str.hpp:63-74 | string equality, when one string is not empty |
| Path.StrCpyN | include/tupai/util/str.hpp:46-52 | the longest prefix that fits the buffer with its terminator |
| Namespace.MountIsMonotone | kernel/vfs/vfs.cpp:133-148 | mounting keeps every resolution that succeeded before |
| Namespace.MountIsExact | kernel/vfs/vfs.cpp:534-553 | mounting a fresh leaf under an unused name makes exactly one more path resolve, to the leaf |
| Forest.GrownForest | kernel/sys/initrd.cpp:153-155 | creating and mounting an inode keeps edges leading to younger inodes and parents unique; sibling names stay different exactly when the name was unused |
| Forest.RunForest | kernel/vfs/vfs.cpp:229-243 | every run of creating and mounting new inodes keeps the graph a forest |
| Forest.PrintsOnce | kernel/vfs/vfs.cpp:165-189 | printing terminates and shows no inode twice |
| Forest.PrintsReachable | kernel/vfs/vfs.cpp:165-189 | printing shows exactly the inodes that a chain of children leads to, each once, also those behind an older sibling of the same name |
| Forest.ParentIsAbove | kernel/vfs/vfs.cpp:165-189 | the parent of every line but the first is the nearest line above it that is indented less, by one |
| Forest.PartFollows | kernel/vfs/vfs.cpp:165-189 | every inode's line is followed directly by the lines of all that is below it |
| Forest.PrintedInOrder | kernel/vfs/vfs.cpp:180-188 | an inode's own line comes first and its children's in their order |
| Forest.ResolvedIsPrinted | kernel/vfs/vfs.cpp:165-189 | whatever resolves below an inode is printed, with the path that resolves to it |
| Forest.PrintedResolves | kernel/vfs/vfs.cpp:165-189 | when siblings have different names, a printed path resolves to the inode printed with it |
| VirtualFs.Vfs.GetInode | kernel/vfs/vfs.cpp:59-90 | resolution is a fold of first-match child lookup over the path's cut elements |
| VirtualFs.Vfs.Mount | kernel/vfs/vfs.cpp:102-152 | one edge is appended in the directory the path's front resolves to; without such a directory nothing changes |
| VirtualFs.Vfs.MountChild | kernel/vfs/vfs.cpp:534-553 | a child with the cut name is appended, or nothing for an unknown inode |
| VirtualFs.Vfs.GetChild | kernel/vfs/vfs.cpp:421-442 | the first child with the name |
| VirtualFs.Vfs.CreateInode | kernel/vfs/vfs.cpp:229-243 | a fresh number, entered into the table if it has room |
| VirtualFs.Vfs.CreateFs | kernel/vfs/vfs.cpp:206-227 | a directory that knows the filesystem it is the root of |
| VirtualFs.Vfs.PrintInode | kernel/vfs/vfs.cpp:165-189 | prints the lines of the tree below an inode, indented by depth, with a slash after a directory's name |
| VirtualFs.LineShows | kernel/vfs/vfs.cpp:170-178 | a line shows the depth, the last name on the way, and a slash exactly for directories |
| VirtualFs.MountThenLookup | kernel/vfs/vfs.cpp:59-152 | a successful mount under an unused name makes its path resolve to the inode and breaks no other path |
| VirtualFs.MountResolves | kernel/vfs/vfs.cpp:133-148 | the mounted path resolves to the mounted inode |
| Namespace.MountIsShadowed | kernel/vfs/vfs.cpp:534-553 | mounting under a name in use changes no resolution |
| Pipes.PipeDriver.MountPipe | kernel/sys/pipe.cpp:49-61 | the graph becomes `Piped` and the pipe is entered under its inode |
| Pipes.PipedForest | kernel/sys/pipe.cpp:49-61 | mounting a pipe keeps the graph a forest |
| Pipes.PipedExact | kernel/sys/pipe.cpp:49-61 | a path resolves to the pipe exactly when the pipe's directory existed, the name was free, and the path ends in that name below that directory; every other path resolves as before |
| Pipes.MountedIsPipe | kernel/sys/pipe.cpp:49-61 | mounted under a free name with room in the table, the path leads to an empty inode of type pipe that opens, closes, reads and writes |
| Tar.TarSize | kernel/util/tar.cpp:55-65 | the size field's digits accumulated in `size_t` arithmetic |
| Tar.TarNext | kernel/util/tar.cpp:44-53 | the header after the padded data, or null when its name is empty |
| Tar.SizeReads | kernel/util/tar.cpp:44-65 | the size and the next header are those that the format encodes |
| Tar.WalkReads | kernel/util/tar.cpp:44-53 | from an entry the walk goes to the next and stops after the last |
| Tar.TerminatorMatters | kernel/util/tar.cpp:55-65 | eleven octal digits are read back exactly when they end in NUL and not in a space |
| Tar.ByteReads | kernel/util/tar.cpp:55-65 | what a single byte of a size field is read as, digits or not, with `char` signed |
| Initrd.MadeExact | kernel/sys/initrd.cpp:122-166 | making one inode makes one more path resolve: its directory's, followed by its name |
| Initrd.OnePath | kernel/sys/initrd.cpp:113-167 | two paths from the root to the same inode are the same |
| Initrd.PathAddedExact | kernel/sys/initrd.cpp:108-167 | after adding a path, what resolved before resolves as before, and of the rest exactly the path's prefixes resolve |
| Initrd.AllAddedExact | kernel/sys/initrd.cpp:105-170 | after the whole archive a path resolves exactly when it did before or is a prefix of a member's path |
| Initrd.MemberFound | kernel/sys/initrd.cpp:113-166 | a member whose path no earlier one made leads to an inode of the type that the format's byte names, a directory for every other byte; for '0' and for no other type it has the driver, which opens, closes and reads, and the member's header |
| Initrd.DirectoryFound | kernel/sys/initrd.cpp:124-158 | an inode made on the way to a member is a directory without driver and header |
| Initrd.EveryInode | kernel/sys/initrd.cpp:105-170 | every inode that the archive adds was made for the first member whose path leads to it, or as a directory on the way |
| Initrd.FullTableMounts | kernel/sys/initrd.cpp:153-155 | with a full inode table a new name leads to a number that is in no table |
| Initrd.SmallArchiveFits | kernel/sys/initrd.cpp:113-166 | an archive makes at most as many inodes as its paths have elements |
| Ramdisk.Driver.AddPath | kernel/sys/initrd.cpp:108-167 | the inner loop follows or makes one name after another, as `PathAdded` says |
| Ramdisk.Driver.Create | kernel/sys/initrd.cpp:92-171 | a well-formed archive's members are added in order under a new root |
| Ramdisk.Driver.ReadCall | kernel/sys/initrd.cpp:183-206 | the buffer gets the next chunk of the file's data and a terminator, and the offset moves by the chunk's length |
| Ramdisk.ChunksJoin | kernel/sys/initrd.cpp:192-202 | the chunks of successive reads join to the data from the offset on, as far as the buffers have room |
| Ramdisk.ChunkLength | kernel/sys/initrd.cpp:192-202 | a read gets what is left, at most one byte less than the buffer holds, from where the last read ended |
| Ramdisk.EntryData | kernel/util/tar.cpp:67-70 | the bytes behind the k-th header are the k-th entry's data |
| FileCalls.FdOpen | kernel/vfs/fd.cpp:29-47 | a driver without open, or whose open fails, gives no descriptor; otherwise both tables gain one entry |
| FileCalls.FdClose | kernel/vfs/fd.cpp:49-79 | a failed close changes nothing; a close that succeeds removes the entry from both tables |
| FileCalls.FdRead | kernel/vfs/fd.cpp:81-100 | reads through the driver of the open file's inode, with the source's results when there is none |
| FileCalls.PathsResolve | kernel/sys/initrd.cpp:92-171 | after booting from an archive a path resolves exactly when it is a prefix of an entry's path |
| FileCalls.FileResolves | kernel/sys/initrd.cpp:92-171 | a regular file's path leads to an inode with the driver and the file's header |
| FileCalls.FileFoundExactly | kernel/sys/initrd.cpp:92-171 | the inode at a regular file's path has that file's header exactly when no earlier member made the path |
| FileCalls.EveryBootedInode | kernel/sys/initrd.cpp:92-171 | after booting, an inode other than the root has the driver and a header exactly when it is that of an entry of type '0' |
| FileCalls.AnySlashes | kernel/sys/initrd.cpp:108-120 | a file is found by its name in the archive with any slashes in front of it and behind it |
| FileCalls.MemberNamesAreWhole | kernel/sys/initrd.cpp:115-118 | the names of members are never cut |
| Initrd.LateMember | kernel/sys/initrd.cpp:113-166 | of a member whose path was there before it no inode has the header |
| FileCalls.BootAndRead | kernel/sys/initrd.cpp:92-206 | a regular file of any well-formed archive, opened by its path in any spelling and read with buffers of any sizes, gives back exactly the archive's bytes |
| FileCalls.ReadOnce | kernel/sys/initrd.cpp:183-206 | a read gets the next chunk through its own open file and leaves all other open files alone |
| Readers.ReadInTurns | kernel/vfs/fd.cpp:81-100 | however ticks switch between threads of any processes, each reader gets its own file's bytes in its turns, as if it read alone |
| Readers.SwitchTurn | kernel/proc/scheduler.cpp:106-127 | a tick leaves every live reader's descriptor open on its file |
| Readers.BootAndShare | kernel/sys/initrd.cpp:92-206 | two processes boot on an archive, open any of its files and read them while ticks switch between them; every open file gives its own bytes |
| Descriptors.RunPaired | kernel/vfs/fd.cpp:29-79 | over any run of opens and closes by any processes local descriptors and open files correspond one to one |
| Descriptors.OpenedPaired | kernel/proc/proc.cpp:360-379 | opening keeps the correspondence exactly when the driver or a missing process refuses it, the table of open files has room, or the process's own table is full as well; otherwise the number leads nowhere |
| Descriptors.OpensOverflow | kernel/proc/proc.cpp:360-379 | after boot two processes can fill the table of open files, and the next open returns a number that leads nowhere |
| Descriptors.ClosedPaired | kernel/proc/proc.cpp:381-398 | closing keeps it and frees exactly one open file; a failed close changes nothing |
| Descriptors.CloseInvertsOpen | kernel/vfs/fd.cpp:29-79 | closing what was just opened succeeds exactly when the driver can close, and leaves both tables as they were |
| Descriptors.OpenSucceeds | kernel/vfs/fd.cpp:29-47 | an open gives a descriptor exactly when the process exists, the inode has a driver that opens, and the driver does not object |
| Descriptors.CloseSucceeds | kernel/vfs/fd.cpp:49-79 | a close succeeds exactly when the process is valid, the number leads to an open file, its inode has a driver that closes, and the driver does not object |
| Descriptors.ClosableLater | kernel/vfs/fd.cpp:49-79 | a number not closed since its open can be closed after any run of opens, closes, reads and writes, which frees exactly its own entries |
| Descriptors.NeverReused | kernel/proc/proc.cpp:369 | a process never gets the same local number twice |
| Conv.ComposeInteger | kernel/util/conv.cpp:30-147 | in bases 2 to 16 and with room, the buffer gets the printed text and a terminator; nothing beyond the width plus four bytes is ever written |
| Conv.RoundTrip | kernel/util/conv.cpp:53-146 | reading the printed text back gives the value exactly when it is not the most negative one, which reads as zero |
| Conv.PaddingLaw | kernel/util/conv.cpp:39-101 | behind the sign and `0b`, `0o` or `0x` come as many bytes as the value has digits or as the padding asks for, within 1 and the width of the type, if that is more; the surplus in front is zeros |
| Conv.BufferBound | kernel/util/conv.cpp:32-34 | the text and its terminator take at most four bytes more than the type has bits, and sometimes exactly that |
| Vector.StaysTight | include/tupai/util/vector.hpp:155-176 | pushing and popping keep the capacity a power of two, at least the size and less than twice it |
| Vector.ShrinkLeavesFull | include/tupai/util/vector.hpp:172-173 | a pop that gives storage back leaves the vector exactly full |
| Vector.HistoryStaysTight | include/tupai/util/vector.hpp:155-176 | over any history storage stays tight |
| Vector.Thrashing | include/tupai/util/vector.hpp:155-176 | alternating pushes and pops reallocate every time when the vector is full, a new one included, and never otherwise |
| Vector.Vec.Push | include/tupai/util/vector.hpp:155-162 | the contents gain the item at the end; capacity doubles when full |
| Vector.Vec.Pop | include/tupai/util/vector.hpp:164-176 | the last item is returned and removed; capacity halves at half use; an empty vector panics |
| Vector.Vec.Resize | include/tupai/util/vector.hpp:132-143 | the contents survive a move to fresh storage |
| Vector.Vec.Copy | include/tupai/util/vector.hpp:44-61 | equal contents in storage of its own |
| Spinlock.MutualExclusion | kernel/x86/amd64/util/lock.s:25-47 | for any number of threads and any interleaving at most one holds the lock, the word is 1 exactly when one does, and no two calls of `create_inode` return the same identifier |
| Spinlock.CreateInodeReturns | kernel/vfs/vfs.cpp:229-243 | on a free lock a call hands out the counter's value, raises it by one, enters the inode and frees the lock |
| Spinlock.NoCallIsLost | kernel/x86/amd64/util/lock.s:25-47 | over any interleaving every call of `create_inode` that began has returned an identifier or is still under way |
| Spinlock.RunIsGood | kernel/x86/amd64/util/lock.s:25-47 | in every reachable state a thread about to exchange, at first or again, exchanges a 1, and the holder's identifier is not yet handed out |
| Spinlock.CreateInodeReleases | kernel/vfs/vfs.cpp:229-243 | a call that has the lock gives it back within five of its own steps |
| Spinlock.GivenBack | kernel/util/spinlock.cpp:30-49 | a holder that takes five steps gives the lock back exactly when it is in `create_inode` |
| Spinlock.HoldersCall | kernel/util/spinlock.cpp:30-49 | every holder is in exactly one of `create_inode` and `is_locked` |
| Spinlock.IsLockedNeverReturns | kernel/util/spinlock.cpp:30-39 | from its first step on the call never returns, whatever the schedule |
| Spinlock.IsLockedKeepsLock | kernel/util/spinlock.cpp:30-39 | once the call has the lock, nobody gets it any more and no identifier is handed out |
| Spinlock.OneCallBlocksAll | kernel/util/spinlock.cpp:30-39 | three steps of one thread after boot are enough for that |

## Left out

- Device drivers, port I/O, interrupt controllers, descriptor tables, the console: hardware plumbing.
- The assembly of `scheduler_bootstrap_task` and of the interrupt stubs: a dispatch is the event of entering
  a thread at its entry with its stack, or with its saved stack pointer.
- `hwlock_t`: each call into the scheduler or the process tables is one atomic step.
- `mutex_t`, `fifo_t` and the system calls that would use them, which the source comments out.
- System call numbers and arguments, `stdio.cpp`, the shell, logging, the text of panics.
- Names, directories and states of processes, owners, modes and times of inodes: no modelled code reads them.
- Stack blocks, destructors and the allocator behind `new`: a stack block's address is a parameter.
- Wrapping of the 64-bit counters that hand out identifiers.
- The memory in which tables start: `used` is taken to be false in every new table.
- `pool_display`, `table_t`, `kthread.hpp`, the Multiboot walk, `arch_kernel_alloc` and the ARM port.
- Pool.MemoryPool.Alloc: with blocks of a single byte, requests that reach round the top of memory are left out, for which the end of the inner loop wraps and the source writes outside its map.
- Pool.MemoryPool.Dealloc: aligned pointers outside the pool are left out, for which the source reads outside its map.
- Pools whose computed body would pass the top of memory can be constructed but are not allocated from.
- Conv.ComposeInteger: base 1 is left out for values other than zero, on which the source does not return.
- VirtualFs.Vfs.Mount: paths without an element are left out, for which the source counts from the largest `size_t`.
- Tar.WalkReads: names of 100 bytes, the ustar prefix field and checksums are left out; the source does not handle them.
- Ramdisk.Driver.ReadCall: buffers of zero bytes are left out, into which the source still writes a terminator.
- FileCalls.FdRead: drivers other than the ramdisk's are left out; opening and closing take the driver's result as a parameter.
- The hashtables inside the process, thread, inode and descriptor tables are finite maps with a capacity; `HashTable.TableRefinesMap` and `HashTable.UpdateRefines` are what justifies that.
- The vectors of children are sequences; `Vector.Vec.Push` is what justifies that.
