# Verification of the min-os kernel's stateful algorithms

This Dafny project models the parts of min-os whose guarantees span many calls: page tables with copy on write, the
FAT32 file system, task scheduling with waiting, pipes and timers, the xHCI transfer rings, the window compositor, and
the DEFLATE decoder in the image viewer. `dafny verify dfyconfig.toml` checks everything.

Code that changes state is a class or a method with loops, proved against a specification on values. The lemmas about
those specifications carry the results.

**Memory and address spaces.** Physical memory is a map from frames to pages of 512 words, and page tables are pages
like any other. A ghost map records which frame holds which place of which address space; it says nothing the tables
do not say, and its inverse makes double use of a frame impossible. `AppModel` is the intended meaning: every
application has private pages, eagerly copied from the image of its file. `Apps.AppManager.Run` shows that loading,
page faults, system calls and exits on the shared read-only tables give exactly that, for every sequence of operations
of any tasks, and that a run leaves the frames in use as they were apart from those of the tasks that acted in it and of
the images that it cached. `AppReads` says what the tasks of such a run read: the word they stored there last, and
otherwise the one that loading or mapping brought in. `AppRuns.Isolation` adds that no task can observe another, and `FileMaps` says where mapped
files lie and what is read there.

**Files.** The allocation table, the data of the clusters and the directory slots of the clusters are arrays; chains
are sequences of cluster numbers. `FatChains` and `FatContents` say what chains and their bytes are,
`FatDescriptor` models descriptors, and `FatRoundTrip` states the round trip of writing and reading. `MappedFiles`
turns the bytes of a descriptor into the words of a mapped page. A write that adds
more than one cluster to an existing chain puts the rest in the wrong cluster, because `ExtendCluster` returns the last
cluster of the extension and `Write` takes it for the next one. `FatDescriptor.FileDescriptor.Write` says exactly when
that happens and what the file then holds. `FatNames`, `FatDirectory` and `FatPaths` cover names, paths and creation:
which names are found as they are stored, and for which paths a created file is found again; `FatFiles` goes from a path
to the bytes written there. A comparison that lets the
extension overwrite a long base, and a search that starts again at the root after an empty element, make both partial.

**Tasks.** `Scheduler` describes the task manager as a step system whose steps are atomic, because the callers disable
interrupts; `TaskManager` implements each step. The branch of `ChangeLevelRunning` for a task that is not at the front
forgets to store the new level; the steps use the default level as all callers do, and `ChangeLevelKeeps` and
`WakeAtKeeps` say exactly when an explicit level is harmless. `TaskAfter` and `CodesWait` say what each step does to
tasks and exit codes, and `StaysAwake` that no task that sleeps only with an empty queue sleeps over a message. `Pipes`
and `Timers` are built on the task manager.

**Rings.** A driver and a controller that share nothing but a ring of transfer request blocks and their cycle bits
behave like a queue. The controller's side follows sections 4.9.2 to 4.9.4 of the xHCI specification. Nothing tells the
driver whether the controller has gone past the link: a controller that always does so at once can be given `size - 1`
entries, one that may wait there only `size - 2`.

**Compositor.** A scene is the views of the layers from bottom to top, and its meaning is the color that painting them
in order gives each point. Transparent windows are drawn as a whole, whatever the area, so that a scene must be clear:
no opaque layer hides another color of a transparent one below. One transparent layer on top always is.
`Layers.LayerManager.Right` says that the scene is clear and the screen and the back buffer show it: each partial redraw
keeps or restores that.

**DEFLATE.** `CanonicalCodes` defines the codes of section 3.2.2 of RFC 1951 and the order of their bits in a stream,
independently of the tables. `Huffman` builds the tables and decodes with them; `Inflate` decodes a block, reserved
symbols included: a reserved length symbol stands for a match of length 0, and a reserved distance symbol for distance 0,
where the decoder copies whatever its memory held. Behind the end of the input it reads zeros, so that its loop need not
end; `Inflate.LoopEndsIff` says for which codes it always does.

## Model

| member | source | states |
|---|---|---|
| MemoryMap.SortMemoryMapInPlace | kernel/memory_map.hpp:63-77 | the exchange sort leaves the same descriptors, ascending by start |
| MemoryManager.BitmapMemoryManager.SetBit | kernel/memory_manager.cpp:18-27 | exactly one frame's state changes in the set the bitmap stands for |
| MemoryManager.BitmapMemoryManager.MarkAllocated | kernel/memory_manager.cpp:29-33 | exactly the frames of the run become used |
| MemoryManager.BitmapMemoryManager.Allocate | kernel/memory_manager.cpp:50-71 | the lowest run of free frames in the managed range becomes used; it fails exactly when there is no such run, and then changes nothing |
| MemoryManager.BitmapMemoryManager.Free | kernel/memory_manager.cpp:73-78 | exactly the frames of the run become free |
| MemoryInit.MarkAllFree | kernel/memory_manager.cpp:107-142 | on a sorted map of disjoint descriptors the marking loop leaves free exactly the frames that available descriptors cover |
| MemoryInit.InitializeMemoryManager | kernel/memory_manager.cpp:104-150 | for descriptors in any order, a managed frame is free iff an available descriptor covers it and the heap does not use it; start-up fails iff no free run is large enough for the heap |
| PageTables.WalkIsLeaf | kernel/paging.hpp:27-75 | the four-level walk of the processor finds exactly the last-level entry that the tree of an address space has for the page |
| PageTables.NextEntry | kernel/paging.cpp:89-92 | stepping one part of an address and clearing the lower ones gives the first page below the next entry, and the end of the table's range after the last |
| PageGrowth.MapsJoin | kernel/paging.cpp:62-93 | mapping a range and then the range after it maps both together, with no other effect |
| PageGrowth.AddChildSound | kernel/paging.cpp:43-57 | hanging a free frame below an empty entry keeps all address spaces trees over disjoint frames and maps at most that one page |
| AddressSpace.PagingUnit.SetNewPageMapIfNotPresent | kernel/paging.cpp:43-57 | a present entry keeps its child and nothing changes; otherwise the child is a frame that was free, zeroed, and only this entry points to it |
| AddressSpace.PagingUnit.SetupPageMap | kernel/paging.cpp:59-95 | exactly the pages up to the end of the table's span are mapped, present ones keeping their frame, new ones zeroed in frames of their own, with the requested right; the count returned is what did not fit; failure means no free frame |
| PageCopy.CopiesJoin | kernel/paging.cpp:231-245 | copying a range of pages and then the next shares both with the copy, read-only, and owns none of them |
| AddressSpace.PagingUnit.CopyPageMaps | kernel/paging.cpp:216-247 | every page of the source from the start entry on is visible at the same place and read-only, tables are fresh, no page is owned twice, every other translation stays |
| PageClean.CleansJoin | kernel/paging.cpp:98-118 | tearing down a range and then the next removes exactly the places of both |
| AddressSpace.PagingUnit.CleanPageMap | kernel/paging.cpp:97-121 | exactly the tables and owned pages from the address to the end of the span disappear, each frame freed once, borrowed frames not freed, other spaces and frames unchanged |
| AddressSpace.PagingUnit.SetPageContent | kernel/paging.cpp:126-138 | only the last-level entry on the path of the address is redirected and becomes writable |
| AddressSpace.PagingUnit.CopyOnePage | kernel/paging.cpp:141-153 | a borrowed page moves to a frame that was free with the same contents, writable, nothing else visible; failure changes nothing and means no free frame |
| CopyOnWrite.WritableFrameUnshared | kernel/paging.cpp:141-153 | a frame behind a writable entry has exactly one entry pointing at it, in all applications and templates together |
| CopyOnWrite.MapWritableShares | kernel/paging.cpp:71-73 | mapping writable pages in an application keeps the sharing invariant if and only if none of the pages was borrowed |
| CopyOnWrite.MapTemplateShares | kernel/terminal.cpp:97-99 | loading segments read-only keeps the sharing invariant |
| CopyOnWrite.CopyShares | kernel/terminal.cpp:184-191 | a new application that shares a template sees exactly what the template holds |
| CopyOnWrite.TakeShares | kernel/paging.cpp:250-258 | copy on write changes what no space sees, and the page is writable afterwards |
| CopyOnWrite.WriteShows | kernel/paging.cpp:250-258 | a write to an owned page changes that page of that space and no page of any other |
| SpaceLifecycle.ExitFrames | kernel/terminal.cpp:611-615 | cleaning a user half and freeing the root frees exactly the frames of that space, and every other space keeps its own |
| SpaceLifecycle.ExitPages | kernel/terminal.cpp:611-615 | an exit changes no entry, page or kernel half of any other space |
| Apps.AppManager.SetupPML4 | kernel/terminal.cpp:123-136 | the new root is a free frame with the kernel half of the current root and an empty user half, and becomes current |
| Apps.AppManager.CopyLoadSegments | kernel/terminal.cpp:85-107 | the image under construction holds exactly the words of the segments over zeros, and the highest end is returned |
| Apps.AppManager.CloneTemplate | kernel/terminal.cpp:184-191 | the task sees the cached image, and every other space keeps its frames |
| Apps.AppManager.LoadApp | kernel/terminal.cpp:174-221 | the task sees the image of its file, loaded now or cached before; nothing else changes |
| Apps.AppManager.StartApp | kernel/terminal.cpp:560-594 | the system makes the step that starts an application with eagerly copied pages, stack and argument page |
| Apps.AppManager.PreparePageCache | kernel/paging.cpp:169-183 | the page appears with the file's words at its offset, then zeros; `MappedFiles.FillPage` gets them through the file's descriptor |
| Apps.AppManager.HandlePageFault | kernel/paging.cpp:250-271 | a write fault on a borrowed page makes it private and is otherwise invisible; an absent page is filled as its demand range or mapping says; every other fault is refused and changes nothing |
| Apps.AppManager.UserRead | kernel/paging.cpp:250-271 | a load instruction, with the fault it may cause, reads what private memory would hold |
| Apps.AppManager.UserWrite | kernel/paging.cpp:250-271 | a store instruction, with up to two faults, changes the task's memory as private memory would change |
| Apps.AppManager.DemandPagesCall | kernel/syscall.cpp:371-381 | the demand range grows by the pages asked for and its old end is returned |
| Apps.AppManager.MapFileCall | kernel/syscall.cpp:384-406 | the mapping lies below the earlier ones, rounded down to a page, and becomes part of the task's mappings |
| Apps.AppManager.ExitApp | kernel/terminal.cpp:611-615 | exactly the task's frames become free, each freed once while in use, no other space loses or changes a frame |
| Apps.AppManager.Execute | kernel/terminal.cpp:560-616 | each operation on shared page tables is one step of the private-memory system with the same outcome, and leaves the frames of unconcerned spaces alone |
| Apps.AppManager.Run | kernel/terminal.cpp:560-616 | every run gives the outcomes and the memories of eager private copies; memory exhaustion is the only other end; the frames in use apart from those of the acting tasks and of the images cached in the run are the same after the run; once these tasks have exited only these images have been added, and nothing if every file was cached before, whatever applications stay alive |
| AppRuns.Isolation | kernel/paging.cpp:141-153 | in every run in which a file's segments are those on disk, what a task observes and ends with is what it would be if no other task had done anything, first loads included |
| AppRuns.AloneOrNot | kernel/terminal.cpp:174-221 | the same for one system: a task run among others or alone |
| AppReads.StoreThenLoad | kernel/paging.cpp:250-271 | a store that is done is read back by its task at its own word, and no other word of any task changes; it faults exactly where a load does, and then changes nothing |
| AppReads.LoadsLastStored | kernel/paging.cpp:250-271 | in every run, a load gives the word that the task stored there last since it started, and otherwise that of its image, of a mapped file, or zero in its stack and its demand-paged range; it faults nowhere else |
| AppReads.LoadedWord | kernel/terminal.cpp:85-107 | loading gives exactly the pages the segments reach into, and each word is that of the last segment that has one at its address, zero behind the words of the file and where no segment has one |
| AppReads.StartedWord | kernel/terminal.cpp:174-221 | a task just started reads its image, cached or just loaded, and zeros in its stack and arguments page |
| AppReads.StartLayout | kernel/terminal.cpp:560-594 | the demand-paged range begins, empty, at the first page behind all segments; no file is mapped |
| AppReads.DemandedPages | kernel/syscall.cpp:371-381 | from the page returned on, as many pages as were asked for can be used, zeroed |
| AppReads.MappedRead | kernel/syscall.cpp:384-406 | from the page returned on, the words of the file are read in order, then zeros |
| AppReads.ExitEnds | kernel/terminal.cpp:611-615 | an exit removes the task, and what the others read stays |
| FileMaps.RunsStack | kernel/syscall.cpp:398-405 | in every state of every run each mapping has as many pages as its file needs and ends where the one before begins |
| FileMaps.StackedApart | kernel/syscall.cpp:398-405 | mappings of a task lie below its stack and do not overlap |
| FileMaps.MappedWord | kernel/paging.cpp:159-183 | a first read in a mapping gives the word of the file at that offset, or zero behind its end |
| MappedFiles.LoadedPage | kernel/paging.cpp:179-181 | the bytes from a page's offset on, read over a zeroed page, are the page that a mapping of the file has there |
| MappedFiles.PagesNeeded | kernel/syscall.cpp:401 | counted in bytes or in words a file needs the same number of pages |
| MappedFiles.FillPage | kernel/paging.cpp:169-183 | for every page of a mapping, loading through a descriptor, cluster by cluster, gives the page of the mapping |
| MappedFiles.BytesBack | kernel/paging.cpp:179-181 | each byte of the file is in its word of the mapping, the lowest byte first, and zeros follow the last one |
| FatChains.ChainUnique | kernel/fat.cpp:70-76 | a chain is decided by its first cluster |
| FatChains.ExtendChain | kernel/fat.cpp:146-170 | extending by `n` appends `n` different clusters that were free, the lowest ones; every other chain stays, apart from it, and exactly `n` entries fewer are free |
| FatVolume.Volume.ExtendCluster | kernel/fat.cpp:146-170 | from any cluster of a chain the chain is extended, and the last cluster of the new chain is returned |
| FatChains.SearchLeavesTable | kernel/fat.cpp:154-165 | the search for free entries passes the last entry of the table, before it has linked `n` clusters, if and only if fewer than `n` are free; it has linked all of these then |
| FatVolume.Volume.AllocateClusterChain | kernel/fat.cpp:255-271 | a chain of the lowest free clusters, at least one; every other chain stays, apart from it |
| FatContents.ReadChunk | kernel/fat.cpp:288-290 | bytes of one cluster are the bytes of the chain at that place |
| FatContents.WriteChunk | kernel/fat.cpp:338-340 | overwriting bytes of one cluster overwrites exactly those bytes of the chain |
| FatDescriptor.FileDescriptor.Read | kernel/fat.cpp:279-302 | the next bytes of the file, as many as asked for and there are, over any number of clusters |
| FatDescriptor.FileDescriptor.Load | kernel/fat.cpp:351-367 | the slice of the whole file at the offset |
| FatDescriptor.FileDescriptor.Write | kernel/fat.cpp:305-348 | every other chain keeps its bytes; the place for the next write stays right if and only if at most one cluster is added to an existing chain; then the file is its old bytes and the new ones, and otherwise the bytes behind the old end are what the lowest free cluster held |
| FatFile.WriteEnds | kernel/fat.cpp:325-343 | the end of a write matches the offset if and only if the chain was extended by one cluster at most, and what the chain holds in either case |
| FatFile.TwoClusterWriteFails | kernel/fat.cpp:330 | a state at the end of a write of two clusters to a full one-cluster file does not hold the bytes written; `FatRoundTrip.WriteAndReadBack` has the call |
| FatRoundTrip.WriteAll | kernel/fat.cpp:305-348 | a first write of any length and later ones of at most a cluster leave a file that holds them one after the other |
| FatRoundTrip.ReadAll | kernel/fat.cpp:279-302 | reads of any sizes give the file's bytes in order |
| FatRoundTrip.WriteThenRead | kernel/fat.cpp:279-348 | writing to an empty file and reading through a fresh descriptor gives the bytes written, the size is their number, every other chain keeps its clusters and bytes |
| FatRoundTrip.WriteAndReadBack | kernel/fat.cpp:279-348 | one write anywhere and a full read: the old bytes and the new ones if at most one cluster is added to an existing chain; otherwise the old contents of the lowest free cluster appear behind the old end, and bytes appended to a full file are lost unless they happen to be the same |
| FatFiles.CreateWriteRead | kernel/fat.cpp:213-367 | creating a file by a path, writing it through the new entry, and reading where the same path leads then gives the bytes written; the entry has their number as its size, and the directories are as they were after the creation |
| FatNames.SetFileName | kernel/fat.cpp:196-211 | the entry gets the stored form of the name, by its last dot |
| FatNames.NameIsEqual | kernel/fat.cpp:112-126 | the entry matches iff its name is the search form of the path element |
| FatNames.StoredIsSearched | kernel/fat.cpp:112-126 | a name is looked for as it is stored if and only if: without a dot, only blanks follow the first eight characters among the first eleven; with one dot, it ends a base of at most eight characters, or what it covers of a longer base is blank, or the extension repeats the surplus of the base; with several, the first one is beyond the base, and either the first three characters there without a dot between them repeat the last extension, or there are none before it and what earlier segments leave in the places of a shorter extension is blank |
| FatNames.LongNameIsLost | kernel/fat.cpp:207-209 | every name without a dot is stored so that it is never found exactly if a character that is not blank follows the first eight, among the first eleven |
| FatNames.OrdinaryIsFindable | kernel/fat.cpp:196-211 | a base of at most eight characters and at most one dot are always found |
| FatNames.OrdinaryForm | kernel/fat.cpp:196-211 | base and extension are stored and looked for in their eight and three places, filled up with blanks, each character up to its case |
| FatNames.CaseIgnored | kernel/fat.cpp:112-126 | names that differ in case only are stored and looked for alike, and no lower-case letter is stored |
| FatDirectory.InsertKeepsTail | kernel/fat.cpp:173-194 | nothing comes to follow the first slot never used, even when the directory grows by a cluster |
| FatDirectory.DeletedIsReused | kernel/fat.cpp:173-194 | the slot taken is the first one that was never used or whose entry was deleted |
| FatDirectory.InsertFound | kernel/fat.cpp:78-110 | a new name is found where its entry was put |
| FatDirectory.InsertOthers | kernel/fat.cpp:78-110 | every other plain name of the directory leads where it led before |
| FatDirectory.ResolveAfterCreate | kernel/fat.cpp:213-250 | after a creation every path leads where it led before, or led nowhere and leads to the new entry |
| FatDirectory.CreateThenFind | kernel/fat.cpp:213-250 | for every plain path: after a creation the same path leads to the new entry if and only if the name is looked for as it is stored, and the directory part is empty, or leads to an entry with the directory attribute and does not end in an empty element unless that directory is the root |
| FatDirectory.CreateInRootThenFind | kernel/fat.cpp:213-250 | in the root, with or without a slash before the name, only the name decides |
| FatDirectory.ResolveJoin | kernel/fat.cpp:78-110 | every path followed by one more element: nowhere stays nowhere, a file stays that file, and in a directory the element is looked up, but in the root if an empty element ended the path |
| FatDirectory.ResolveRestarts | kernel/fat.cpp:79-85 | every path leads where its part after the last empty element leads from the root, unless an element before is missing or a file |
| FatDirectory.RestartOfJoin | kernel/fat.cpp:79-85 | what is left of a path after its last empty element, by its directory part |
| FatDirectory.TrailsByParity | kernel/fat.cpp:79-88 | an empty element ends a path exactly when an odd number of slashes does, or an even one if there is nothing else |
| FatDirectory.DoubleSlashRestarts | kernel/fat.cpp:213-250 | a file created under a directory and two slashes is found by that path if and only if that directory is the root and the name is looked for as it is stored |
| FatDirectory.FileAsParent | kernel/fat.cpp:231-237 | if the directory part leads to a file, the new entry goes to the clusters of that file and the path leads to the file |
| FatDirectory.CreatesInDirectory | kernel/fat.cpp:231-237 | the new entry goes to a directory if and only if the directory part is empty or leads to an entry with the directory attribute and a first cluster |
| FatPaths.SearchDirectory | kernel/fat.cpp:90-106 | the first entry of the directory's chain with that name before an unused slot, or none |
| FatPaths.FindFile | kernel/fat.cpp:78-110 | the entry that the path leads to, directory by directory, and whether a slash followed |
| FatPaths.AllocateEntry | kernel/fat.cpp:173-194 | the first unused or deleted slot, or the first slot of a zeroed cluster added to the chain |
| FatPaths.CreateFile | kernel/fat.cpp:213-250 | the two errors occur exactly for a path ending in a slash and a directory that is not found, and change nothing; otherwise the chain that the path names, of a directory or of a file taken for one, gets the entry in its first usable slot, and no other chain changes; in a directory all directories stay in order; the slot then holds the stored name, no cluster, size 0 and attribute 0 |
| Scheduler.StepKeeps | kernel/task.cpp:138-206 | every step keeps each running task in exactly one queue, once, at its level, sleeping ones in none, the current queue non-empty, and the current level the highest in use unless a change is noted |
| Scheduler.RotateKeeps | kernel/task.cpp:138-160 | after a rotation the current level is the highest in use and no change is noted |
| SchedulerRuns.StepKeepsWaits | kernel/task.cpp:234-265 | every step keeps each task asleep in `WaitFinish` registered for a task that has not finished |
| SchedulerRuns.FinishKeepsWaits | kernel/task.cpp:234-250 | finishing makes the waiter runnable and keeps the code |
| SchedulerRuns.WaitKeepsWaits | kernel/task.cpp:252-265 | a pass of `WaitFinish` takes the code given to `Finish`, which is then gone, or sleeps registered |
| SchedulerRuns.RunsAreSafe | kernel/task.cpp:111-265 | from the start, over every run, the queues are in order, no sleeping waiter waits for a finished task, and whoever it waits for will wake it |
| SchedulerRuns.ExitsStay | kernel/task.cpp:242 | the code of a finished task never changes |
| SchedulerRuns.CodesWait | kernel/task.cpp:234-265 | an exit leaves its code, which stays until a task waits for it |
| SchedulerRuns.TaskAfter | kernel/task.cpp:63-80 | what every step does to every task: its level stays, it runs exactly if it is woken or ran and is not put to sleep, and a message sent to it comes last and one received was first |
| SchedulerRuns.WhoRuns | kernel/task.cpp:188-206 | after every step exactly the running tasks are in the queue of their level |
| SchedulerRuns.StepKeepsAwake | kernel/task.cpp:63-66 | a step leaves a task asleep over a message if and only if it puts it to sleep while messages wait |
| SchedulerRuns.StaysAwake | kernel/task.cpp:63-66 | in every run in which a task goes to sleep only with an empty queue, no message finds or leaves it asleep |
| SchedulerRuns.StepMovesUp | kernel/task.cpp:138-206 | whatever happens, a task that stays runnable does not move back in its queue, and moves up when the queue turns |
| SchedulerRuns.BoundedWaiting | kernel/task.cpp:138-206 | a runnable task at position `i` comes first by the time its queue has turned `i` times |
| SchedulerRuns.ChangeLevelKeeps | kernel/task.cpp:269-292 | changing a running task's level keeps the queues in order if and only if the task is current or its level does not change |
| SchedulerRuns.WakeAtKeeps | kernel/task.cpp:188-206 | waking with a level keeps the queues in order exactly outside that case |
| TaskManager.TaskManager.constructor | kernel/task.cpp:111-122 | the main task at the highest level and the idle task at the lowest are the initial state of the step system |
| TaskManager.TaskManager.NewTask | kernel/task.cpp:124-127 | a sleeping task with a number never used before |
| TaskManager.TaskManager.RotateCurrentRunQueue | kernel/task.cpp:138-160 | the loops over queues and levels compute the rotation |
| TaskManager.TaskManager.SwitchTask | kernel/task.cpp:129-136 | the timer's step; afterwards no higher queue has a task |
| TaskManager.TaskManager.Sleep | kernel/task.cpp:162-175 | a task that runs leaves its queue, by a rotation if it is current |
| TaskManager.TaskManager.Wakeup | kernel/task.cpp:188-206 | a sleeping task joins its queue, a running one changes level as the source does |
| TaskManager.TaskManager.ChangeLevelRunning | kernel/task.cpp:269-292 | both branches, including the missing update of the level |
| TaskManager.TaskManager.SendMessage | kernel/task.cpp:219-228 | the message comes last in the queue of the task, which then runs and is in the queue of its level, or the task is reported missing |
| TaskManager.TaskManager.Finish | kernel/task.cpp:234-250 | the step of an exit: every task waiting for the current one is runnable afterwards |
| TaskManager.TaskManager.WaitFinishPass | kernel/task.cpp:252-265 | one pass returns the code that the task finished with and consumes it, or the caller sleeps while that task exists |
| Pipes.PipeDescriptor.Write | kernel/terminal.cpp:898-911 | all bytes join the stream in order, in messages of at most 16 bytes, and the reader can run if there were any |
| Pipes.PipeDescriptor.FinishWrite | kernel/terminal.cpp:913-919 | the stream ends after what was written, and the reader can run |
| Pipes.PipeDescriptor.Read | kernel/terminal.cpp:859-896 | what was read is always a prefix of what was written; no bytes for a non-empty request means that writing has finished and everything was read; a blocked reader has read everything so far |
| Pipes.PipeDescriptor.UnreadIsAwake | kernel/terminal.cpp:859-896 | a reader for which bytes or the end are waiting is not asleep, if it never sleeps but in `Read` |
| Pipes.OthersKeepFlow | kernel/terminal.cpp:872-883 | steps of other tasks and messages of other kinds do not disturb the stream |
| Timers.TimerManager.Tick | kernel/timer.cpp:55-80 | the loop ends; every due ordinary timer is delivered once, earlier ones first, only later ones are left, none is lost, the task timer is reported iff it was due and armed again; each receiver has its message and can run |
| Timers.NotifiedTasks | kernel/timer.cpp:72-77 | every task gets the timeouts and values of its own timers, in order, and can run if there was one |
| Timers.TimerManager.OnInterrupt | kernel/timer.cpp:85-91 | a tick, then a switch of tasks exactly when the task timer was due |
| Timers.TaskTimerPeriod | kernel/timer.cpp:65-70 | the task timer is due exactly at its tick and then 20 ticks later |
| Timers.DeliveredOnTime | kernel/timer.cpp:59-63 | a timer set for the future is delivered at its own tick |
| Timers.RunTimers | kernel/timer.cpp:51-80 | in any run of setting timers and ticks, every ordinary timer is delivered as often as it was set, each time at its own tick or, when that was over, at the next one, in the order of timeouts within a tick; what is left is what is due later, and the messages are sent in this order; the task timer, set once, is reported exactly in every twentieth tick |
| Rings.PushSynced | kernel/usb/host/xhci/xhci.cpp:258-272 | a push adds at the end of the queue that the cycle bits stand for, across the link too |
| Rings.TakeSynced | kernel/usb/host/xhci/xhci.cpp:189-200 | by cycle bits alone the consumer finds the oldest entry, or nothing exactly when the queue is empty |
| Rings.ProducerRing.Push | kernel/usb/host/xhci/xhci.cpp:258-295 | one more entry, with the driver's fields and cycle bit, while less than `size - 1` are outstanding |
| Rings.ConsumerRing.Take | kernel/usb/host/xhci/xhci.cpp:184-200 | a controller that follows a link at once gets the oldest entry, if any |
| Rings.RunRing | kernel/usb/host/xhci/xhci.cpp:258-295 | over any run and any number of wraps that controller sees what a queue of capacity `size - 1` would give |
| Rings.PushLagging | kernel/usb/host/xhci/xhci.cpp:266-272 | for a controller that may stand at the link: a push into a ring with room breaks the agreement if and only if it stands there with `size - 2` entries outstanding, and then the link is no longer its own |
| Rings.LazyConsumer.Take | kernel/usb/host/xhci/xhci.cpp:184-200 | a controller that follows the link now or on a later take gets the oldest entry, if any; a slot that was not handed over stops it and changes nothing |
| Rings.RunLazily | kernel/usb/host/xhci/xhci.cpp:258-295 | over any run that controller sees what a queue of capacity `size - 2` would give |
| Rings.FillAtTheLink | kernel/usb/host/xhci/xhci.cpp:258-276 | a run with a queue of capacity `size - 1` in which it never sees any of the `size - 1` entries outstanding, however often it looks |
| Rings.EventRing.WaitEvent | kernel/usb/host/xhci/xhci.cpp:297-324 | the first waiting event that is not a port-status event; those before it are consumed |
| Rings.RunEvents | kernel/usb/host/xhci/xhci.cpp:297-324 | over any run the driver gets every posted event that is not a port-status event, in order |
| Graphics.AndHas | kernel/graphics.hpp:55-67 | a point is in the intersection iff it is in both rectangles, for any sizes |
| FrameBuffers.FrameBuffer.Copy | kernel/frame_buffer.cpp:58-88 | exactly the points of the area that lie in both buffers get the shifted pixel; another format is refused without a change |
| FrameBuffers.FrameBuffer.Move | kernel/frame_buffer.cpp:90-111 | overlapping rectangles included, exactly the destination gets the old pixels of the source |
| Windows.Window.Write | kernel/window.cpp:98-101 | one pixel in both buffers, which stay equal |
| Windows.Window.DrawTo | kernel/window.cpp:61-84 | an opaque window shows within the area and a transparent one everywhere its color is not the transparent one; all other pixels stay |
| Composition.SuffixRepaints | kernel/layer.cpp:97-111 | where a layer shows, drawing it and those above gives the whole scene |
| Composition.DrawKeepsPoint | kernel/layer.cpp:94-112 | for any stack: drawing the layers from one up over a right color keeps it right inside the area, and outside if and only if the topmost color these transparent layers show there, if any, is the color of the scene |
| Composition.OneIsClear | kernel/window.cpp:61-84 | one transparent layer on top of opaque ones never has anything else to show than the scene |
| Composition.MovePoint | kernel/layer.cpp:114-121 | for any two scenes that differ in the place of one layer: both draws leave both buffers right at a point if and only if the transparent layers drawn there are clear, by which of the two areas it lies in |
| Repaints.FullRepaint | kernel/layer.cpp:83-88 | the reference: repainting an area as large as the screen shows the scene, whatever was there |
| Repaints.MoveShows | kernel/layer.cpp:114-121 | in clear scenes the two partial draws of a move show the new scene everywhere |
| Repaints.RestackShows | kernel/layer.cpp:231-253 | after a change of height in either direction, or an appearance, drawing the layer and those above is enough |
| Repaints.DisappearShows | kernel/layer.cpp:315-331 | after a removal, repainting the old area is enough |
| Repaints.RedrawPoint | kernel/layer.cpp:94-112 | after new window contents, drawing the changed part is right at every clear point except where a pixel vanished and nothing above it shows, which keeps its old color |
| Repaints.RedrawShows | kernel/layer.cpp:94-112 | if no pixel vanished, drawing the changed part shows the new scene |
| Repaints.TwoTransparentFail | kernel/layer.cpp:83-121 | a scene that does not meet the condition: with a transparent layer below an opaque window, moving the pointer leaves a wrong pixel |
| Layers.LayerManager.Draw | kernel/layer.cpp:83-88 | all layers are painted within the area; a right screen stays right, and a large enough area makes it right |
| Layers.LayerManager.DrawLayer | kernel/layer.cpp:90-112 | the layer's part of the area is painted with the layers above it; for a layer not in the stack some part of the back buffer goes to the screen |
| Layers.LayerManager.WriteAndDraw | kernel/layer.cpp:94-112 | after writing pixels of its window at points of an area given within the window, drawing that area of the layer makes a right screen right again, unless a pixel of a transparent window vanished |
| Layers.LayerManager.Move | kernel/layer.cpp:114-121 | only that layer's place changes, and a right screen is right again |
| Layers.LayerManager.MoveRelative | kernel/layer.cpp:123-130 | the same, by a distance |
| Layers.LayerManager.UpDown | kernel/layer.cpp:132-156 | the layer is at the height asked for, as far as there is one, the others keep their order; a negative height hides it |
| Layers.LayerManager.Hide | kernel/layer.cpp:158-164 | the layer is gone from the stack, the others keep their order |
| Layers.LayerManager.Raise | kernel/layer.cpp:243-250 | the layer ends directly below the mouse layer, and a right screen is right again |
| Layers.LayerManager.Close | kernel/layer.cpp:315-331 | the layer is gone, and a right screen is right again; an unknown one is reported and changes nothing |
| Layers.LayerManager.FindLayerByPosition | kernel/layer.cpp:166-185 | the topmost layer at the point other than the excluded one, or none |
| BitReverse.ReverseReads | apps/gview/stb_image.h:3952-3967 | the mask-and-shift swaps give the number whose bits are read in stream order |
| CanonicalCodes.PrefixFree | apps/gview/stb_image.h:3983-3994 | at most one codeword is at the front of a stream |
| CanonicalCodes.CodesOrdered | apps/gview/stb_image.h:3980-3994 | codes of one length are consecutive in the order of the symbols, and longer codes come after all extensions of shorter ones |
| CanonicalCodes.ExampleCodes | apps/gview/stb_image.h:3980-3994 | the codes of the example in section 3.2.2 of RFC 1951 |
| CanonicalCodes.KraftIffCodesFit | apps/gview/stb_image.h:3984-3994 | the Kraft sum is at most 1 iff no length runs out of codes |
| CanonicalCodes.FrontIffBelowEnd | apps/gview/stb_image.h:4066-4069 | a codeword of at most `s` bits is at the front iff the bits read are below the end of the codes of that length |
| HuffmanTables.FastFinds | apps/gview/stb_image.h:4003-4009 | the fast table holds exactly the symbol with a short codeword at the front |
| HuffmanTables.SlowFinds | apps/gview/stb_image.h:4061-4077 | the first range not exceeded holds the symbol at the front |
| HuffmanTables.EncodedAtFront | apps/gview/stb_image.h:4079-4091 | the codeword of every symbol, followed by anything, is at the front |
| Huffman.ZHuffman.Build | apps/gview/stb_image.h:3969-4014 | lengths up to 15 are accepted iff their Kraft sum is at most 1, and then the tables decode their canonical code |
| Huffman.ZBuf.Receive | apps/gview/stb_image.h:4051-4059 | the next bits of the stream as a number; the stream goes on after them |
| Huffman.LittleBit | apps/gview/stb_image.h:4036-4049 | the stream delivers the bytes in order, each from its lowest bit on, and zeros behind the last one |
| Huffman.ZBuf.DecodeSlowly | apps/gview/stb_image.h:4061-4077 | as `Decode`, for streams the fast table does not resolve |
| Huffman.ZBuf.Decode | apps/gview/stb_image.h:4079-4091 | the symbol whose canonical codeword is at the front, which is consumed; -1 exactly when there is none, and then nothing is consumed |
| Inflate.CopiedRepeats | apps/gview/stb_image.h:4157-4163 | a match repeats the last `dist` bytes over and over |
| Inflate.Inflater.CopyMatch | apps/gview/stb_image.h:4157-4163 | the copy of one byte at a time, and the fill for distance 1, append the match |
| Inflate.Inflater.Expand | apps/gview/stb_image.h:4093-4110 | doubling makes room and keeps the output; it fails exactly when no buffer that can be had is large enough |
| Inflate.RoomIsDoubled | apps/gview/stb_image.h:4099-4102 | the room is the buffer doubled up to the last time that memory allows |
| Inflate.Inflater.ParseHuffmanBlock | apps/gview/stb_image.h:4126-4166 | for codes that do not stall, and otherwise for streams on which the loop ends: success exactly for complete blocks whose output fits, with the output they mean and the stream just after them, reserved symbols included |
| Inflate.BlockRoundTrip | apps/gview/stb_image.h:4126-4166 | decoding any encoded sequence of literals and matches gives the bytes it stands for and what followed it |
| Inflate.LengthsTile | apps/gview/stb_image.h:4112-4118 | the lengths of the symbols follow one another without a gap from 3 to 258, with one more extra bit every four symbols |
| Inflate.DistancesTile | apps/gview/stb_image.h:4120-4124 | the distances follow one another from 1 to 32768, with one more extra bit every two symbols |
| Inflate.LengthsCovered | apps/gview/stb_image.h:4112-4118 | exactly the lengths from 3 to 258 have a symbol and extra bits, one choice each and two for 258 |
| Inflate.DistancesCovered | apps/gview/stb_image.h:4120-4124 | exactly the distances from 1 to 32768 have a symbol and extra bits, one choice each |
| Inflate.MatchMeans | apps/gview/stb_image.h:4144-4150 | a match is of a length that symbol 257 or a later one stands for with the next bits of the stream, and of such a distance; reserved symbols mean 0 |
| Inflate.StallsOnReserved | apps/gview/stb_image.h:4036-4040 | a turn of the loop leaves output and stream as they were if and only if only zeros are left, the codeword of zeros is a reserved length symbol, and the distance symbol with the codeword of zeros, reserved or not, does not reach back beyond the output |
| Inflate.ZerosLead | apps/gview/stb_image.h:4036-4040 | what is read behind the end of the input is the first of the symbols with the shortest codewords |
| Inflate.LoopReaches | apps/gview/stb_image.h:4126-4166 | for every stream and output, the turns of the loop come to the end that the block means, and if it means none the loop runs for ever |
| Inflate.LoopEndsIff | apps/gview/stb_image.h:4126-4166 | the loop ends on every stream and every output if and only if not both: a reserved length symbol is the first of the shortest, and so is a distance symbol that does not reach beyond the room there is |
| Inflate.FixedCodesEnd | apps/gview/stb_image.h:4259-4282 | with the fixed codes the loop ends on every stream, whatever reserved symbols it uses |
| Inflate.StallingCode | apps/gview/stb_image.h:4112-4124 | codes that the tables accept and with which the loop runs for ever, for every distance symbol, 30 and 31 included |

## Left out

- Apps.AppManager.Run: memory is a map of 64-bit words rather than bytes, so that sizes of mapped files and segments are in words; the argument vector's contents and the early error returns of `ExecuteFile` are not modelled, and after exhaustion of memory nothing more is said of the system.
- Apps.AppManager.PreparePageCache: the file's page is taken from its contents as a value; that the descriptor brings these words is `MappedFiles.FillPage`.
- Apps.AppManager.UserWrite: accesses are those of user mode to the upper half; kernel writes to read-only pages outside the loader, and faults in the lower half with its 2 MiB pages, are not modelled.
- Apps.AppManager.HandlePageFault: the descriptor behind a file mapping is represented by the file's contents; that a file may be resized while mapped is not modelled.
- AddressSpace.PagingUnit.CleanPageMap: the address has zero lower parts, as in its only caller; the source reuses the same lower parts in every subtree.
- CopyOnWrite.WriteShows: translation caches are not modelled.
- MemoryManager.BitmapMemoryManager.Allocate: `Stat`, a figure for display that counts whole words of the bitmap, is left out.
- MemoryInit.InitializeMemoryManager: the copy of the memory map into the kernel and the heap's program break are left out.
- FatVolume.Volume.ExtendCluster: enough free entries are required, because the source searches past the table exactly otherwise (`FatChains.SearchLeavesTable`).
- FatDescriptor.FileDescriptor.Read: a file does not change while it is read; the source may have cached the end marker.
- FatDescriptor.FileDescriptor.Load: the offset is within the file; beyond it the source computes with a negative rest.
- FatPaths.FindFile: clusters of files and of directories are two typed views of the same clusters; path elements longer than the source's buffer of 13 characters, names of deleted entries, and directory entries with cluster 0 other than the root are not modelled.
- FatPaths.CreateFile: a parent entry without a cluster, that is an empty file, is required not to occur; the source would take cluster 0 for a directory. That the bytes of a file are overwritten when it is taken for a directory is seen in its clusters' slots, not in their bytes.
- Scheduler.StepKeeps: a context switch is the change of the current task; interrupt masking and registers are not modelled, and a task inside `WaitFinish` is not put to sleep by others.
- TaskManager.TaskManager.WaitFinishPass: the loop of `WaitFinish` is given pass by pass, since other tasks run between the passes.
- Pipes.PipeDescriptor.Read: one call ends when the reader has to sleep, and goes on with another call; the reading task is alive, while the source keeps a reference to it that outlives the task.
- Timers.TimerManager.Tick: the priority queue is a sequence from which an element with the least timeout is taken; ticks stay below the 64-bit limit.
- Rings.ProducerRing.Push: doorbells and registers are not modelled, and control words passed in have no cycle bit and are not links.
- Rings.EventRing.WaitEvent: the busy wait is given as a result without an event, and the returned pointer's lifetime in the ring is not modelled.
- FrameBuffers.FrameBuffer.Copy: a pixel is a color and a format a tag; byte layout, scan lines longer than the width, and overflow of coordinates are not modelled.
- FrameBuffers.FrameBuffer.Move: moves within the same rows have no defined result in the source when the ranges overlap and are excluded.
- Layers.LayerManager.UpDown: the source keeps using an iterator after an erase; the model takes it for the index it stands for.
- Layers.LayerManager.Raise: the rest of `Activate`, messages to tasks and the redrawing of title bars, is left out; the mouse layer must be in the stack.
- Windows.Window.DrawTo: `Window::Move`, which moves only the shadow buffer, is covered as the move of a frame buffer.
- Inflate.Inflater.ParseHuffmanBlock: for a stream on which the loop runs for ever (`Inflate.LoopReaches`) nothing is promised; bytes that the memory held before, which a match of distance 0 copies, are not determined.
- Huffman.ZHuffman.Build: at most 288 symbols, the size of the tables.
- Block headers, stored blocks, the code-length code, and the rest of the image decoder.
- Device discovery, interrupts, the boot loader, terminal line editing, fonts and the other applications.
