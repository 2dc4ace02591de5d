# GannetOS kernel model

A Dafny model of the parts of the GannetOS kernel where state is shared and changed in place, with
proofs of what they keep. Each part has a value model (the state as a datatype, every call as a
function), theorems about every run of it, and the code as it runs: classes and methods that change
arrays and fields in place, proved to do exactly what the value model says.

- **Tasks, paging and the loader** (`Paging`, `PagingInv`, `PagingSteps`, `Tasks`, `TasksInv`,
  `TasksSteps`, `ExecSteps`, `ReapSteps`, `KernelRuns`, `KernelTheorems`, `KernelViews`,
  `KernelPrograms`, `KernelChildren`, `KernelLives`, `Argv`; in place: `Bitmap`, `Pager`, `PagerBoot`,
  `TaskTable`). A kernel state holds the page directories, private tables, frames, task table and the loader's progress; runs are
  all interleavings of task creation, scheduling, exit, program loading, reaping and user stores. Bytes
  are modelled for the frame pool and for the first 4 MB, where the pages lie that boot opens to user
  code.
- **Stop-and-wait TCP** (`Tcp`, `TcpRing`, `TcpRuns`, `TcpDeliver`, `TcpTheorems`, `TcpRetransmit`,
  `TcpSend`, `TcpHaste`, `TcpProgress`; in place: `TcpConn`), sections 3.3 to 3.5 and 3.9 of RFC 793. Two endpoints
  and a network in which every segment ever sent may be delivered at any time, any number of times, or
  never.
- **The filesystem** (`Fs`, `FsInv`, `FsTree`, `FsData`, `FsRuns`, `FsSpec`, `FsDisk`; in place:
  `FileSystem`). A map from paths to files and directories is what the inode table, bitmap and sectors
  stand for, and all that callers can tell.
- **The tiling tree and its windows** (`Bsp`, `BspSteps`, `BspTheorems`, `Windows`, `WindowRuns`,
  `WindowRects`; in place: `BspTree`, `WindowManager`).
- **The Internet checksum** (`Checksum`, RFC 1071), **DNS names and answers** (`Dns`, `DnsAnswers`,
  RFC 1035) and **shell path resolution** (`ShellPath`, `ShellResolve`).

`dafny verify dfyconfig.toml` checks the whole project.

What the model takes as given. Creating a task is one step: a timer interrupt inside it is not
modelled. The loader runs one program at a time, with arguments that `stage_argv`
stages inside its area, and the boot task does not exit. A TCP user does not call
tcp_send or tcp_close while a chunk is outstanding of which the peer has taken nothing
(`TcpHaste.SendCorruptsIff` and `TcpHaste.CloseTruncatesIff` show that exactly these calls do harm; one
whose last tcp_send returned its whole length never makes them), and sequence numbers are not reused
past 2^32. Filesystem callers use paths shorter than 128 characters,
keep the end of a write within 32 bits and do not delete open files (`FsRuns.RemovedFds` shows that
this is exactly what descriptors need); the disk fails only where a fault is a parameter, while a
growing file is copied. Split ratios are real numbers. The shell's working directory is an absolute
path, as "/" and every earlier result is.

Where the code and its comments differ, the model follows the code. A comment in `filesys/fs.c`
speaks of 8 inodes per sector; the 144-byte record gives 3. `kernel/bsp.h` promises
(BSP_MAX_NODES - 1) / 2 = 31 windows; the code takes 32. The comment on `stage_argv` says it
truncates; with an argument that fills the area it writes past it, and `Argv.StagesInBoundsIff` says
exactly when. A comment on `send_segment` asks that nothing be outstanding; tcp_send and tcp_close call
it without looking.

## Model

| member | source | states |
|---|---|---|
| KernelTheorems.TablesComeFromAncestors | kernel/proc/task.c:326-416 | In every reachable state a private table in a live task's directory is owned by that task, or sits in the app slot and is owned by a live ancestor. |
| KernelTheorems.OneEntryPerFrame | kernel/arch/x86/paging.c:428-588 | In every reachable state a pool frame's bit is set exactly when an entry of an owned private table refers to it, and no two entries refer to the same frame. |
| KernelTheorems.ScratchPagesDiffer | kernel/arch/x86/paging.c:428-588 | Any two live tasks see different pool frames, user-writable, at TASK_PRIVATE_VADDR. |
| KernelTheorems.PoolsSuffice | kernel/proc/loader.c:196-354 | On no run do directories, tables or frames run out: creating a task fails only for want of a task slot, and no page mapping of the loader fails. |
| KernelTheorems.PoolsRestored | kernel/proc/task.c:532-594 | Once every task but task 0 is reaped, the directory, table and frame pools are exactly as task_init left them, on every run. |
| KernelTheorems.SchedulerSound | kernel/proc/task.c:433-495 | In every reachable state exactly the current task is RUNNING, the loaded directory is that task's and is not reclaimed, and for a running ring-3 task TSS esp0 is the top of the 16 KB above the guard page of its own stack slot. |
| KernelTheorems.RunsWithinSeven | kernel/proc/task.c:420-473 | On every run a task that stays READY sees at most 6 calls of schedule; the seventh runs it. |
| KernelTheorems.EmptyPools | kernel/proc/task.c:532-594 | With only task 0 left, no directory is used, no private table but the boot one is owned and no frame but the boot one is allocated. |
| KernelLives.LifeCycle | kernel/proc/task.c:117-594 | In every reachable state and for every step, a slot keeps its task or the task is born READY, run, preempted back to READY, turned into a zombie by its own task_exit, or reclaimed by task_reap; no other change is possible. |
| KernelLives.ScheduleIs | kernel/proc/task.c:420-473 | schedule runs the READY task nearest in round-robin order, leaves the outgoing one itself and READY, loads the incoming one's directory and stack and touches no other slot; with none READY it changes nothing. |
| KernelLives.ExitIs | kernel/proc/task.c:482-495 | task_exit leaves the running task itself and a zombie, runs the nearest READY task and touches no other slot. |
| KernelLives.CreationIs | kernel/proc/task.c:117-416 | Creation fills the first free slot with a READY task with the next id, the right ring, stack and parent; it fails exactly for want of a slot or, for a child, of a ring-3 caller. |
| KernelLives.EndsByExitOnly | kernel/proc/task.c:117-594 | On every run a task stays READY or RUNNING with its id until it calls task_exit itself, and never runs after that. |
| KernelLives.AliveUntilExit | kernel/proc/task.c:117-594 | A task that does not call task_exit keeps its id, directory, ring and parent on every run. |
| KernelLives.ReapedIsGivenBack | kernel/proc/task.c:532-594 | When task_reap ends, no living task has the id it was called with, the slot is free, its directory is unused, no table is owned by it and the bits of all its frames are clear. |
| KernelLives.TurnIs | kernel/proc/task.c:549-591 | A turn of the child loop touches no task; the turn after it gives back exactly the slot, directory, tables and frames of the task it stands for. |
| KernelLives.TurnProgress | kernel/proc/task.c:549-591 | Every turn that does not wait for a living child leaves less to do, by a measure. |
| KernelLives.ReapEnds | kernel/proc/task.c:532-594 | Once every descendant has exited, the cascade comes to its end within that measure and the task is gone. |
| KernelLives.NineTurns | kernel/proc/task.c:532-594 | A childless zombie is given back by the ninth turn, with nothing else changed. |
| KernelLives.ObserveIs | kernel/proc/loader.c:328-341 | The loader starts task_reap exactly when its program has become a zombie. |
| KernelLives.ProgramIsReaped | kernel/proc/loader.c:322-350 | From the creation of its program on, over every run, the loader waits for it while it lives, then reaps it, and goes on only when no task has its id any more. |
| TasksSteps.ExitFindsSuccessor | kernel/proc/task.c:482-495 | task_exit always switches to another task and leaves the exiting one a zombie. |
| TasksSteps.PickNextReady | kernel/proc/task.c:420-431 | When a task is READY, pick_next returns a READY task, the nearest in round-robin order. |
| TasksInv.AppOwner | kernel/proc/task.c:326-416 | The app-slot table of a task belongs to a live task it descends from; the walk up the parent links ends. |
| TasksInv.ChildlessUnshared | kernel/proc/task.c:532-594 | A task with no live child shares its tables with nobody. |
| TasksInv.DirsAvailable | kernel/arch/x86/paging.c:332-394 | While a task slot is free and at most one app is being loaded, one of the eight directories is free. |
| PagingInv.FramesAvailable | kernel/mem/pmm.c:36-57 | In every consistent state a pool frame is free: the private entries of the tasks and the loader cannot take them all. |
| PagingInv.TablesAvailable | kernel/arch/x86/paging.c:419-480 | In every consistent state one of the 20 private tables is free. |
| KernelRuns.NextKeeps | kernel/proc/task.c:117-594 | Every step of tasks, scheduler, loader and reaping keeps the whole kernel invariant. |
| KernelRuns.ReachableInv | kernel/proc/task.c:94-115 | The kernel invariant holds in every state reachable from task_init. |
| KernelRuns.TaskInitHolds | kernel/proc/task.c:94-115 | task_init on a freshly booted paging state establishes the invariant. |
| TasksSteps.CreateKeeps | kernel/proc/task.c:117-251 | Creating a kernel or ring-3 task keeps the invariant, and succeeds exactly when a slot is free. |
| TasksSteps.SpawnKeeps | kernel/proc/task.c:326-416 | Creating a child that shares its parent's app table keeps the invariant, and succeeds exactly when the caller is ring 3 and a slot is free. |
| TasksSteps.ScheduleKeeps | kernel/proc/task.c:433-473 | schedule keeps the kernel invariant (KernelLives.ScheduleIs says what it does). |
| ExecSteps.ExecCodeKeeps | kernel/proc/loader.c:238-257 | Mapping and filling one code page keeps the invariant and never fails. |
| ExecSteps.ExecStackKeeps | kernel/proc/loader.c:268-283 | Mapping one stack page keeps the invariant and never fails. |
| ExecSteps.ExecArgsKeeps | kernel/proc/loader.c:294-305 | Copying the staged arguments keeps the invariant. |
| ExecSteps.ExecCreateKeeps | kernel/proc/loader.c:322-350 | Handing the directory to the new task, or releasing it when the table is full, keeps the invariant. |
| ReapSteps.ReapTurnKeeps | kernel/proc/task.c:532-594 | Each turn of task_reap's cascade keeps the invariant (KernelLives.TurnIs says what it does). |
| ReapSteps.LoopDoneChildless | kernel/proc/task.c:532-594 | When task_reap's child loop ends the task has no live child. |
| ReapSteps.ReclaimKeeps | kernel/proc/task.c:532-594 | Reclaiming a zombie keeps the invariant: no other living task maps the tables and frames that are freed (KernelLives.ReclaimFrees says which). |
| KernelLives.ReclaimFrees | kernel/proc/task.c:576-591 | Reclaiming frees exactly the directory of the task, the tables it owns and the frames they map. |
| ReapSteps.ChildIsYounger | kernel/proc/task.c:532-594 | A live child has a larger id than its parent, so the cascade ends. |
| PagingSteps.MapKeeps | kernel/arch/x86/paging.c:506-560 | Mapping a private page takes a free frame, gives the page exactly that frame and keeps the paging invariant. |
| PagingSteps.FreeAllFrees | kernel/arch/x86/paging.c:562-588 | Freeing a directory's private pages frees exactly the tables it owns and exactly the frames their entries refer to. |
| PagingSteps.FreeKeeps | kernel/arch/x86/paging.c:562-588 | Freeing an unshared directory keeps the paging invariant: no frame is freed twice. |
| PagingSteps.CloneKeeps | kernel/arch/x86/paging.c:352-382 | Cloning the kernel directory keeps the paging invariant. |
| PagingSteps.ShareKeeps | kernel/arch/x86/paging.c:590-596 | Sharing a directory entry keeps the paging invariant. |
| KernelViews.MapChangesOnePage | kernel/arch/x86/paging.c:506-560 | paging_map_private_page changes the translation and access rights of its own page in its own directory and of no other page in any directory. |
| KernelViews.MappingsNeverChange | kernel/arch/x86/paging.c:428-596 | No step of any run changes what a task that stays alive, the boot task included, sees at any address: its translations stay the same until it is reaped. |
| KernelViews.StepWorksOn | kernel/proc/task.c:117-594 | Every step touches one directory only: a fresh one, or that of the task being reclaimed. |
| KernelPrograms.ProgramLoaded | kernel/proc/loader.c:196-354 | The task try_exec creates reads, through its own directory, exactly the bytes copied (zero-padded) at APP_LOAD_ADDR, every staged argument string through argv, and a blank stack above them. |
| KernelPrograms.StoreReaches | kernel/arch/x86/paging.c:428-560 | In every reachable state, exactly when a store by the running task changes what another task reads: the address is the same, in the app slot and writable for the running task, the byte differs, and the two share the app table or neither has mapped a page of its own over the boot entry. |
| KernelPrograms.TrampolineShared | kernel/kernel.c:98-113 | A page of the first 2 MB that boot opened to user code, as the trampoline section is, is shared: what a ring-3 task stores there every other task reads. |
| KernelPrograms.BytesNeverChange | kernel/proc/task.c:117-594 | No step but a user store changes a byte that a living task reads, except that staging a program shows its bytes to tasks that still see the staging buffer. |
| KernelPrograms.FileLoaded | kernel/proc/loader.c:81-354 | From the start of try_exec over any run in which no user store reaches the staging buffer, the new task reads exactly the file (zero-padded), the arguments and a blank stack. |
| KernelChildren.ChildSees | kernel/proc/task.c:326-416 | The child that a ring-3 task spawns has 16 KB of blank, writable stack of its own and sees at every address of the app slot what its parent sees. |
| KernelTheorems.FramesAtTheirAddress | kernel/arch/x86/paging.c:26-35 | In every reachable state, under the loaded directory, every pool frame is at its own physical address, writable, for the kernel only: the pointer through which the kernel clears and fills frames is right. |
| Argv.StagesInBoundsIff | kernel/proc/loader.c:170-194 | stage_argv writes inside its 2048-byte area exactly when all staged arguments but the last leave room in it. |
| Argv.StagingOverruns | kernel/proc/loader.c:170-194 | An argument that fills the area followed by another makes stage_argv write one byte past it. |
| Argv.PlaceReads | kernel/proc/loader.c:294-305 | After the copy loop every staged argument, its terminator and its pointer can be read from the page: later ones do not overwrite earlier ones. |
| Argv.WholeArgument | kernel/proc/loader.c:170-194 | Arguments that all fit are staged whole. |
| Argv.StageArgv | kernel/proc/loader.c:170-194 | When staging stays inside its area, the loop places every argument at its offset with a terminator. |
| BitWords.Bitmap.Set | kernel/mem/pmm.c:13-16 | Setting a bit in the word array changes that bit and no other. |
| BitWords.Bitmap.Clear | kernel/mem/pmm.c:18-21 | Clearing a bit in the word array changes that bit and no other. |
| Pager.Pager.AllocFrame | kernel/mem/pmm.c:36-57 | Takes the first clear bit and zeroes its frame in place. |
| Pager.Pager.FreeFrame | kernel/mem/pmm.c:59-66 | Clears the frame's bit; addresses outside the pool are ignored. |
| Pager.Pager.CloneDirectory | kernel/arch/x86/paging.c:352-382 | Copies the kernel directory entry by entry into the first free pool directory. |
| Pager.Pager.FreeDirectory | kernel/arch/x86/paging.c:384-394 | Marks a pool directory free. |
| Pager.Pager.AllocTable | kernel/arch/x86/paging.c:428-480 | Takes the first unowned private table and copies the existing table into it, or clears it. |
| Pager.Pager.OwnedBy | kernel/arch/x86/paging.c:482-492 | Whether a directory owns the table behind an entry. |
| Pager.Pager.MapPrivatePage | kernel/arch/x86/paging.c:506-560 | The in-place mapping does what the value step says, with the same failures. |
| Pager.Pager.FreePrivatePages | kernel/arch/x86/paging.c:562-588 | The two nested loops free exactly the owned tables' frames and the tables. |
| Pager.Pager.Share | kernel/arch/x86/paging.c:590-596 | Copies one directory entry. |
| PagerBoot.IdentityMap | kernel/arch/x86/paging.c:75-98 | After the loop every page of the range translates to itself, writable and closed to user code, every other address translates as before, and the directory entries and tables taken are stated. |
| PagerBoot.MarkUser | kernel/arch/x86/paging.c:100-135 | Every mapped page of the range becomes open to user code with its frame and rights kept, every other address translates as before, and exactly the present directory entries of the range are opened. |
| PagerBoot.UnmapPage | kernel/arch/x86/paging.c:137-165 | The page no longer translates; every other address does as before. |
| PagerBoot.GuardStacks | kernel/proc/task.c:77-88 | Exactly the lowest page of each task's stack slot is unmapped. |
| PagerBoot.PagingInit | kernel/arch/x86/paging.c:293-320 | Exactly low memory and the framebuffer, wherever it lies, are mapped, each page to itself, writable, for the kernel only. |
| PagerBoot.BootPaging | kernel/kernel.c:96-128 | Booting yields the paging state that task_init starts from: every low page but the stack guards translates to itself, writable, and is open to user code exactly in the three regions. |
| TaskTable.TaskTable.Create | kernel/proc/task.c:117-251 | The in-place creation does what the value step says, on every failure path too. |
| TaskTable.TaskTable.Spawn | kernel/proc/task.c:326-416 | The in-place child creation does what the value step says, on every failure path too. |
| TaskTable.TaskTable.PickNext | kernel/proc/task.c:420-431 | The round-robin loop. |
| TaskTable.TaskTable.Schedule | kernel/proc/task.c:433-473 | In place: switches the running task, the loaded directory and esp0 as the value step of which KernelLives.ScheduleIs holds. |
| TaskTable.TaskTable.Exit | kernel/proc/task.c:482-495 | Turns the running task into a zombie and schedules. |
| TaskTable.TaskTable.StageBlob | kernel/proc/loader.c:97-114 | Reading the program byte by byte changes the staging buffer to it and nothing else. |
| TaskTable.TaskTable.ExecStart | kernel/proc/loader.c:196-219 | Stages the program and clones the directory as the value step does. |
| TaskTable.TaskTable.ExecCodePage | kernel/proc/loader.c:238-257 | Maps one page and copies its share of the staging buffer byte by byte. |
| TaskTable.TaskTable.ExecArgs | kernel/proc/loader.c:294-305 | Copies every staged argument and writes its pointer. |
| TaskTable.TaskTable.ExecCreate | kernel/proc/loader.c:322-350 | Installs the app task, or releases its directory. |
| TaskTable.TaskTable.IsZombie | kernel/proc/task.c:520-530 | Whether a task id is in the table as a zombie. |
| TaskTable.TaskTable.Reclaim | kernel/proc/task.c:532-594 | Releases the pages and directory of a zombie and its slot. |
| TaskTable.TaskTable.ReapTurn | kernel/proc/task.c:532-594 | In place: one turn of the cascade between two yields, as the value step of which KernelLives.TurnIs holds. |
| TcpTheorems.StreamIsPrefix | kernel/drivers/net/transport_protocols/tcp.c:365-404 | Over a losing, duplicating, reordering channel, in every state reached by sends and closes that meet the exact conditions of SendCorruptsIff and CloseTruncatesIff, what the peer accepted is a prefix of what was sent, it is all of it whenever send_una == send_next, and bytes read plus bytes in the ring are the bytes accepted. |
| TcpTheorems.FinComesLast | kernel/drivers/net/transport_protocols/tcp.c:624-641 | When every close found nothing outstanding, or a peer already past send_una, peer_fin_received is set only after the peer sent its FIN and every byte it sent was accepted; CloseTruncatesIff shows that other closes break this. |
| TcpTheorems.CloseIsClean | kernel/drivers/net/transport_protocols/tcp.c:576-641 | Under the same condition on closes, an endpoint that reaches CLOSED through a delivered segment other than RST has had its FIN acknowledged and has the peer's, and both streams were accepted whole. |
| TcpTheorems.ReachableInv | kernel/drivers/net/transport_protocols/tcp.c:489-641 | The invariant that ties both endpoints, their histories and every segment in flight holds in every reachable state. |
| TcpTheorems.NextKeeps | kernel/drivers/net/transport_protocols/tcp.c:335-641 | Every step of either endpoint, and every delivery of any segment ever sent, keeps that invariant. |
| TcpTheorems.DeliverKeeps | kernel/drivers/net/transport_protocols/tcp.c:489-641 | Handling any segment of the peer's log keeps the invariant. |
| TcpRetransmit.RetransmissionsRepeat | kernel/drivers/net/transport_protocols/tcp.c:460-487 | When every send and close found nothing outstanding, all transmissions of one sequence number carry the same flags and payload, and there are at most 6. |
| TcpRetransmit.TimeoutRepeatsOrCloses | kernel/drivers/net/transport_protocols/tcp.c:460-487 | On such runs, on a timeout the outstanding segment is transmitted once more, or after six transmissions the connection closes without sending. |
| TcpRetransmit.OnlyOnTimeout | kernel/drivers/net/transport_protocols/tcp.c:460-487 | tcp_poll acts exactly when more than 200 ticks have passed since the outstanding segment was sent, and not again for 200 ticks after it has retransmitted. |
| TcpHaste.CloseTruncatesIff | kernel/drivers/net/transport_protocols/tcp.c:424-487 | In every reachable state: tcp_close can make the peer take the FIN of a stream it lacks bytes of, on some run, exactly when a chunk is outstanding and the peer, still open, has taken nothing of it. |
| TcpHaste.CloseAnywayTruncates | kernel/drivers/net/transport_protocols/tcp.c:438-485 | In that case one timeout and one delivery are enough: the peer shows a clean end of a truncated stream. |
| TcpHaste.FinCanComeEarly | kernel/drivers/net/transport_protocols/tcp.c:365-449 | Such a state is reached by a handshake and one chunk still on its way. |
| TcpHaste.WholeSendThenClose | kernel/drivers/net/transport_protocols/tcp.c:365-449 | Closing after a tcp_send that returned its whole length cuts nothing off, whatever happened in between. |
| TcpHaste.SendCorruptsIff | kernel/drivers/net/transport_protocols/tcp.c:365-404 | In every reachable state: a chunk sent over an outstanding one can make the peer accept bytes not sent in that order, on some run, exactly when the peer, still open, has taken nothing of what is outstanding and the chunk differs from what stands there; taken in part or whole, the stream stays a prefix. |
| TcpHaste.SendAnywayCorrupts | kernel/drivers/net/transport_protocols/tcp.c:365-487 | In that case a read by the peer's user, one timeout and one delivery are enough, also when the peer's ring was full. |
| TcpRing.RingConserved | kernel/drivers/net/transport_protocols/tcp.c:489-641 | For any segment whatever: exactly the bytes that fit are taken if the segment is in order in a state that takes data, else none; the ring gains exactly those, stays within 2048, and recv_next moves by the bytes and FIN taken or is set by a SYN-ACK. |
| TcpRing.RunConserved | kernel/drivers/net/transport_protocols/tcp.c:406-641 | Over any sequence of arbitrary segments, reads, sends, polls and closes: bytes read plus bytes in the ring are the bytes taken, the ring never overflows, and recv_next counts the bytes and FINs taken. |
| TcpRing.RepliesAre | kernel/drivers/net/transport_protocols/tcp.c:489-641 | For any segment whatever, exactly what is sent back: a segment with data is acknowledged up to the last byte taken, in order or not, a FIN or SYN-ACK that is taken is acknowledged, and nothing else is answered. |
| TcpRing.StatesAre | kernel/drivers/net/transport_protocols/tcp.c:540-641 | For any segment whatever, the state after it as a table, when send_una advances and peer_fin_received is set, and that nothing else changes. |
| TcpRing.ShutIs | kernel/drivers/net/transport_protocols/tcp.c:424-449 | tcp_close sends one FIN and half-closes an open connection, closes an unopened one and leaves any other alone. |
| TcpRing.ResetFits | kernel/drivers/net/transport_protocols/tcp.c:249-292 | A reset carries the sequence number that the sender of the refused segment expects, or acknowledges all that it sent. |
| TcpProgress.SendDeliverAnswer | kernel/drivers/net/transport_protocols/tcp.c:365-614 | In every reachable state with an idle ESTABLISHED sender and an open peer with room: send, deliver, deliver the answer, and the chunk is accepted and the sender idle. |
| TcpProgress.SendCompletes | kernel/drivers/net/transport_protocols/tcp.c:365-422 | For every buffer there is a run of tcp_send that returns its whole length: each chunk delivered and answered once, the peer's user reading in between. |
| TcpProgress.ClosesBoth | kernel/drivers/net/transport_protocols/tcp.c:424-641 | From any state with both sides ESTABLISHED and idle, closing one side and then the other, each segment delivered once, leaves both CLOSED with both streams accepted whole. |
| TcpRing.WindowIsFreeSpace | kernel/drivers/net/transport_protocols/tcp.c:178-237 | Every segment emitted by any event, also sends, retransmissions and FINs, advertises the free space of the ring. |
| TcpRing.WindowsOverRuns | kernel/drivers/net/transport_protocols/tcp.c:178-237 | At every point of any run, every window sent is the free space at that moment. |
| TcpSend.SendIsDelivered | kernel/drivers/net/transport_protocols/tcp.c:365-404 | A call of tcp_send that returns r, over any run of the two endpoints: the peer has accepted all that was sent before and the first r bytes of the buffer, and nothing but the buffer after that; a call that returns the whole length leaves the peer's stream ending in the buffer. |
| TcpSend.SendDelivers | kernel/drivers/net/transport_protocols/tcp.c:372-403 | The same chunk by chunk, from any consistent state with nothing outstanding. |
| TcpDeliver.TakesInOrder | kernel/drivers/net/transport_protocols/tcp.c:601-614 | A segment whose bytes are taken carries the peer's next bytes in order. |
| TcpDeliver.AckMeansTaken | kernel/drivers/net/transport_protocols/tcp.c:576-594 | An acknowledgement that is taken means the peer has taken everything outstanding. |
| TcpDeliver.FinIsNext | kernel/drivers/net/transport_protocols/tcp.c:624-641 | A FIN that is taken comes after every byte the peer sent. |
| TcpRuns.PollKeeps | kernel/drivers/net/transport_protocols/tcp.c:460-487 | Retransmission repeats what is outstanding and keeps the invariant. |
| TcpRuns.SendKeeps | kernel/drivers/net/transport_protocols/tcp.c:365-404 | A chunk sent with nothing outstanding, or past or in agreement with what the peer expects at send_una, keeps the invariant. |
| TcpRuns.CloseKeeps | kernel/drivers/net/transport_protocols/tcp.c:424-449 | Sending a FIN with nothing outstanding, or to a peer past send_una, keeps the invariant. |
| TcpConn.TcpConn.Put | kernel/drivers/net/transport_protocols/tcp.c:601-614 | Storing one byte in the circular buffer appends it to the queue. |
| TcpConn.TcpConn.Receive | kernel/drivers/net/transport_protocols/tcp.c:406-422 | Reading takes the oldest bytes in order. |
| TcpConn.TcpConn.SendNow | kernel/drivers/net/transport_protocols/tcp.c:214-237 | Keeps a copy of what is sent for retransmission and advances send_next. |
| TcpConn.TcpConn.PollNow | kernel/drivers/net/transport_protocols/tcp.c:460-487 | Retransmits after the timeout, or closes after the last try. |
| TcpConn.TcpConn.HandlePacket | kernel/drivers/net/transport_protocols/tcp.c:489-641 | The in-place handling of a segment does and sends what the value step does, of which RingConserved, RepliesAre and StatesAre hold. |
| TcpConn.TcpConn.CloseNow | kernel/drivers/net/transport_protocols/tcp.c:424-449 | Every case of tcp_close in place: sends the FIN and moves the state, closes an unopened connection, or does nothing. |
| FsRuns.ReachableInv | filesys/fs.c:166-792 | From a formatted disk, after any sequence of calls: names are unique, every used inode's parent is an existing directory, extents are in range and disjoint, the bitmap is exactly their union, and descriptors stand inside their files. |
| FsRuns.NextKeeps | filesys/fs.c:318-792 | Every call keeps that invariant. |
| FsSpec.RunsRefine | filesys/fs.c:166-792 | Over any sequence of calls, the disk answers each call as a plain map from paths to files and directories with open handles does, and stands for the map that the calls lead to. |
| FsSpec.NextCommutes | filesys/fs.c:318-792 | Every call changes the map that the disk stands for, and answers, as the call on the map does, failures included. |
| FsSpec.LayoutIsHidden | filesys/fs.c:133-156 | Disks that stand for the same map, however their inodes and sectors lie, answer every sequence of calls alike as long as their writes find room alike. |
| FsSpec.FullTable | filesys/fs.c:335-343 | The inode table is full exactly when the map has 512 names. |
| FsSpec.FormatIsEmpty | filesys/fs.c:180-211 | A formatted disk stands for the root directory alone, with no open handle. |
| FsData.WriteSplices | filesys/fs.c:633-761 | A successful fs_write splices the bytes into the file at the descriptor's offset, also when the file is moved to grow, advances the offset, and changes no other path. |
| FsData.WriteFailure | filesys/fs.c:633-711 | fs_write fails exactly on a closed descriptor, or when the file has fewer sectors than the fewest that hold its new end and no so many sectors in a row are free, or on a disk error while copying; then the bitmap, the table and every path are as before. |
| FsData.ReadSlices | filesys/fs.c:575-628 | fs_read returns the file's bytes at the offset, as many as asked for or as are left, and changes only the offset. |
| FsData.NeedHolds | filesys/fs.c:649-650 | The sector count that fs_write computes in 32 bits holds the write exactly when its end, rounded up to a sector, fits 32 bits, and then no smaller count does. |
| FsData.GrowFails | filesys/fs.c:665-711 | A disk error part of the way through the copying rolls the bitmap back exactly and leaves every allocated sector alone. |
| FsData.GrowSucceeds | filesys/fs.c:652-725 | Growing gives the file a run that starts with its old sectors, takes only free sectors and frees exactly the old run. |
| FsRuns.WriteThenRead | filesys/fs.c:575-761 | What one descriptor writes, another at the same place reads back. |
| FsRuns.MountKeeps | filesys/fs.c:214-233 | Mounting rebuilds exactly the live bitmap and keeps every path. |
| FsRuns.ReachableRebuild | filesys/fs.c:214-233 | The rebuilt bitmap equals the live one in every reachable state. |
| FsRuns.ReachableTight | filesys/fs.c:633-761 | In every reachable state a file has no sector when empty and otherwise the fewest that hold its bytes. |
| FsRuns.TightKeeps | filesys/fs.c:318-792 | Every call keeps that. |
| FsRuns.RebuiltBits | filesys/fs.c:214-233 | The rebuild loop sets exactly the bits of the inodes it has passed. |
| FsRuns.FormatHolds | filesys/fs.c:180-211 | Formatting gives a disk that holds the root directory and nothing else. |
| FsRuns.OpenKeeps | filesys/fs.c:490-562 | fs_open opens the first free descriptor at offset 0, creates the file only when asked and missing, and states exactly when it fails. |
| FsRuns.RemovedFds | filesys/fs.c:766-792 | Removing files keeps every descriptor good exactly when none of them is open. |
| FsTree.MakeKeeps | filesys/fs.c:318-355 | Creation adds exactly the new name; it fails exactly when the name is taken, the parent is no directory or the table is full. |
| FsTree.RmdirRemoves | filesys/fs.c:357-406 | fs_rmdir succeeds exactly on empty directories other than the root. |
| FsTree.DeleteRemoves | filesys/fs.c:766-792 | fs_delete succeeds exactly on files, and frees exactly the file's sectors. |
| FsTree.RrmdrRemoves | filesys/fs.c:429-485 | fs_rrmdr ends, succeeds exactly on existing directories other than the root, removes exactly the subtree and frees exactly its sectors. |
| FsTree.RemoveFromRemoves | filesys/fs.c:452-484 | The child loop removes the whole subtree from any point on. |
| FsTree.SubtreeGone | filesys/fs.c:429-485 | In terms of paths: everything below is gone and every other path names what it did. |
| FsInv.UnderIsPrefix | filesys/fs.c:239-258 | A path lies below a directory by fs_get_parent exactly when it starts with the directory's path and a slash. |
| FsInv.HasChild | filesys/fs.c:239-270 | Every used inode below a directory has an ancestor that is the directory's child. |
| FsDisk.InodeRoundTrip | filesys/fs.c:70-98 | Every inode is read back from its 144 bytes as it was written. |
| FsDisk.StoreChangesOne | filesys/fs.c:85-98 | Writing an inode changes that inode only: not the two others in its sector, the superblock or the data. |
| FsDisk.SuperblockReads | filesys/fs.c:182-192 | The superblock written by formatting is recognised when mounting. |
| FileSystem.FileSystem.ReadInode | filesys/fs.c:70-83 | Reads the record from its sector; other indices fail. |
| FileSystem.FileSystem.WriteInode | filesys/fs.c:85-98 | Writes the record into its sector. |
| FileSystem.FileSystem.AllocRun | filesys/fs.c:133-156 | Finds and takes the first clear run, or changes nothing when there is none. |
| FileSystem.FileSystem.GetParent | filesys/fs.c:239-258 | The last-slash loop. |
| FileSystem.FileSystem.FindPath | filesys/fs.c:275-294 | The first used inode with the name. |
| FileSystem.FileSystem.IsDirectory | filesys/fs.c:299-316 | Whether the path names a directory. |
| FileSystem.FileSystem.MkdirAt | filesys/fs.c:318-355 | Creates the directory as the value call does. |
| FileSystem.FileSystem.RmdirAt | filesys/fs.c:357-406 | Removes the directory as the value call does. |
| FileSystem.FileSystem.RemoveTree | filesys/fs.c:429-485 | The recursive removal, which ends because names get longer. |
| FileSystem.FileSystem.OpenPath | filesys/fs.c:490-562 | Opens or creates as the value call does. |
| FileSystem.FileSystem.CloseFd | filesys/fs.c:564-570 | Closes the descriptor. |
| FileSystem.FileSystem.ReadFd | filesys/fs.c:575-628 | Reads sector by sector the bytes the value call returns. |
| FileSystem.FileSystem.GrowFile | filesys/fs.c:652-725 | Allocates, copies, releases and writes the inode in place, with the rollback on a disk error. |
| FileSystem.FileSystem.WriteBytes | filesys/fs.c:727-753 | The sector loop writes exactly the buffer at its offset, reading partial sectors first. |
| FileSystem.FileSystem.WriteFd | filesys/fs.c:633-761 | The whole write in place, for an end that fits 32 bits when rounded up to a sector. |
| FileSystem.FileSystem.DeleteAt | filesys/fs.c:766-792 | Clears the bits and the inode. |
| FileSystem.FileSystem.Init | filesys/fs.c:166-234 | Formats a disk without the magic number; on any other believes its sector count, closes the descriptors and rebuilds the bitmap from the extents, which is mounting when the disk is well formed. |
| BspTheorems.AnyRun | kernel/bsp.c:45-221 | After any sequence of tree calls with any arguments the pool is a proper binary tree with agreeing links, and k windows take exactly 2k-1 nodes. |
| BspSteps.InsertFails | kernel/bsp.c:60-128 | Insertion at a valid leaf fails exactly at 32 windows, and a failed insertion leaves the tree as it was. |
| BspSteps.InsertSplits | kernel/bsp.c:88-127 | Insertion replaces the leaf by a split over it and the new window and changes nothing else. |
| BspSteps.InsertFirst | kernel/bsp.c:63-80 | The first window becomes the whole tree. |
| BspSteps.RemovePrunes | kernel/bsp.c:139-180 | Removal lifts the sibling subtree into the place of the parent and changes nothing else. |
| BspTheorems.RemoveUndoesInsert | kernel/bsp.c:60-180 | Removing the leaf just inserted gives back the tree there was. |
| BspSteps.FlipIs | kernel/bsp.c:182-191 | Flipping swaps the two parts of one split. |
| BspSteps.RotateIs | kernel/bsp.c:193-203 | Rotating turns one split and swaps its parts. |
| BspSteps.ResizeIs | kernel/bsp.c:205-221 | Resizing changes one ratio, kept between 0.1 and 0.9. |
| BspSteps.FreeSlots | kernel/bsp.c:8-22 | One node is always free, and a second exactly when fewer than 32 windows are open. |
| BspSteps.IdsSize | kernel/bsp.c:60-128 | A tree of k windows has 2k-1 nodes. |
| BspSteps.ShapeUnique | kernel/bsp.c:33-43 | A pool stands for one tree only. |
| BspTheorems.TilesPartition | kernel/bsp.c:223-255 | The rectangles of a layout partition the given rectangle: each of its pixels lies in exactly one, and none reaches outside. |
| BspTheorems.PartsAre | kernel/bsp.c:237-251 | A cut gives its first part the share of the side that the ratio says, to the nearest pixel, the rest to the second part right after it, and does not cut the other side. |
| BspTheorems.TilesShow | kernel/bsp.c:223-255 | On a rectangle with long enough sides every tile of a layout has a pixel, whatever the ratios. |
| Bsp.ClampNearest | kernel/bsp.c:205-221 | bsp_resize sets the allowed ratio nearest to the one asked for. |
| BspTree.BspTree.InsertLeaf | kernel/bsp.c:60-128 | The in-place insertion, with the release of the first node when the second is missing. |
| BspTree.BspTree.InsertAuto | kernel/bsp.c:130-137 | Splits along the longer side. |
| BspTree.BspTree.RemoveLeaf | kernel/bsp.c:139-180 | The in-place removal. |
| BspTree.BspTree.FlipNode | kernel/bsp.c:182-191 | The in-place flip. |
| BspTree.BspTree.RotateNode | kernel/bsp.c:193-203 | The in-place rotation. |
| BspTree.BspTree.ResizeNode | kernel/bsp.c:205-221 | The in-place resize. |
| BspTree.BspTree.LayoutFrom | kernel/bsp.c:223-264 | The recursion visits the leaves in order with the rectangles of the layout, of which PartsAre and TilesPartition hold. |
| BspTree.BspTree.Find | kernel/bsp.c:266-276 | The first leaf with the window. |
| WindowRuns.AnyRun | kernel/ui/window.c:28-137 | After any run of opens and closes, failed task creations included: the leaves are the open windows, focus is -1 exactly when none is open, and every pixel of the screen lies in exactly one open window. |
| WindowRuns.OpenKeeps | kernel/ui/window.c:28-90 | Opening fails exactly when eight windows are open or the task cannot be created, and then windows, layout and focus are as before; otherwise the first free window is open with its task and the focus, and the layout is the old one with the focused window cut in two. |
| WindowRuns.CloseKeeps | kernel/ui/window.c:92-121 | Closing closes exactly that window, takes it out of the layout, keeps all else of the other windows, and gives the focus, if it had it, to the first open window. |
| WindowRects.OpenHalves | kernel/ui/window.c:28-90 | A new window takes the second half of the focused window's rectangle, cut across its longer side; the focused one keeps the first half and every other window its rectangle; the first window takes the screen. |
| WindowRects.CloseUndoesOpen | kernel/ui/window.c:28-121 | Closing the window just opened gives every window back the rectangle it had. |
| WindowRects.CloseShrinksNone | kernel/ui/window.c:92-137 | Closing a window makes no other smaller. |
| WindowRects.NoneIsLost | kernel/ui/window.c:28-137 | After any run of opens and closes on a screen of at least 128 by 128 pixels every open window has a pixel. |
| WindowRuns.ScreenPartition | kernel/ui/window.c:123-137 | While a window is open every pixel of the screen lies in exactly one open window. |
| WindowRuns.FindsLeaf | kernel/bsp.c:266-276 | bsp_find finds the leaf of every open window. |
| Windows.Relayout | kernel/ui/window.c:123-137 | A relayout gives every open window its layout rectangle and changes nothing else: ids, tasks and closed windows stay. |
| WindowManager.WindowManager.OpenWindow | kernel/ui/window.c:28-90 | The in-place opening, with its rollback. |
| WindowManager.WindowManager.CloseWindow | kernel/ui/window.c:92-121 | The in-place closing. |
| WindowManager.WindowManager.RelayoutAll | kernel/ui/window.c:134-137 | Visits every leaf and stores its rectangle. |
| Checksum.Accumulate | kernel/drivers/net/internet_layer/ipv4.c:53-73 | The 32-bit running sum never wraps and adds the big-endian words, an odd last byte as a high half. |
| Checksum.Finish | kernel/drivers/net/internet_layer/ipv4.c:75-85 | Folding ends with the complement of the sum's residue modulo 65535. |
| Checksum.Checksum | kernel/drivers/net/internet_layer/ipv4.c:87-90 | The checksum of a region. |
| Checksum.ChecksumPseudo | kernel/drivers/net/internet_layer/ipv4.c:92-117 | Summing the pseudo-header and the segment in turn is summing them joined. |
| Checksum.SumConcat | kernel/drivers/net/internet_layer/ipv4.c:53-73 | The sum of two regions joined is the sum of their sums when the first has even length. |
| Checksum.InsertedVerifies | kernel/drivers/net/internet_layer/ipv4.c:87-90 | A checksum put into its aligned zeroed field makes the region sum to 0. |
| Checksum.ChangeDetected | kernel/drivers/net/internet_layer/ipv4.c:75-90 | Changing one aligned word of a valid region goes undetected exactly when it swaps 0x0000 and 0xFFFF and some word is left that is not zero. |
| Checksum.LastByteDetected | kernel/drivers/net/internet_layer/ipv4.c:62-71 | A changed odd last byte is always detected. |
| Dns.EncodeQname | kernel/drivers/net/application_layer/dns.c:106-148 | Accepts exactly the names whose labels have 1 to 63 bytes and whose encoding fits, writes the encoding and nothing outside its range. |
| Dns.DecodeEncode | kernel/drivers/net/application_layer/dns.c:106-148 | Decoding an encoded name gives its labels back. |
| Dns.SkipEncoded | kernel/drivers/net/application_layer/dns.c:159-175 | skip_name consumes exactly the encoded length. |
| Dns.SkipName | kernel/drivers/net/application_layer/dns.c:159-175 | The loop reads inside the packet and ends. |
| DnsAnswers.FindAnswer | kernel/drivers/net/application_layer/dns.c:281-310 | The answer walk ends and reads only inside the packet. |
| DnsAnswers.ReadRecord | kernel/drivers/net/application_layer/dns.c:283-309 | One record: its address, where the next starts, or that it is cut short. |
| DnsAnswers.CheckResponse | kernel/drivers/net/application_layer/dns.c:252-312 | The header checks and the walk. |
| DnsAnswers.AnswerIff | kernel/drivers/net/application_layer/dns.c:281-312 | An address is returned exactly when a counted record is a complete A/IN record with four bytes, and it is that of the first such record. |
| DnsAnswers.ReplyIff | kernel/drivers/net/application_layer/dns.c:252-312 | An address is returned exactly when the packet has a header with the id asked for, the QR bit and RCODE 0, and a counted answer is an address record. |
| DnsAnswers.ReplyIsFirst | kernel/drivers/net/application_layer/dns.c:281-312 | It is the address of the first such record. |
| DnsAnswers.ReplyBuilt | kernel/drivers/net/application_layer/dns.c:252-312 | From a response built of a question, answers with plain or compressed names and whatever follows, the resolver reads the first address among the answers. |
| DnsAnswers.AnswerBuilt | kernel/drivers/net/application_layer/dns.c:281-312 | Walking records laid one after the other finds the first address among them. |
| ShellResolve.ResolvePath | shell/shell.c:262-373 | For every input the two buffers are not overrun and the result is the path its components mean. |
| ShellResolve.Start | shell/shell.c:264-301 | The absolute path the walk starts from, cut to 127 characters. |
| ShellResolve.Turn | shell/shell.c:312-366 | One component: skipped, popped or pushed, with room always left. |
| ShellResolve.PopComponent | shell/shell.c:336-355 | Dropping the last component. |
| ShellResolve.PushComponent | shell/shell.c:357-366 | Adding a component; the length guard never cuts it. |
| ShellPath.ResolveClean | shell/shell.c:303-372 | Every result is absolute and has no empty, "." or ".." component and none over 63 characters. |
| ShellPath.ResolveIdempotent | shell/shell.c:262-373 | Resolving a result again gives it back, whatever the working directory. |
| ShellPath.ResolveFits | shell/shell.c:303-372 | Every result fits the 128-byte buffer. |
| ShellPath.ResolveIsLeft | shell/shell.c:303-372 | For every input, the result has exactly the names of the absolute path that no later ".." undoes, in order, each with its first 63 characters. |
| ShellPath.ResolveRelative | shell/shell.c:287-301 | A relative input that fits means its components applied in turn to the working directory, components cut at 63 characters. |
| ShellPath.ResolveHome | shell/shell.c:269-286 | A tilde means the same from /home. |
| ShellPath.ResolveAbsolute | shell/shell.c:264-268 | An absolute input that fits means its components applied in turn to the root. |
| ShellPath.SplitRender | shell/shell.c:303-372 | Splitting a rendered path gives its components back. |

## Left out

- task_reap as one blocking call: it yields between turns, so it is modelled turn by turn, interleaved with every other step.
- Task names, saved stack pointers, trampolines and the contents of kernel stacks: a context switch changes the current task, the loaded directory and esp0.
- Timer preemption inside a create call: the code does not mask interrupts there, and the model takes creation as atomic.
- Bytes of memory outside the frame pool and the first 4 MB: boot opens no page there to user code.
- KernelPrograms.BytesNeverChange: leaves out the kernel's own variables; those that share the last page of the trampoline section, which boot opens whole, change as the kernel runs.
- TCP connection lookup, ports and the clock of the waits in tcp_connect and tcp_send: the two endpoints are given, and a wait may give up at any time.
- PagerBoot.PagingInit: takes a framebuffer that fits the address space and 16 tables and lies off the two slots for private pages; without tables the code halts.
- TCP liveness, behaviour after RST, connection-slot reuse and sequence numbers past 2^32: not guaranteed by the code.
- Disk errors other than in the copying of a growing file, and fs_stat: they would add easy branches.
- FileSystem.FileSystem.WriteFd: takes writes whose end, rounded up to a sector, fits 32 bits, which is exactly when the code asks for enough sectors (FsData.NeedHolds); a longer buffer would not fit the memory the kernel maps.
- FileSystem.FileSystem.Init: on a disk with the magic number, takes extents to lie in the data area; with others the code sets bits outside its bitmap array.
- Float rounding in ratios and layout: ratios are reals; a layout splits at the floor of length times ratio plus one half.
- Window names, borders and drawing, and the task a window runs: task creation is its answer.
- IPv4 literals, sockets and timeouts of dns_resolve: the response bytes are given.
- Shell line editing, built-ins and variables; the environment.
- Hardware drivers, the framebuffer, syscalls, pipes, UDP, ARP, ICMP, HTTP, the applications and the host tools.
