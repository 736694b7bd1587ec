# rwMem in Dafny

rwMem is a kernel module that reads and writes the memory of other processes, lists their memory areas and
serves hardware breakpoints, with two user-space clients: the Rust library librwmem, and CEServer, whose driver
proxy is written in C++. This project models the parts of them that carry state machines, encodings and loops,
and proves what they keep.

* **Breakpoints** (`BpProtocol`, `BpClient`, `BpStaleFlag`, `BpStrayAccess`, `BpRelease`, `BpStepList`, `BpStops`,
  `BpDriver`, `Registers`). The stop, continue and step protocol is a transition system: any number of target threads,
  handles and client calls in flight, one event per lock-protected or atomic access of rwMem/bp.c, and a register call
  in two steps, its checks and its access. A run is any interleaving. `BpProtocol` proves what every interleaving
  keeps. `BpClient` adds the discipline of the README example (wait, use the registers, one cont or step, wait again)
  and proves that stops are handed over without loss. Three modules say, for any clients, exactly where the guarantees
  end: `BpStaleFlag` when a continue flag can outlive its stop, `BpStrayAccess` when the registers of a running target
  can be touched, `BpRelease` when a handle may be closed. `BpStepList` shows that the one global list is a stack for
  each thread, and where a step exception goes. `BpStops` counts: every hit and every recognised step exception of an
  open handle becomes exactly one stop. `BpDriver` is the same state updated in place; each method takes exactly one
  event, so that the history of the object is a run and the theorems about runs hold of it at any time. `Registers`
  has what the register calls read and set behind their checks.
* **Remote memory** (`PhysMem`, `ProcMaps`, `RemoteMemory`, `MemoryTheorems`, `AccessTheorems`, `MemoryClients`). The
  page loops of rwmem_read and rwmem_write over a four-level walk refine a flat byte-by-byte copy of the longest
  accessible prefix. `AccessTheorems` says which areas an unforced access can reach, over all page tables. The two
  clients are proved on top of the driver calls, headers included, with the exact condition under which each call
  succeeds.
* **Memory map** (`MapRecords`, `MapSlots`, `MapParse`, `Residency`, `Runs`, `MemMap`, `MapTheorems`, `CppMap`,
  `CppMapTheorems`). From the area list and the page tables, through the record writer, the chunked bitmap, the
  parsers and the coalescing loops, to the list the callers get. The library's list covers an address exactly when
  that address lies in an area and an unforced read of its byte would deliver it, for all areas it can count. The
  server's client passes sizes through C ints, and its list leaves out very large areas; it is complete exactly when
  none of these has a resident page.
* **Server** (`RegionQuery`, `RegionCache`, `RegionTheorems`, `Modules`, `ModuleStream`, `CompressBlocks`, `Sockets`,
  `HandleTable`). Region queries over the cached list, module aggregation, the batched module stream, the compressed
  block stream and the handle table. `Sockets` ties the result of sendall to what the single sends return, so that
  answers are known to arrive on a connection that does not fail, and the output of deflate is a function of what its
  calls do.

Conventions. Bytes are numbers below 256 and words are little endian. 64-bit and 32-bit wrap-around is written out
(`Va`, `Stop`, `ToInt32`, `% U32`, `% U64`). User memory, kernel buffers, RAM and page table entries are arrays or
fields that methods change in place; each method is proved against a function of the old state, and the theorems
are about these functions. The physical memory of a machine is `PhysMem.Memory`; `FramesInRam` says that every
mapped frame lies in RAM and is not frame 0, the value the driver uses for "not mapped".

Where the code differs from its documentation, or from what a caller may expect, the model follows the code:

* read_mem clears index 17 of its buffer, not the flag at index 16 (librwmem/src/lib.rs:82). A buffer of exactly 17
  bytes therefore panics, and a longer one is read with force exactly when the caller left a 1 in byte 16
  (`MemoryClients.RustReadMem`).
* The server's read call puts its header into the caller's buffer when that has 17 bytes or more. A failed or short
  read leaves a part of the header behind (`MemoryClients.CppReadMem`).
* In the first minute of uptime a query without a list does not ask for one, since the age is taken from 0
  (CEServer/api.cpp:447, `RegionCache.FailedFetchIsNotKept`).
* The flag described as "list completed" is set exactly when the list is incomplete
  (CEServer/MemoryReaderWriter37.hpp:372, `CppMap.CppVirtualQueryExFull`).
* The access pre-check adds in 64 bits. A range that wraps at 2^64 is admitted, and can then leave its area exactly
  when another area is adjacent (`AccessTheorems.StaysIffConfined`). A count of read(2) or write(2) is never that
  large, so this concerns the function and not its callers (`AccessTheorems.UnforcedStaysInOneArea`).
* The walk looks at 48 bits of an address, so addresses 2^48 apart are the same byte (`PhysMem.WalkRepeats`).
* A write counts the bytes of its range whether or not the caller's memory holds them, because the results of the
  inner copies are ignored (`RemoteMemory.Write`, `RemoteMemory.Read`).
* A second cont before the target wakes is accepted and leaves a stale continue flag
  (`BpProtocol.OverlappingContinuesLeaveAStaleFlag`, with the exact condition in `BpStaleFlag.NeverStaleIff`).
* The stopped check of a register call is not held until the access, so another client's cont in between lets the
  access come to a running target (`BpStrayAccess.NeverStrayIff`).
* Release marks one step entry. A handle with two accepted steps that no step exception has answered must not be
  closed (`BpRelease.CloseIsSafeIffAnswered`), and no discipline of its client prevents that: a breakpoint can be hit
  before the step exception comes (`BpRelease.WaitDrivenCloseUnsafe`).
* The page count of an area comes back as a C int. The library takes -1 for an error (`MemMap.RustGetMemMap`). The
  server's client drops an area whose count is not positive, for instance one of 8 TB
  (`CppMapTheorems.LargeAreaIsDropped`, `CppMapTheorems.CppListIsCompleteIff`), and its buffers are large enough
  exactly while their sizes are ints (`CppMap.BufferIsLargeEnough`).

## Model

| member | source | states |
|---|---|---|
| BpProtocol.RunsAreSafe | rwMem/bp.c:33-62 | after every interleaving of any handles, threads and clients: stopped holds exactly between the set and the clear statement of the callback, poll is raised only inside that window, and queued work, calls and live step entries belong to open handles of their own thread |
| BpProtocol.StepKeepsInv | rwMem/bp.c:64-128 | each single event keeps that invariant, whoever causes it |
| BpProtocol.ReadyMeansStopped | rwMem/bp.c:146-153 | in every run a poll that would be ready finds its handle stopped, and stopped is exact |
| BpProtocol.OneStopPerThread | rwMem/bp.c:33-62 | in every run at most one handle of a target thread is stopped |
| BpProtocol.OverlappingContinuesLeaveAStaleFlag | rwMem/bp.c:227-238 | for any handle and thread, a run with two overlapping cont calls ends with the target running and continue_flag set |
| BpProtocol.FindStep | rwMem/bp.c:73-92 | the search of the step list finds the newest entry of the thread, or none if there is none |
| BpProtocol.MarkRemovedEntries | rwMem/bp.c:165-173 | release marks the first entry of its file and leaves every other entry as it was |
| BpProtocol.CloseKeepsInv | rwMem/bp.c:155-186 | closing an idle handle with at most one live entry leaves no live step entry without an open file |
| BpProtocol.CloseIsSafeIff | rwMem/bp.c:155-186 | for an idle handle, closing keeps the invariant if and only if no older live step entry names the handle |
| BpRelease.CloseIsSafeIffAnswered | rwMem/bp.c:155-186 | for every run and every idle open handle: closing it keeps the invariant if and only if at most one of its accepted steps is still unanswered by a step exception |
| BpRelease.WaitDrivenCloseUnsafe | rwMem/bp.c:282-299 | a run with a wait-driven client, two steps and a breakpoint hit in between reaches an idle handle whose closing leaves a live entry for a file that is gone |
| BpClient.WaitDrivenRuns | README.md:40-54 | in every run whose client of a handle is wait-driven, each stop is in exactly one place of the hand-over between target and client |
| BpClient.StopsAreConserved | rwMem/bp.c:38-58 | for a wait-driven client resumes <= releases <= accepted calls <= ready polls <= stops <= resumes + 1, and continue implies stopped |
| BpClient.NothingRefusedWhileHolding | rwMem/bp.c:195-317 | after a ready poll no register access with a valid operand, cont or step of that client is refused |
| BpClient.NoLostStop | librwmem/examples/test.rs:19-33 | a waiting target has either a ready poll or its release pending, and a client inside a call can always go on |
| BpClient.AccessInsideWindow | rwMem/bp.c:195-218 | a wait-driven client touches the registers only while its target waits inside the stop window |
| BpStaleFlag.StaleStep | rwMem/bp.c:227-238 | from any reachable state an event makes a continue flag stale if and only if it ends a cont or step call of a handle whose target has already resumed |
| BpStaleFlag.NeverStaleIff | rwMem/bp.c:53-58 | for every run of any clients: no stale flag can be reached from any part of it by calls in flight running to their end, if and only if the target never cleared its flags while a cont or step call of the handle was in flight |
| BpStaleFlag.ClearsAloneSettles | rwMem/bp.c:227-325 | after such a run a handle that is not stopped has neither a continue flag nor a call in flight |
| BpStaleFlag.WaitDrivenClearsAlone | README.md:40-54 | the discipline of a wait-driven client meets that condition in every run |
| BpStrayAccess.StrayStep | rwMem/bp.c:195-198 | a register access gets outside the stop window by one kind of event only: its target clears the flags between the check and the access |
| BpStrayAccess.NeverStrayIff | rwMem/bp.c:239-256 | for every run of any clients: at no point can a register access come to a target that is not stopped, if and only if the target never cleared its flags while a register call of the handle was between check and access |
| BpStrayAccess.StrayMeansAccess | rwMem/bp.c:253-255 | such a point is one at which the access can be made although the target is not stopped |
| BpStrayAccess.WaitDrivenNeverStrays | README.md:40-54 | a wait-driven client never gets there |
| BpStepList.RemovalPops | rwMem/bp.c:75-92 | taking the entry the handler finds pops the stack of its thread and changes no other thread's stack |
| BpStepList.StepListIsAStackPerThread | rwMem/bp.c:291-299 | in every run the list holds for each thread a stack defined by the events alone, whose height is accepted steps minus recognised exceptions |
| BpStepList.RunsKeepLive | rwMem/bp.c:165-173 | in every run all step entries that name an open file are live |
| BpStepList.StepTrapIsRoutedToItsThread | rwMem/bp.c:64-109 | in every run a step exception is recognised iff its thread has an entry; if the handle of the newest one is open it debugs the thread and its work joins the end of that queue, otherwise the thread stays as it is; no other thread, flag or call changes |
| BpStops.HitQueues | rwMem/bp.c:111-128 | a hit is possible whenever the thread runs, and adds one work behind whatever its queue holds |
| BpStops.EveryHitStops | rwMem/bp.c:33-128 | in every run: hits plus recognised step exceptions of the open handle equal the works begun plus those queued, and the works begun equal its stops plus the one about to stop |
| BpStops.TargetsGoOn | rwMem/bp.c:33-62 | in every run the next statement of a target is possible at any point but the wait, which ends iff continue_flag is set |
| BpDriver.Driver.constructor | rwMem/bp.c:23-24 | the initial state has no handles and an empty step list, and its history is the empty run |
| BpDriver.Driver.CreateFile | rwMem/sys.c:349-367 | a new handle starts with all flags clear and takes the open event |
| BpDriver.Driver.BpCallback | rwMem/bp.c:111-128 | a breakpoint hit puts work for its handle behind the queue of the target thread |
| BpDriver.Driver.TakeStep | rwMem/bp.c:73-92 | the list walk unlinks the newest entry of the thread and leaves the others in order, or finds none |
| BpDriver.Driver.StepHandler | rwMem/bp.c:64-109 | returns handled iff the steps so far leave an entry of the thread, removes the newest one, and its handle joins the queue iff it is open |
| BpDriver.Driver.BeginWork | rwMem/bp.c:33-37 | a queued task work starts at the first statement of the callback |
| BpDriver.Driver.MarkStopped | rwMem/bp.c:38-41 | takes the event that sets stopped_flag, and no other handle of the thread is stopped then |
| BpDriver.Driver.RaisePoll | rwMem/bp.c:46-48 | takes the event that raises poll |
| BpDriver.Driver.WakeUp | rwMem/bp.c:50-51 | the wait ends only when continue_flag is set |
| BpDriver.Driver.DropPoll | rwMem/bp.c:53-54 | takes the event that clears poll |
| BpDriver.Driver.ClearFlags | rwMem/bp.c:55-58 | takes the event that clears both flags and resumes the thread |
| BpDriver.Driver.Poll | rwMem/bp.c:146-153 | returns whether poll was raised and clears it; a ready poll finds its handle stopped |
| BpDriver.Driver.CallRegister | rwMem/bp.c:187-281 | a register call is refused with EINVAL iff the handle is not stopped or its operand is invalid; a wait-driven client that holds a stop is served |
| BpDriver.Driver.Access | rwMem/bp.c:253-279 | the access ends the call; for a wait-driven client the target waits inside the stop window |
| Registers.Target.Read | rwMem/bp.c:187-218 | both register sets, the general one, or EINVAL by the size of the buffer, in the layout the library expects; the rest of the buffer is unchanged |
| Registers.Target.SetReg | rwMem/bp.c:239-257 | register id takes the value and no other changes; refused iff the id is 34 or more |
| Registers.Target.SetSimdReg | rwMem/bp.c:258-281 | vector registers take 128 bits, fpsr and fpcr the low 32; refused iff the id is 34 or more |
| Registers.GeneralShows | librwmem/src/lib.rs:403-409 | a buffer with the general registers shows each of them to the library |
| Registers.SimdShows | librwmem/src/lib.rs:411-417 | a buffer with both structs shows each vector register, fpsr and fpcr |
| Registers.SetAndGet | librwmem/src/lib.rs:367-409 | set_reg and then get_regs: the register shows the new value, every other one its old value |
| BpDriver.Driver.IsStopped | rwMem/bp.c:318-321 | the answer is true exactly inside the stop window of the callback |
| BpDriver.Driver.CallContinue | rwMem/bp.c:227-232 | cont is accepted iff the handle is stopped, and always from a wait-driven client that holds a stop |
| BpDriver.Driver.CallStep | rwMem/bp.c:282-290 | step is accepted iff the handle is stopped, and always from a wait-driven client that holds a stop |
| BpDriver.Driver.PushStep | rwMem/bp.c:291-299 | an accepted step puts an entry for the target in front of the list |
| BpDriver.Driver.SetContinue | rwMem/bp.c:311-316 | the call ends by setting continue_flag |
| BpDriver.Driver.MarkStep | rwMem/bp.c:165-173 | the list walk marks the first entry of the file only |
| BpDriver.Driver.Release | rwMem/bp.c:155-186 | continue_flag is set, so that a waiting target can wake, then the first entry of the file is marked and the record goes away; on an idle handle this keeps the invariant iff no older live entry names it |
| PhysMem.SizeInsidePage | rwMem/phy_mem.h:217-225 | the piece never crosses a page boundary, is never empty for a non-empty rest, and ends either the range or the page |
| PhysMem.PteOf | rwMem/phy_mem.h:120-138 | the returned entry address is that of a present entry |
| PhysMem.EntryIff | rwMem/phy_mem.h:74-143 | the walk finds an entry iff bits 47 to 12 of the address select it through four present levels and it is present, and then gives frame and offset |
| PhysMem.TranslationKeepsOffset | rwMem/phy_mem.h:129-132 | the result is 0 iff the page is absent, and otherwise keeps the offset inside the page and lies in RAM with its whole page |
| PhysMem.WalkRepeats | rwMem/phy_mem.h:74-120 | the walk masks its indices, so page numbers 2^36 apart reach the same entry |
| PhysMem.SamePage | rwMem/phy_mem.h:50-143 | inside one page translation is a shift |
| PhysMem.Memory.ReadRam | rwMem/phy_mem.h:241-300 | the bounce loop delivers the physical range up to the end of user memory and touches nothing else; all of it iff it fits |
| PhysMem.Memory.WriteRam | rwMem/phy_mem.h:302-351 | the loop stores the given bytes at the physical range as far as user memory holds them, and what a failing user copy leaves |
| PhysMem.Memory.ChangePteWrite | rwMem/phy_mem.h:186-199 | changes the write permission of one entry and nothing else, and fails iff there is none |
| ProcMaps.FindVma | rwMem/proc_maps.h:65 | the first area that ends above the address |
| ProcMaps.FindVmaContains | rwMem/proc_maps.h:65 | in a sorted list this is the area that contains the address, if any does |
| RemoteMemory.ReachIsUnique | rwMem/sys.c:49-96 | the longest accessible prefix is unique, so the result of a call is determined |
| RemoteMemory.PieceAt | rwMem/sys.c:57-83 | the bytes of one loop turn share a page table entry and are contiguous in physical memory, also where addresses wrap |
| RemoteMemory.FlatReadPiece | rwMem/sys.c:78-92 | one piece continues the flat read |
| RemoteMemory.FlatWritePiece | rwMem/sys.c:156-171 | one piece continues the flat write |
| RemoteMemory.FlatWritePrefix | rwMem/sys.c:127-172 | a write of n bytes depends on the first n bytes of the data only |
| RemoteMemory.ReadPages | rwMem/sys.c:49-96 | the loop returns the length of the longest mapped (and, unforced, readable) prefix; the flat read of it stands in the buffer, as far as that reaches, and the rest of the buffer is unchanged |
| RemoteMemory.Read | rwMem/sys.c:27-103 | every error branch with its code and an unchanged buffer; otherwise the longest accessible prefix, for any buffer length and size |
| RemoteMemory.WritePages | rwMem/sys.c:127-172 | the loop writes exactly the longest mapped (and, unforced, writable) prefix, from as much data as user memory holds, and restores every page permission |
| RemoteMemory.StorePiece | rwMem/sys.c:144-169 | opening and closing a read-only page leaves the page table as it was |
| RemoteMemory.Write | rwMem/sys.c:105-181 | every error branch with its code and unchanged memory; otherwise RAM becomes the flat write of the prefix, page entries are unchanged, and the count does not depend on how long the buffer is |
| MemoryTheorems.ReadDelivers | rwMem/sys.c:49-96 | byte k of a read is the physical byte at the translation of addr + k |
| MemoryTheorems.AccessibleIff | rwMem/sys.c:57-76 | a byte is accessible iff the tables lead to a present entry that permits the access or the access is forced |
| MemoryTheorems.WithoutMmNothing | rwMem/phy_mem.h:50-73 | without an mm no byte is accessible, not even by force |
| MemoryTheorems.WriteFrame | rwMem/sys.c:127-172 | no physical byte outside the translated range changes |
| MemoryTheorems.WriteStores | rwMem/sys.c:127-172 | when bytes of the range that share a physical byte agree in the data, byte k of the data stands at the translation of addr + k |
| MemoryTheorems.ReadAfterWrite | rwMem/sys.c:27-181 | for every page table, reading a written prefix returns the data if and only if aliases in the range agree |
| MemoryTheorems.OneToOneHasNoAliases | rwMem/phy_mem.h:74-132 | a translation that shares no frame between distinguishable pages has no aliases in any range of up to 2^48 bytes |
| MemoryTheorems.WrittenRangeIsReadable | rwMem/sys.c:66-76 | a read of the written prefix reaches all of it when it is forced or pages are readable |
| AccessTheorems.AdmittedStays | rwMem/proc_maps.h:52-105 | an admitted unforced access that moves a byte stays in the area the pre-check found, and that area permits it, although vm_start is never compared |
| AccessTheorems.AdmittedIff | rwMem/proc_maps.h:63-101 | an access from an area is admitted iff the area permits it and it ends in the area |
| AccessTheorems.AdmittedInGap | rwMem/proc_maps.h:63-101 | an access from outside all areas is admitted iff the next area permits it and it ends before that area does |
| AccessTheorems.RefusedIff | rwMem/sys.c:37-47 | EINVAL iff the pid is unknown; no refusal iff it is known and the access is forced or passes the pre-check; EFAULT otherwise |
| AccessTheorems.StaysIffConfined | rwMem/proc_maps.h:66-73 | for every area list of a user process and every admitted request: it stays in its area under all page tables if and only if it does not wrap at 2^64, or starts below the area, or no area is adjacent |
| AccessTheorems.EveryAreaListHasTables | rwMem/phy_mem.h:74-132 | every area list has four-level page tables that map exactly its addresses without aliases |
| AccessTheorems.UnforcedStaysInOneArea | rwMem/sys.c:42-64 | a call of rwmem_read or rwmem_write that was not refused, is not forced and moved n bytes stayed in one area that permits it |
| AccessTheorems.UnforcedWriteChangesOneArea | rwMem/sys.c:120-142 | an unforced write changes no physical byte but those of addresses of one writable area |
| MemoryClients.HeaderRoundTrip | librwmem/src/lib.rs:99-102 | the driver reads back the pid, address and force flag that a client put into the 17 header bytes |
| MemoryClients.HeaderLayout | CEServer/MemoryReaderWriter37.hpp:196-198 | process, address and a flag byte of 1 or 0 at offsets 0, 8 and 16 |
| MemoryClients.ReadCall | rwMem/sys.c:27-103 | the read call as a client sees it |
| MemoryClients.WriteCall | rwMem/sys.c:105-181 | the write call as a client sees it |
| MemoryClients.RustReadShort | librwmem/src/lib.rs:64-78 | short buffers are read unforced: complete with the flat read, or an error that says how far the driver got and leaves the buffer as it was |
| MemoryClients.RustReadLong | librwmem/src/lib.rs:79-93 | long buffers use their own byte 16 as the force flag, and length 17 panics; a short read has delivered its bytes, and bytes behind header and data are unchanged |
| MemoryClients.RustReadMem | librwmem/src/lib.rs:63-95 | panics iff the length is 17; otherwise complete or an error, forced iff the buffer is long and its byte 16 was 1 |
| MemoryClients.RustWriteMem | librwmem/src/lib.rs:98-115 | always forced; fails iff the pid is unknown; otherwise exactly the longest mapped prefix is written, and Done means all of it |
| MemoryClients.CppReadMem | CEServer/MemoryReaderWriter37.hpp:160-210 | succeeds iff the arguments are not zero, the request is admitted and its first byte is readable; then it delivers the longest accessible prefix; behind it stands what the driver was given, which is the header in a buffer of 17 bytes or more |
| MemoryClients.CppWriteMem | CEServer/MemoryReaderWriter37.hpp:261-296 | succeeds iff the arguments are not zero, the request is admitted and its first byte is writable; then it has written the longest writable prefix; otherwise it reports 0 and changes nothing |
| MemoryClients.WriteThenRead | README.md:32-37 | for every page table and data, a complete write followed by a complete read of the same range returns the data iff aliases agree, and always under a one-to-one translation |
| Residency.OrBitHalf | rwMem/sys.c:279 | or-ing in a higher bit acts on the upper half and keeps the lowest bit |
| Residency.HasBitIsDigit | rwMem/sys.c:279 | a tested bit is a digit of the binary number |
| Residency.PackGrows | rwMem/sys.c:278-280 | or-ing in the bit of one more page changes exactly the byte that covers it |
| Residency.BitmapBit | rwMem/sys.c:278-280 | bit k of the flat bitmap is set iff page k is resident, and padding bits are zero |
| Residency.ResidentIff | rwMem/sys.c:274-279 | a page is resident iff the tables give it a present entry that may be read |
| Residency.ResidentIsReadable | rwMem/sys.c:274-280 | a page is resident iff an unforced read of any of its bytes delivers that byte |
| Residency.BitsAreReads | rwMem/sys.c:271-298 | bit k of the answer is set iff an unforced read of one byte on page k delivers it |
| Residency.FlushContinues | rwMem/sys.c:282-292 | a flushed chunk continues the flat bitmap |
| Residency.NextPage | rwMem/sys.c:273-293 | one turn keeps the invariant of flushed bytes, chunk buffer and index, or fails on the user copy |
| Residency.SendRest | rwMem/sys.c:295-298 | the last copy completes the flat bitmap |
| Residency.CheckPages | rwMem/sys.c:262-300 | for every page count the chunked loop leaves the flat bitmap, exactly ceil(pages / 8) bytes, in the caller's buffer, and fails iff the buffer is shorter |
| Residency.CheckPhy | rwMem/sys.c:226-301 | every error branch with its code and an unchanged buffer, and otherwise the page count and the flat bitmap, whose bit k tells whether an unforced read on page k delivers its byte |
| Runs.RunsOfAreRuns | librwmem/src/lib.rs:163-196 | expanding the runs gives back the flags; runs are non-empty and separated |
| Runs.RunsAreUnique | librwmem/src/lib.rs:163-196 | there is only one such list of runs |
| Runs.CoalesceRust | librwmem/src/lib.rs:163-196 | the loop returns the runs as address ranges |
| Runs.CoalesceCpp | CEServer/MemoryReaderWriter37.hpp:419-451 | the loop over packed bits returns the same ranges |
| MapRecords.NameOf | rwMem/proc_maps.h:175-209 | a name has at most 511 bytes and no NUL |
| MapRecords.NameTells | rwMem/proc_maps.h:175-209 | a mapped file gives its path up to the first NUL and at most 511 bytes of it; any other area is [vdso], [heap], [stack] or nameless by where it lies |
| MapRecords.FieldHoldsName | rwMem/proc_maps.h:245 | for any name length the field holds as much of the name as leaves room for a NUL |
| MapRecords.UpToNul | librwmem/src/lib.rs:153-160 | the bytes before the first NUL |
| MapRecords.PutRecord | rwMem/proc_maps.h:221-251 | four user copies in order, ending at the first that leaves the buffer |
| MapRecords.TryRecord | rwMem/proc_maps.h:158-254 | one turn of the walk |
| MapRecords.GetProcMapsList | rwMem/proc_maps.h:120-260 | the loop writes the list of records and returns the count and the pass flag of the walk |
| MapRecords.PutRecordFits | rwMem/proc_maps.h:245-251 | with the clients' name length a record fills its slot, name zero-terminated, and never overruns it |
| MapRecords.RecordLayout | rwMem/proc_maps.h:221-251 | start, end, the four permission bytes and the zero-terminated name at offsets 0, 8, 16 and 20 |
| MapRecords.ListFillsSlots | rwMem/proc_maps.h:150-259 | the records stand in the slots in order, as many as fit, and pass is reported iff there are more areas than slots |
| MapSlots.WritesWhatFits | rwMem/proc_maps.h:145-260 | for every buffer, announced size and name length: the records stand in their slots in order as long as the next one starts before the announced end and fits in the buffer, and pass tells iff some are missing |
| MapRecords.ErrorsBecomeCounts | rwMem/proc_maps.h:130-147 | a zero name length, an exited task and a task without mm give the counts -1, -2 and -3 with nothing written |
| MapRecords.MapsList | rwMem/sys.c:199-225 | every branch of the ioctl, with the count in front |
| MapParse.NameRoundTrip | librwmem/src/lib.rs:151-160 | both ways to cut the name field give the kernel's name |
| MapParse.RecordRoundTrip | librwmem/src/lib.rs:144-160 | parsing a record gives back start, end, name and each permission of the area |
| MapParse.ParsersAgree | CEServer/MemoryReaderWriter37.hpp:374-416 | the C++ parser gives the same area in the server's terms, although it tests flags and cuts names differently |
| MapParse.ProtectionTells | CEServer/MemoryReaderWriter37.hpp:393-409 | the protection constants tell no access, read only, writable and executable apart |
| MapParse.RegionTells | CEServer/MemoryReaderWriter37.hpp:374-416 | the region the server makes of an area has its range and name, and its protection and type tell the permissions and whether it is shared |
| MapParse.RequestRoundTrip | librwmem/src/lib.rs:122-124 | the driver reads back the list request |
| MapParse.RequestLayout | librwmem/src/lib.rs:122-124 | process, 512 and the buffer size at offsets 0, 8 and 16 |
| MapParse.ListArrives | rwMem/sys.c:217-224 | a zeroed buffer of the clients' size arrives with whole records and the count in front |
| MapParse.FetchList | CEServer/MemoryReaderWriter37.hpp:355-373 | the fetched buffer holds every record that fits, and is reported unfinished iff there are more than count + 50 areas |
| MemMap.AskResidency | librwmem/src/lib.rs:233-249 | the library's buffer is large enough for every page count, bit k is the residency of page k, and the page count arrives cut to a C int |
| MemMap.PhyLayout | librwmem/src/lib.rs:233-249 | process, start and end at offsets 0, 8 and 16 |
| MemMap.RustIsMemPhy | librwmem/src/lib.rs:223-253 | each error with its condition, including a page count that is cut to -1, and otherwise the residency of every page |
| MemMap.RustOneArea | librwmem/src/lib.rs:144-209 | one record becomes the entries of its area, or the error when its page count is taken for one |
| MemMap.RustGetMemMap | librwmem/src/lib.rs:118-211 | for all areas: MapsTooLong iff there are more than count + 50, else an error iff residency is asked for and some area has a page count of -1 modulo 2^32, else the reference list of all areas |
| CppMap.BufferIsLargeEnough | CEServer/MemoryReaderWriter37.hpp:471-472 | the C++ buffer holds the bitmap if and only if its size in bytes is below 2^31 |
| CppMap.KeptBelow | CEServer/MemoryReaderWriter37.hpp:476-480 | of the areas of up to 2^32 pages exactly those of fewer than 2^31 are kept |
| CppMap.CheckMemAddrIsValid | CEServer/MemoryReaderWriter37.hpp:464-481 | while the buffer is large enough: an answer comes iff the task exists and the page count is positive as a C int, and then bit k is the residency of page k |
| CppMap.CppOneArea | CEServer/MemoryReaderWriter37.hpp:375-458 | one record becomes the regions of its area, the same as in Rust, or nothing when the area is dropped |
| CppMap.CppVirtualQueryExFull | CEServer/MemoryReaderWriter37.hpp:341-462 | as long as the sizes are ints, the result is the list of the kept areas, with the flags as the code sets them |
| CppMap.CppEntriesAreReference | CEServer/MemoryReaderWriter37.hpp:417-453 | that list is the reference list of the process without the dropped areas |
| MapTheorems.MapCovers | librwmem/src/lib.rs:118-211 | the entries cover an address iff it lies in an area and its page is resident |
| MapTheorems.MapCoversReadable | librwmem/src/lib.rs:118-211 | the entries cover an address iff it lies in an area and an unforced page loop of rwmem_read delivers its byte, that is iff the tables lead to a present readable entry |
| MapTheorems.CoveredIsReadable | rwMem/sys.c:27-103 | in a readable area an address is covered iff an unforced read call of one byte returns 1 |
| MapTheorems.MapEntriesAreMaximal | librwmem/src/lib.rs:161-196 | every entry is a page-aligned part of one area with its attributes, and cannot be extended inside it |
| MapTheorems.MapIsOrdered | librwmem/src/lib.rs:118-211 | entries are in address order and disjoint |
| RegionQuery.Query | CEServer/api.cpp:468-497 | the loop answers from the first region that ends above the page of the address |
| RegionQuery.InsideRegion | CEServer/api.cpp:479-484 | an address inside a region gets the attributes of that region, up to its end |
| RegionQuery.InsideGap | CEServer/api.cpp:485-490 | an address between regions gets the rest of the gap, with no access, no type and the name of the next region |
| RegionQuery.BehindAll | CEServer/api.cpp:473-497 | nothing is found behind the last region |
| RegionQuery.WalkStands | CEServer/api.cpp:473-495 | a walk by base + size stands between regions or at the start of one, and has returned all regions before |
| RegionQuery.WalkEnds | CEServer/api.cpp:468-497 | a walk has at most two answers per region |
| RegionQuery.WalkTiles | CEServer/api.cpp:479-489 | answers follow each other without hole or overlap; each is a whole region or a no-access gap in front of one |
| RegionQuery.WalkIsComplete | CEServer/api.cpp:468-497 | a walk that ends is at the end of the last region and has returned every region in full |
| RegionQuery.WalkAscends | CEServer/api.cpp:468-497 | no region is returned twice |
| RegionCache.OpenProcess.constructor | CEServer/api.cpp:307-310 | an open process starts without a list |
| RegionCache.OpenProcess.VirtualQueryEx | CEServer/api.cpp:421-498 | answer and cache of one call, with the refetch after 60 seconds and the failed fetch |
| RegionCache.OpenProcess.VirtualQueryExFull | CEServer/api.cpp:354-419 | the listing and the cache it leaves |
| RegionCache.AnswersAreFresh | CEServer/api.cpp:443-466 | over every sequence of calls under a monotonic clock a found answer comes from a list fetched in this call or at most 60000 ms before |
| RegionCache.RefetchedIff | CEServer/api.cpp:443-466 | under a monotonic clock a query asks the driver iff the list it keeps is older than 60000 ms |
| RegionCache.FailedFetchIsNotKept | CEServer/api.cpp:447-466 | after a failed fetch a query finds nothing but what it fetches itself, which it does iff the clock is past its first minute |
| RegionCache.ListingAsks | CEServer/api.cpp:374-397 | a listing asks the driver every time |
| RegionCache.ListingAgreesWithQueries | CEServer/api.cpp:374-418 | while the snapshot is kept, every address of a listed region is answered with its protection, type and end |
| RegionCache.RegionIsListed | CEServer/api.cpp:399-415 | every region with an access is listed, unless it is shared and these are filtered |
| RegionCache.ListedRegion | CEServer/api.cpp:399-415 | every listed region is a region of the map with an access, and not a shared one if these are filtered |
| RegionCache.ListingIsSorted | CEServer/api.cpp:399-415 | the regions are listed in order and once |
| RegionTheorems.DriverListIsSorted | CEServer/MemoryReaderWriter37.hpp:417-453 | the reference list is page aligned, ordered and disjoint in the server's terms, so that all walk theorems apply to it |
| RegionTheorems.QueryTellsResidency | CEServer/api.cpp:468-497 | over the reference list a resident address is answered with the protection and type of its area |
| RegionTheorems.AbsentPageIsInNoRegion | CEServer/MemoryReaderWriter37.hpp:428-445 | an address outside all areas or on an absent page lies in no region of the reference list |
| RegionTheorems.QueryIsResidency | CEServer/api.cpp:421-498 | a query over the reference list reports a type iff the address lies in an area and its page is resident |
| CppMapTheorems.CppListCovers | CEServer/MemoryReaderWriter37.hpp:417-453 | the server's list covers an address iff it lies in a kept area and its page is resident |
| CppMapTheorems.CppListIsSorted | CEServer/MemoryReaderWriter37.hpp:417-453 | the server's list is page aligned, ordered and disjoint |
| CppMapTheorems.CppQueryIsResidency | CEServer/api.cpp:421-498 | a query over the server's list reports a type iff the address lies in a kept area and its page is resident |
| CppMapTheorems.CppListIsCompleteIff | CEServer/MemoryReaderWriter37.hpp:423-426 | the server's list is the reference list if and only if no dropped area has a resident page |
| CppMapTheorems.TellsResidencyIff | CEServer/api.cpp:421-498 | the queries tell residency for every address if and only if no dropped area has a resident page |
| CppMapTheorems.LargeAreaIsDropped | CEServer/MemoryReaderWriter37.hpp:476-480 | a process with one resident area of 8 TB, whose buffer is large enough, for which the list is empty |
| Modules.Grow | CEServer/api.cpp:145-159 | insert-then-erase grows the first module of the name in place, and reports whether there is one |
| Modules.SanitizedName | CEServer/api.cpp:135-143 | square brackets become underscores and nothing else changes, and the name of the vdso stays |
| Modules.EligibleArea | CEServer/api.cpp:124-134 | an area can belong to a module iff it is accessible, private, named and not the heap |
| Modules.Aggregate | CEServer/api.cpp:124-185 | the loop computes the module list of all regions, and there are founding regions that describe it |
| Modules.ModulesAreFounded | CEServer/api.cpp:124-185 | for every region list: unique names in order of the founding regions, the base of the founder, and as size the sum of the founder and all later eligible regions of the name as a C int |
| Modules.EveryFounderHasItsModule | CEServer/api.cpp:164-182 | every first ELF region of a name has its module |
| Modules.SizesAdd | CEServer/api.cpp:149-150 | adding a 64-bit region size to a C int and cutting again is addition modulo 2^32 |
| Modules.SizeIsExact | CEServer/api.cpp:149-150 | a total that fits a C int is exact |
| Sockets.Socket.SendAll | CEServer/main.cpp:60-91 | the result is determined by what the sends return: all of the buffer over partial sends and interruptions, 0 iff the peer closes, -1 iff a send fails; complete on a connection that does not fail and takes something often enough |
| Sockets.EndIsUnique | CEServer/main.cpp:71-91 | for given results of send there is one way for sendall to end |
| Sockets.SteadyGoes | CEServer/main.cpp:71-91 | on a connection that does not fail sendall uses up no more sends that take something than it moves bytes, and completes |
| ModuleStream.PutEntry | CEServer/main.cpp:702-724 | a record is appended after a flush if needed, the position stays in the buffer, sent plus buffered bytes grow by exactly the record, and nothing is lost on a connection that does not fail |
| ModuleStream.SendModules | CEServer/main.cpp:691-740 | the bytes sent are the records in order and the end record, wherever the buffer was flushed, and all of it arrives on a connection that does not fail |
| ModuleStream.EntryRoundTrip | CEServer/main.cpp:713-722 | a record decodes to its module |
| ModuleStream.EntryLayout | CEServer/main.cpp:713-722 | result 1, base, part 0, size, file offset 0, length of the name and the name, at their packed offsets |
| ModuleStream.EndLayout | CEServer/main.cpp:737-740 | the end record has result 0 and no name |
| ModuleStream.StreamRoundTrip | CEServer/main.cpp:701-740 | decoding up to result 0 returns the module list |
| ModuleStream.SnapshotIsSendable | CEServer/api.cpp:176-182 | every module of a snapshot fits the buffer |
| CompressBlocks.PackedOutput | CEServer/main.cpp:380-405 | output of deflate extends the current block |
| CompressBlocks.NewBlock | CEServer/main.cpp:391-404 | the block index stays below the doubled capacity, and all earlier blocks are full |
| CompressBlocks.Compress | CEServer/main.cpp:373-432 | deflate is called to feed the input while there is some and it returns Z_OK, and then to finish the stream until it returns something else; the blocks hold all its output and total_out is its length |
| CompressBlocks.CallsAreUnique | CEServer/main.cpp:380-432 | what the calls of deflate do determines how many there are of either kind, and so the output |
| CompressBlocks.RoomAfterOk | CEServer/main.cpp:391-404 | as long as calls return Z_OK the next one finds room |
| CompressBlocks.NothingIsLost | CEServer/main.cpp:380-432 | when the calls keep to their room, the output is the concatenation of what they put out |
| CompressBlocks.SendBlocks | CEServer/main.cpp:439-446 | full blocks and the filled part of the last one are the stream, and arrive on a connection that does not fail |
| CompressBlocks.SendCompressed | CEServer/main.cpp:352-447 | the wire gets the two sizes and then exactly the output of the calls that feed the input and finish the stream; all of it on a connection that does not fail |
| CompressBlocks.ReceiverGetsStream | CEServer/main.cpp:437-446 | a receiver of the answer that goes by the announced size gets the stream |
| HandleTable.StepKeepsInv | CEServer/porthelp.cpp:14-67 | each call keeps handles in range and unshared, objects owned or freed once, and one handle per process |
| HandleTable.RunsKeepInv | CEServer/api.cpp:294-352 | the same after every run of opens, snapshots and closes |
| HandleTable.TypesAgree | CEServer/api.cpp:314-352 | in every run the object behind a handle is of the type CloseHandle deletes it as |
| HandleTable.HandleStays | CEServer/api.cpp:294-312 | an opened process that was not closed still has its handle |
| HandleTable.OpenIsIdempotent | CEServer/api.cpp:294-299 | opening again before the close returns the same handle and changes nothing |
| HandleTable.Server.FindHandleByPID | CEServer/porthelp.cpp:57-67 | finds a handle of the process iff there is one |
| HandleTable.Server.CreateHandleFromPointer | CEServer/porthelp.cpp:16-31 | the new handle is in range, was not in use, and is the first such of the random draws |
| HandleTable.Server.Open | CEServer/api.cpp:294-312 | takes the open event of the run model |
| HandleTable.Server.SnapshotModules | CEServer/api.cpp:97-121 | refused iff the process is not open or its map is empty; otherwise a new list under a new handle |
| HandleTable.Server.SnapshotList | CEServer/api.cpp:87-96 | a new list under a new handle |
| HandleTable.Server.CloseHandle | CEServer/api.cpp:314-352 | frees the object of a live handle once and ignores other handles |

## Left out

- BpProtocol.CloseKeepsInv: runs close a handle only when no callback and no call of that handle is pending and at most its newest step entry is live; release racing with a callback (rwMem/bp.c:155-186) is not modelled, and a freed file address is not given to a new handle while a step entry still names it.
- BpDriver.Driver.Access: the two register sets are copied in one step. Registers.Target.Read does not model the byte count rwmem_bp_read returns, and user copies succeed there.
- BpDriver.Driver.CreateFile: the perf event behind IOCTL_ADD_BP and its parameter checks are not modelled.
- BpDriver.Driver.PushStep: the single-step thread flag and suspended_step are not modelled, so when a step exception arises is free.
- Wake-ups: wait queues, epoll and fasync are not modelled; a wait for readiness is a poll that returns ready.
- PhysMem.Memory.ReadRam: the range check, the mapping of physical pages and the probing copy succeed inside RAM, as rwmem_read assumes when it ignores the result; user copies fail only where user memory ends. Likewise for WriteRam.
- PhysMem.PteOf: huge pages are not modelled, p4d is folded into pgd, pages have 4096 bytes, and no page has frame 0.
- RemoteMemory.ReadPages: page tables and areas do not change during a call, by the kernel or by another call; likewise for Write.
- MapRecords.PutRecord: a user copy that leaves the buffer copies nothing here; the kernel may copy a part of it before it fails. Likewise for the chunks of Residency.CheckPages.
- AccessTheorems.UnforcedStaysInOneArea: the count is below 2^63, which read(2) and write(2) see to before the driver is called; StaysIffConfined is the statement for all counts.
- MapRecords.NameOf: d_path gives a path; its error values are not modelled.
- MapParse.FetchList: the task and its mm exist and the count of areas is below 2^31, so that no error code becomes a count (MapRecords.ListResult keeps these codes); the count ioctl itself is a parameter, since the list may change in between.
- MemMap.RustGetMemMap: names stay bytes, the lossy conversion to UTF-8 is not modelled.
- CppMap.CheckMemAddrIsValid: nothing is said once the buffer is too short and the driver writes behind it.
- CppMap.CppVirtualQueryExFull: nothing is said once the size of the list buffer, an int expression, overflows.
- MemoryClients.CppWriteMem: the size nSize + 17 of its buffer is an int too; data of 2^31 - 17 bytes or more, for which it overflows, is not modelled.
- MemoryClients.ReadCall: the caller's buffer is apart from mem.ram, so a process that reads or writes a range which overlaps its own buffer is not modelled; likewise for RemoteMemory.Read and RemoteMemory.Write.
- Request codes: ioctls are told apart by name; the numbers, which differ between rwMem/sys.h:23 and CEServer/MemoryReaderWriter37.hpp:36 in their encoding of direction and size, are not modelled.
- Other driver calls: the fast variants, the lseek bypass and connecting are not modelled.
- Modules.Aggregate: reading the ELF magic is a predicate on addresses.
- Modules.Grow: the search of the original goes on after a match if the replaced entry is the last one after erasing; since the old entry always stands behind the inserted one, this never happens, and the loop here ends at the match.
- ModuleStream.SendModules: when a send fails, the rest of the answer is unspecified, as the code goes on regardless; likewise for CompressBlocks.SendCompressed.
- CompressBlocks.Compress: deflate is any sequence of turns, each with the input it takes, what it puts out within its room, and its result; when the sequence is used up it fails. The compressed format is zlib's and is not part of this model, and a table of 2^31 blocks is not considered.
- HandleTable.Server.CreateHandleFromPointer: the random draws are a parameter that contains an unused handle; with all handles in use the original loops for ever.
- HandleTable.Server.SnapshotList: contents of process and thread lists, reading /proc, and requests that combine several snapshot flags are not modelled; a thread list is one object here and two allocations in the source.
- HandleTable.Server.FindHandleByPID: the order in which std::map is visited is left open; there is no lock on the table, and concurrent calls are not modelled.
- RegionCache.OpenProcess.VirtualQueryEx: the fetched list and the clock readings are parameters; the mutex makes calls sequential.
- Other server commands, process list parsing, command-line and breakpoint-type parsing are not modelled: they have no state worth a theorem.
