# Uprobestats: a verified model of its eBPF plumbing

This project models, in Dafny, the parts of the uprobestats module that move data between the kernel
and user space, and proves what they promise. `dafny verify dfyconfig.toml` checks all of it.

**The ring buffer** (`Words`, `RingLayout`, `RingModel`, `RingProof`, `RingTheorems`, `RingConsumer`).
Any number of kernel producers reserve, fill and settle records in a circular byte array while one
consumer runs `ConsumeAll` over a double mapping. Every access to shared memory is one step, including
each payload byte the callback reads, and steps interleave in any order. Positions are kept as the code
keeps them: 64 bits in user space, 32 or 64 bits in the kernel, compared in their low 32 bits, with the
masks of the source applied bit by bit. An invariant holds of every reachable state; from it follow
refinement of a plain queue, stability of what is being read, termination of each call, and that
kernels of either width cannot be told apart. `RingConsumer.BpfRingbuf` is the imperative consumer over
an array that producers change between any two of its accesses; it is proved to take exactly the steps
of the system. `LockTable` models the lock that makes it the only consumer.

**The loader** (`ElfSymbols`, `ElfCode`, `PinnedObjects`, `MapLoader`, `Relocation`, `ProgLoader`,
`ObjectLoader`). Starting from parsed section and symbol tables: names are paired with definitions by
position after a sort that may order equal symbols either way, code sections get the definition of their
function, maps are created or found pinned, load instructions are patched in place with map descriptors,
programs are loaded and pinned, and a directory of objects is loaded one after the other. Every system
call may fail.

**Map loops** (`KernelMap`). `clear`, `iterate`, `iterateWithValue` and `isEmpty` over a map that other
processes delete from between any two system calls, with a successor rule that starts over when the
current key is gone.

**Pipelines.** `BinderFilter`: configuration to fixed-width map keys to the in-kernel match loop, and the
drain at the end. `BitmapTracking`: the probes' set of active bitmaps to the event stream to the handler
that keeps a snapshot of the high-water mark; `BitmapRing` follows the bytes of its records through the
ring. `ByteStrings` reads the strings of both.

**Classic BPF filters** (`ClassicBpf`). The macros are a small assembler; a compiler-correctness theorem
relates the relative-jump code to reading the blocks top to bottom.

## What turned out not to hold, and exactly when it does

- A code section without a function symbol ends the reading of sections, and the call still succeeds:
  everything behind it is silently not loaded. Everything is read exactly if no code with instructions
  lies at or behind the first such section (`ElfCode.AllRead`, an object that is cut short:
  `ElfCode.SilentlyCutShort`).
- The free probe does not set the size of its record, so the running total is the size of the live
  bitmaps exactly if each record happens to carry what is counted for its pointer
  (`BitmapTracking.TotalIsLiveSize`, counterexample `BitmapTracking.StaleSizeDrifts`). On the first lap of
  a zeroed ring every such record is delivered with size 0, and the total never falls at all
  (`BitmapRing.FirstLapNeverFalls`).
- A name of 128 bytes or more, or with a NUL in it, does not come back from the key it is written as
  (`BinderFilter.NameRoundTrip`). What filters with NUL-free names wrote is drained exactly if every name
  has at most 127 bytes (`BinderFilter.FiltersDrainExactly`); a longer one is written and stays
  (`BinderFilter.LongNameStays`, such a name: `BinderFilter.LongNameExists`).
- `iterate` may visit a key twice: exactly if a call of the filter that returns 0 deletes the key already
  fetched as successor while a key that was seen is still in the map, and the call on that successor
  returns 0 too (`KernelMap.RepeatsExactly`, such a run: `KernelMap.SuccessorDeleted`). With others deleting
  as well, the same holds of what the filter and the others delete together
  (`KernelMap.RepeatsAmidExactly`).
- `iterateWithValue` may end with ENOENT before it has seen every key: it succeeds exactly if every call
  returns 0 and spares the key already fetched as successor (`KernelMap.EndsEarlyExactly`, a key that stays
  and is never visited: `KernelMap.KeyMissed`), and with others deleting exactly if no key fetched is deleted
  before its value is read (`KernelMap.EndsEarlyAmidExactly`).
- Polling loses payloads although their records are passed: exactly if the call ends at a record of the
  wrong size after it has handed out at least one (`RingConsumer.BpfRingbuf.PollRingBufVec`).
- Private maps of two objects are meant to have two paths. They have one exactly if the object's name, an
  underscore and the map's name make the same text (`MapLoader.PathsMeet`, such names:
  `MapLoader.PathsCollide`), which without underscores in the objects' names takes equal names
  (`MapLoader.PathsDiffer`).
- On a kernel that has no map ids the exclusive lock excludes nobody (`LockTable.NoIdsNoExclusion`).
- Running a load again that returned 0 may still load a program: exactly if some program in range is not
  pinned, which takes an optional one that failed before (`ProgLoader.RerunExactly`, such a program:
  `ProgLoader.RerunLoadsMore`).

The jump macros have a precondition: the distance must fit the 8 bits of its field. In C++ a larger
constant in the braces of an instruction is rejected as narrowing; `ClassicBpf.WideJumpFails` shows that
without it blocks of every length from 256 on would go wrong, and none below.

## Model

| member | source | states |
|---|---|---|
| RingLayout.RoundLengthIsStride | src/bpf/headers/include/bpf/BpfRingbuf.h:78-82 | for every length and flag combination the consumer's advance is the producer's stride, without 32-bit overflow |
| RingLayout.StrideBounds | src/bpf/headers/include/bpf/BpfRingbuf.h:78-82 | the stride is a multiple of 8, at least 8, and covers header and payload |
| RingLayout.FlagsExactly | src/bpf/headers/include/bpf/BpfRingbuf.h:250-257 | bit 31 of a length word says busy and bit 30 discarded |
| RingLayout.MappedIsAt | src/bpf/headers/include/bpf/BpfRingbuf.h:215-269 | reading on from a masked position through the double mapping stays inside it and shows the ring bytes modulo size, also across the end |
| RingProof.MaskedOffset | src/bpf/headers/include/bpf/BpfRingbuf.h:191-243 | masking the stored 64-bit position gives the true unbounded position modulo the ring size |
| RingProof.LowBitsDecide | src/bpf/headers/include/bpf/BpfRingbuf.h:92-99 | positions less than 2^32 apart are equal exactly when their low 32 bits are |
| RingProof.LoopTestExact | src/bpf/headers/include/bpf/BpfRingbuf.h:235-243 | the loop test fails exactly at the boundary that was snapshotted |
| RingProof.LoadsHeader | src/bpf/headers/include/bpf/BpfRingbuf.h:243-250 | in any state of the invariant the load at the masked position sees the header of the next record in reservation order |
| RingProof.LoadsPayloadByte | src/bpf/headers/include/bpf/BpfRingbuf.h:257-266 | the j-th payload byte read is the j-th byte the producer stored, and lies inside the mapping |
| RingProof.NextPosition | src/bpf/headers/include/bpf/BpfRingbuf.h:255 | the advanced position is the boundary of the next record |
| RingProof.FitsExactly | src/bpf/headers/BpfRingbufTest.cpp:112-136 | the kernel's reservation test in wrapped words is the unbounded one: at most size - 1 bytes outstanding |
| RingProof.ReservationIsFree | src/bpf/headers/include/bpf/BpfRingbuf.h:243-269 | the bytes of a new reservation are disjoint, modulo the ring size, from those of every unread record |
| RingProof.TopStep | src/bpf/headers/include/bpf/BpfRingbuf.h:241-269 | one pass through the loop head, done in masked and truncated words, is decided by the next record alone |
| RingProof.InvStep | src/bpf/headers/include/bpf/BpfRingbuf.h:235-273 | every step of a producer or of the consumer keeps the invariant |
| RingProof.InvRun | src/bpf/headers/include/bpf/BpfRingbuf.h:235-273 | so does every run |
| RingTheorems.Delivery | src/bpf/headers/include/bpf/BpfRingbuf.h:235-273 | in every interleaving the callback has seen exactly the committed, right-sized payloads of a settled prefix of the reservation order; failed calls are as many as wrong-sized records passed; the published position is a record boundary |
| RingTheorems.DeliveredExactly | src/bpf/headers/include/bpf/BpfRingbuf.h:235-273 | spelled out record by record: delivery k is the payload of the k-th record passed that is committed and of the right size, there are no others, and the failed calls are as many as committed records of another size passed |
| RingTheorems.LastStoreStays | src/bpf/headers/include/bpf_helpers.h:285-294 | after any run a byte of a record is what its producer last stored there, whatever everybody else did in between |
| RingTheorems.PhaseIsSettled | src/bpf/headers/include/bpf_helpers.h:290-294 | a record counts as committed, or discarded, exactly if its producer has settled it so |
| RingTheorems.RunExtends | src/bpf/headers/include/bpf/BpfRingbuf.h:235-273 | reservations keep their order and length, settled ones their contents, and deliveries only grow |
| RingTheorems.Refines | src/bpf/headers/include/bpf/BpfRingbuf.h:235-273 | every step of the ring is one allowed step of an abstract queue or none |
| RingTheorems.RingIsQueue | src/bpf/headers/include/bpf/BpfRingbuf.h:235-273 | every run of the ring from its start is a run of the queue, with the same deliveries and failures |
| RingTheorems.ReadStability | src/bpf/headers/include/bpf/BpfRingbuf.h:243-269 | while the callback reads, no number of producer steps changes a byte it sees |
| RingTheorems.ExitState | src/bpf/headers/include/bpf/BpfRingbuf.h:243-272 | a call ends with its count at its snapshot or at a busy record, or with an error just past a wrong-sized record |
| RingTheorems.Progress | src/bpf/headers/include/bpf/BpfRingbuf.h:241-270 | the consumer is never stuck and each of its steps brings the end of the call nearer; producers cannot push it away |
| RingTheorems.CallEnds | src/bpf/headers/include/bpf/BpfRingbuf.h:241-273 | after a bounded number of consumer steps the call has returned, whatever the producers do |
| RingTheorems.WidthStep | src/bpf/headers/include/bpf/BpfRingbuf.h:92-99 | a 32-bit and a 64-bit kernel take the same steps |
| RingTheorems.SameForBothWidths | src/bpf/headers/include/bpf/BpfRingbuf.h:92-99 | over every run they give the same deliveries, results, published positions and ring bytes |
| RingTheorems.Capacity | src/bpf/headers/BpfRingbufTest.cpp:112-136 | without a consumer a ring takes as many records as leave one byte free, and drops the rest |
| RingTheorems.FirstLapIsZero | src/bpf_progs/BitmapAllocation.c:123-128 | on the first lap of a zeroed ring, after any run, a reservation hands out zeros |
| RingConsumer.BpfRingbuf.constructor | src/bpf/headers/include/bpf/BpfRingbuf.h:171-217 | a new ring's consumer has the mask and value size, and its state is that of the step system's start |
| RingConsumer.BpfRingbuf.IsEmpty | src/bpf/headers/include/bpf/BpfRingbuf.h:219-223 | true exactly when every reserved record is passed |
| RingConsumer.BpfRingbuf.LoadLength | src/bpf/headers/include/bpf/BpfRingbuf.h:243-253 | the length word read is that of the next record, loaded inside the mapping |
| RingConsumer.BpfRingbuf.Callback | src/bpf/headers/include/bpf/BpfRingbuf.h:257-266 | the bytes handed to the callback are the record's payload although producers run between the loads |
| RingConsumer.BpfRingbuf.Publish | src/bpf/headers/include/bpf/BpfRingbuf.h:255-269 | the store of the consumer position passes exactly one record |
| RingConsumer.BpfRingbuf.ConsumeAll | src/bpf/headers/include/bpf/BpfRingbuf.h:235-273 | returns the payloads delivered by this call, in order and counted, up to the snapshot or the first busy record, or the error just past a wrong-sized one; it terminates |
| RingConsumer.BpfRingbuf.PollRingBuf | rust/ffi/bpf.cpp:30-47 | whatever it returns, what the callback was handed is what was delivered; -1 exactly if the ring cannot be opened, -2 only just past a wrong-sized record, else the number of payloads |
| RingConsumer.BpfRingbuf.PollRingBufVec | rust/ffi/bpf.rs:35-52 | the payloads or an error; delivered payloads are lost exactly if a wrong-sized record ends a call that has handed out some |
| LockTable.Locks.BpfLock | src/bpf/syscall_wrappers/include/BpfSyscallWrappers.h:136-167 | passes errors through, returns the descriptor unlocked where there are no map ids, else locks it or closes it |
| LockTable.Locks.MapRetrieve | src/bpf/syscall_wrappers/include/BpfSyscallWrappers.h:136-191 | each retrieval is one step of the lock table: a descriptor exactly if every call works and no conflicting lock is held or none can be taken, and otherwise no descriptor left behind |
| LockTable.RunOk | src/bpf/syscall_wrappers/include/BpfSyscallWrappers.h:136-191 | over any calls no two descriptors of a map hold conflicting locks, and each holds what its retrieval asks for |
| LockTable.GrantedExactly | src/bpf/syscall_wrappers/include/BpfSyscallWrappers.h:136-191 | after any calls a retrieval gives a new descriptor of the pinned map exactly if it can be opened and is read-only, or there are no map ids, or no open descriptor that was locked keeps it out, where modes keep each other out unless one is read-only or both are shared; otherwise it leaves the open descriptors as they were |
| LockTable.SingleHolder | src/bpf/syscall_wrappers/include/BpfSyscallWrappers.h:169-175 | over any calls, where ids are known, a map with an exclusive descriptor has no other but read-only ones |
| LockTable.NoIdsNoExclusion | src/bpf/syscall_wrappers/include/BpfSyscallWrappers.h:147-149 | without map ids two exclusive descriptors coexist |
| ElfSymbols.GetSectionSymNames | src/bpfloader/UprobeStatsBpfLoad.cpp:363-412 | collects the names of the symbols of the first section with the name, or fails at the first unreadable name |
| ElfSymbols.SelectCounts | src/bpfloader/UprobeStatsBpfLoad.cpp:398-409 | of a section are selected all symbols whose section index it is and whose kind is the one asked for, as often as they are there, and no others |
| ElfSymbols.SymNamesSucceed | src/bpfloader/UprobeStatsBpfLoad.cpp:363-412 | collecting names succeeds exactly if the section is found and every symbol of it that is asked for has a readable name, and gives one name for each |
| ElfSymbols.SelectPermutation | src/bpfloader/UprobeStatsBpfLoad.cpp:398-409 | selecting a section's symbols does not depend on the order of the table |
| ElfSymbols.SortedLabels | src/bpfloader/UprobeStatsBpfLoad.cpp:296-316 | sorted by value, the j-th symbol labels the j-th definition |
| ElfSymbols.NamesAreLabels | src/bpfloader/UprobeStatsBpfLoad.cpp:296-412 | for any order of a well-formed symbol table and any sort of it, name j is the label of definition j |
| ElfCode.ReadCodeSections | src/bpfloader/UprobeStatsBpfLoad.cpp:431-514 | the loop's result and return value, with each early return |
| ElfCode.NeedsDefinitions | src/bpfloader/UprobeStatsBpfLoad.cpp:441-448 | without a section of program definitions, with one of an odd size, or with unreadable names in it, nothing is read and the call fails |
| ElfCode.SectionTypeExactly | src/bpfloader/UprobeStatsBpfLoad.cpp:89-112 | the program type of a name by each of the known prefixes |
| ElfCode.ReadsExactly | src/bpfloader/UprobeStatsBpfLoad.cpp:450-511 | reading succeeds exactly if every section up to the end, or up to a code section without a function, has a readable name and, if it is code, a type on the list of allowed ones; whatever happens, nothing of another type has been read |
| ElfCode.ReadFrom | src/bpfloader/UprobeStatsBpfLoad.cpp:452-513 | in an orderly object exactly the code with instructions before the first function-less code section is read, in order, and the call succeeds |
| ElfCode.AllRead | src/bpfloader/UprobeStatsBpfLoad.cpp:482-485 | everything is read exactly if no code with instructions lies at or behind such a section |
| ElfCode.SilentlyCutShort | src/bpfloader/UprobeStatsBpfLoad.cpp:482-485 | an object with two code sections and its definitions, of which the one with a function is not read although the call succeeds |
| ElfCode.DefOf | src/bpfloader/UprobeStatsBpfLoad.cpp:486-491 | the definition is the first whose name is that of the function with "_def" behind it, and missing exactly if no name is |
| ElfCode.SectionRead | src/bpfloader/UprobeStatsBpfLoad.cpp:450-511 | in place k of what is read from an orderly object is its k-th section of code with instructions: those instructions, the relocations of the section behind exactly if that is named for it, the name with underscores for slashes and the type of its prefix |
| ElfCode.OwnDefinition | src/bpfloader/UprobeStatsBpfLoad.cpp:441-510 | and, for any order of the symbol table, the definition labelled by the function at its lowest address |
| ElfCode.CodeFromAlike | src/bpfloader/UprobeStatsBpfLoad.cpp:296-316 | where each code section has one lowest function or none, every way of sorting equal symbols reads the same sections |
| PinnedObjects.Kernel.Pin | src/bpfloader/UprobeStatsBpfLoad.cpp:682-683 | pinning binds a free path to the descriptor's object and never rebinds one |
| MapLoader.MapMatchesExpectations | src/bpfloader/UprobeStatsBpfLoad.cpp:530-578 | true exactly for a map with the wanted type, sizes, page-rounded entries and read-only flag |
| MapLoader.ExpectedExactly | src/bpfloader/UprobeStatsBpfLoad.cpp:551-569 | the attributes compared with are those the definition asks for: the older type where the kernel lacks the newer, at least a page for ring buffers, bit 7 of the flags set for device maps and every other bit as given |
| MapLoader.OnePathIfShared | src/bpfloader/UprobeStatsBpfLoad.cpp:641-646 | one definition in two objects has one path exactly if it is shared |
| MapLoader.PathsDiffer | src/bpfloader/UprobeStatsBpfLoad.cpp:641-646 | without underscores in the objects' names two paths are equal exactly if the maps' names are and the objects' names, left out where shared, are |
| MapLoader.PathsCollide | src/bpfloader/UprobeStatsBpfLoad.cpp:641-646 | with an underscore two private maps of different objects can have one path |
| MapLoader.CreateMaps | src/bpfloader/UprobeStatsBpfLoad.cpp:580-723 | the call's effect on pins, objects and descriptors, and its return value, for every failing system call |
| MapLoader.MakeMapGrows | src/bpfloader/UprobeStatsBpfLoad.cpp:652-719 | one map's iteration rebinds no pin; a descriptor it returns is of the map pinned at its path, with the wanted attributes |
| MapLoader.FirstErrno | src/bpfloader/UprobeStatsBpfLoad.cpp:652-710 | the error returned is the first there is of those calls that are made, ENOTUNIQ for a map that does not match; what could be pinned stays pinned |
| MapLoader.AbortsExactly | src/bpfloader/UprobeStatsBpfLoad.cpp:609-611 | the process aborts exactly at a definition with a non-zero last field, once each map before it has its descriptor or was skipped |
| MapLoader.OneFdPerName | src/bpfloader/UprobeStatsBpfLoad.cpp:609-719 | on success there is exactly one descriptor per name, -1 for skipped maps and otherwise of the map pinned at the name's path; however it ends no pin is rebound |
| MapLoader.SucceedsExactly | src/bpfloader/UprobeStatsBpfLoad.cpp:652-682 | where no system call fails it succeeds exactly if what is pinned at its paths matches, and fails with ENOTUNIQ otherwise |
| MapLoader.SharedMapsAgree | src/bpfloader/UprobeStatsBpfLoad.cpp:645-681 | objects that name the same path end up with the same map and agree on its attributes |
| MapLoader.SharedIsSame | src/bpfloader/UprobeStatsBpfLoad.cpp:641-681 | for two loads with anything in between, a shared map of one name is one map, whatever the objects are called |
| MapLoader.PrivateAreTwo | src/bpfloader/UprobeStatsBpfLoad.cpp:641-681 | and private maps of one name are two maps, if nothing was pinned for the second before |
| MapLoader.RerunCreatesNothing | src/bpfloader/UprobeStatsBpfLoad.cpp:652-710 | running a successful call again, after anything else was loaded, succeeds and creates nothing |
| Relocation.ApplyRelo | src/bpfloader/UprobeStatsBpfLoad.cpp:725-748 | in place, one instruction gets the descriptor and the map mark if it is a 64-bit immediate load, and nothing else changes |
| Relocation.ApplyMapRelo | src/bpfloader/UprobeStatsBpfLoad.cpp:750-779 | in place, all code sections become the linked ones; the first unresolvable symbol ends it silently |
| Relocation.FdOfExactly | src/bpfloader/UprobeStatsBpfLoad.cpp:516-528 | the symbol at the index of a relocation stands for the descriptor at the place of the first map with its name, and for none if no map has it |
| Relocation.InsnExactly | src/bpfloader/UprobeStatsBpfLoad.cpp:725-779 | a 64-bit immediate load holds the descriptor of the map that the last relocation of it naming one names, and the mark 1; every other instruction and every other field is unchanged |
| Relocation.SectionAt | src/bpfloader/UprobeStatsBpfLoad.cpp:750-779 | sections are relocated in order; the first relocation whose symbol has no name ends everything, and what comes behind it, in its section and in all later ones, stays as it was |
| Relocation.RelocatedTwice | src/bpfloader/UprobeStatsBpfLoad.cpp:725-779 | a second application to a section is a no-op |
| Relocation.LinkedTwice | src/bpfloader/UprobeStatsBpfLoad.cpp:750-779 | a second application to all sections is a no-op |
| ProgLoader.LoadCodeSections | src/bpfloader/UprobeStatsBpfLoad.cpp:781-899 | the call's effect on pins, objects and descriptors, and its return value, for every failing system call |
| ProgLoader.VariantsShareAPath | src/bpfloader/UprobeStatsBpfLoad.cpp:803-817 | variants of a program, which differ behind the last $, have the path of the part before it, under the name of the object |
| ProgLoader.LoadOneSucceeds | src/bpfloader/UprobeStatsBpfLoad.cpp:818-888 | one program is passed exactly if each call it needs succeeds or it is optional and refused; it is pinned exactly if it could be loaded and pinned, with the type, name and code of its section |
| ProgLoader.FailsWithEinval | src/bpfloader/UprobeStatsBpfLoad.cpp:781-802 | without a kernel version, or where the first program has no definition, loading fails with EINVAL and does nothing; it succeeds only where every program has one |
| ProgLoader.FirstVariantOwns | src/bpfloader/UprobeStatsBpfLoad.cpp:803-888 | after success the first variant in range that the kernel accepts owns its path, later ones hold the same program, earlier ones were optional and failed; a taken path stays as it was |
| ProgLoader.RerunExactly | src/bpfloader/UprobeStatsBpfLoad.cpp:818-888 | where nothing fails, loading adds nothing exactly if every program in range is pinned |
| ProgLoader.RerunLoadsMore | src/bpfloader/UprobeStatsBpfLoad.cpp:844-860 | a load that returns 0 with its optional program refused, and pins that program when run again |
| ProgLoader.RerunCreatesNothing | src/bpfloader/UprobeStatsBpfLoad.cpp:818-888 | so running a load again in which no program failed creates nothing |
| ObjectLoader.LoadProg | src/bpfloader/UprobeStatsBpfLoad.cpp:908-960 | reads code, makes maps, links and loads in this order, stopping at the first error |
| ObjectLoader.LoadAllElfObjects | src/bpfloader/UprobeStatsBpfLoad.cpp:976-1004 | loads the .o entries in order and returns the error of the last critical one that failed |
| ObjectLoader.CriticalDecides | src/bpfloader/UprobeStatsBpfLoad.cpp:990-1003 | the result is 0 exactly if every critical object loaded |
| ObjectLoader.LastErrorCounts | src/bpfloader/UprobeStatsBpfLoad.cpp:990-1003 | of several critical objects that failed it is the last whose error is returned |
| ObjectLoader.PhasesInOrder | src/bpfloader/UprobeStatsBpfLoad.cpp:908-960 | an object loads exactly if every phase succeeds; without a license or with unreadable code it leaves the kernel as it was, and programs are loaded only where all maps were made |
| ObjectLoader.ObjNameExactly | src/bpfloader/UprobeStatsBpfLoad.cpp:73-84 | foo.o and foo@tag.o in any directory are the object foo |
| ObjectLoader.UserSpacePath | rust/src/bpf_map/binder_transaction.rs:20 | the maps of a probe are pinned at the paths that user space opens |
| ObjectLoader.PinsAreWriteOnce | src/bpfloader/UprobeStatsBpfLoad.cpp:908-1004 | over any sequence of loads, however each ends, a pin keeps its object |
| ObjectLoader.SortsReadAlike | src/bpfloader/UprobeStatsBpfLoad.cpp:296-514 | from a labelled object every sort reads the same names and sections |
| ObjectLoader.ReloadCreatesNothing | src/bpfloader/UprobeStatsBpfLoad.cpp:908-960 | loading a labelled object again after a fully successful load, with anything in between and symbols of equal value sorted either way, creates no map, program or pin |
| ObjectLoader.LinkedToItsMap | src/bpfloader/UprobeStatsBpfLoad.cpp:494-779 | from a relocation in the file to the kernel: the program of a code section has its name and type, and the instruction at the relocation of the section behind it holds for good a descriptor of the map pinned under the name of the relocation's symbol, with that definition's attributes, or -1 where that map is not for the kernel |
| ObjectLoader.PinnedProgram | src/bpfloader/UprobeStatsBpfLoad.cpp:803-888 | what a successful load pins at a program's path that was free before it is the linked code of the first accepted variant in range |
| KernelMap.BpfMap.IsEmpty | src/bpf/headers/include/bpf/BpfMap.h:180-185 | true exactly when no key was there |
| KernelMap.BpfMap.Clear | src/bpf/headers/include/bpf/BpfMap.h:260-275 | terminates whatever others delete meanwhile, and reports success only on an empty map |
| KernelMap.BpfMap.Iterate | src/bpf/headers/include/bpf/BpfMap.h:348-361 | terminates for every filter and every concurrent deletion, and on success no key that is left was missed; if no system call fails it is the visiting function, with or without others |
| KernelMap.BpfMap.IterateWithValue | src/bpf/headers/include/bpf/BpfMap.h:363-378 | the same for the form with values, and every value handed out is the initial one |
| KernelMap.IterateIsSweep | src/bpf/headers/include/bpf/BpfMap.h:348-361 | if the filter deletes at most its own key, iterating is one pass over the initial keys, each once and in order |
| KernelMap.SweepExactly | src/bpf/headers/include/bpf/BpfMap.h:348-361 | that pass sees the keys up to the first call that reports an error, returns that error, and loses exactly the keys seen that their own call deletes |
| KernelMap.NoKeyMissed | src/bpf/headers/include/bpf/BpfMap.h:348-361 | whatever the filter deletes, no key that stays is missed |
| KernelMap.NoKeyTwice | src/bpf/headers/include/bpf/BpfMap.h:348-361 | a filter that spares every fetched successor makes the iteration move forward only: no key twice and none before the start |
| KernelMap.RepeatsExactly | src/bpf/headers/include/bpf/BpfMap.h:348-361 | for every filter, a key is visited twice exactly if a call deletes its fetched successor while a seen key remains and both calls return 0 |
| KernelMap.AmidIsMerged | src/bpf/headers/include/bpf/BpfMap.h:348-361 | iterating while others delete is iterating undisturbed with a filter that deletes what they do |
| KernelMap.RepeatsAmidExactly | src/bpf/headers/include/bpf/BpfMap.h:348-361 | for every filter and whatever others delete, a key is visited twice exactly if the iteration starts over for both together |
| KernelMap.SuccessorDeleted | src/bpf/headers/include/bpf/BpfMap.h:46-51 | a filter that deletes the successor once, so that key 1 is visited twice and key 2 after its deletion |
| KernelMap.IterateWithValueIsSweep | src/bpf/headers/include/bpf/BpfMap.h:363-378 | if the filter deletes at most its own key, iterating is one pass over the initial entries |
| KernelMap.ValueSweepExactly | src/bpf/headers/include/bpf/BpfMap.h:363-378 | that pass sees the initial entries, each with its initial value, up to the first call that reports an error, returns that error, and loses exactly the keys seen that their own call deletes |
| KernelMap.ValuesNeverTwice | src/bpf/headers/include/bpf/BpfMap.h:363-378 | the form with values visits no key twice whatever the filter deletes |
| KernelMap.EndsEarlyExactly | src/bpf/headers/include/bpf/BpfMap.h:363-378 | it succeeds exactly if every call returns 0 and spares its fetched successor, and then every initial key was visited or deleted |
| KernelMap.EndsEarlyAmidExactly | src/bpf/headers/include/bpf/BpfMap.h:363-378 | whatever others delete, it succeeds exactly if every call returns 0 and each key fetched is there when its value is read |
| KernelMap.KeyMissed | src/bpf/headers/include/bpf/BpfMap.h:363-378 | a filter that deletes the successor once, so that the loop ends with ENOENT and a key that stays is never visited |
| ByteStrings.BytesAsStrExactly | rust/src/bpf_map/mod.rs:203-206 | a string is read exactly if it is valid UTF-8 without a NUL and one follows it |
| ByteStrings.Utf8Exactly | rust/src/bpf_map/mod.rs:203-206 | valid are exactly the encodings of sequences of Unicode scalar values by section 3 of RFC 3629 |
| BinderFilter.NameRoundTrip | rust/src/bpf_map/binder_transaction.rs:93-114 | a name survives the way into a key and back exactly if it has no NUL and at most 127 bytes |
| BinderFilter.RoundTripsExactly | rust/src/bpf_map/binder_transaction.rs:93-114 | the keys that name themselves are those that hold a string followed by NULs only |
| BinderFilter.WriteFilters | rust/src/config_resolver.rs:241-265 | writes filter by filter, stopping at the first incomplete one or taken key |
| BinderFilter.WritesExactly | rust/src/config_resolver.rs:241-265 | everything is written exactly if every filter has a name and at least one id, ids fit 64 unsigned bits, and no two keys are the same and none is taken |
| BinderFilter.KeysDiffer | rust/src/bpf_map/binder_transaction.rs:93-99 | two names take one key exactly if they are equal, or both are cut to the same 128 bytes |
| BinderFilter.Drain | rust/src/bpf_map/binder_transaction.rs:54-63 | terminates whatever others delete meanwhile, and reports success only on an empty map |
| BinderFilter.DrainExact | rust/src/bpf_map/binder_transaction.rs:54-63 | on an idle map it succeeds exactly if every key names itself |
| BinderFilter.DrainStops | rust/src/bpf_map/binder_transaction.rs:54-63 | a drain that fails has deleted the keys in front of the first that does not name itself, and the one that it names instead |
| BinderFilter.WrittenKeys | rust/src/config_resolver.rs:248-263 | filters with proper names put only keys that name themselves into the map, also when writing stops half-way |
| BinderFilter.FiltersDrainExactly | rust/src/bpf_map/binder_transaction.rs:54-114 | from the configuration to the end: filters with NUL-free names can be drained exactly if every name has at most 127 bytes |
| BinderFilter.LongNameStays | rust/src/bpf_map/binder_transaction.rs:54-114 | a filter with a name of 128 bytes or more is written and then cannot be drained |
| BinderFilter.RecordString | src/bpf/headers/include/uprobestats_bpf_fns.h:36-42 | in place, writes the string's first at most 127 bytes up to a NUL, then a NUL, and leaves the rest of the buffer alone |
| BinderFilter.ExecTransact | src/bpf_progs/Binder.c:52-76 | reports once exactly if the key is present, the code is one of its codes with no zero before it, and there is space; returns 1 exactly if only the space is missing |
| BinderFilter.KeysMeet | rust/src/bpf_map/binder_transaction.rs:93-99 | a written name and a probed descriptor meet in one key exactly if the name is what the probe records |
| BinderFilter.PipelineExact | src/bpf_progs/Binder.c:52-60 | after writing filters, the key of a recorded descriptor is found with the code before a zero exactly if a filter's name is what is recorded of the descriptor and the code is one of the filter's first ten ids with no zero up to it, for names and descriptors of any length |
| BinderFilter.ExecTransactInternal | src/bpf_progs/Binder.c:44-76 | end to end, from a zeroed key over recordString and the lookup to the report: reported at most once, with the recorded descriptor and the code, and exactly if a filter's own ids ask for the transaction and there is space |
| BinderFilter.RecordedExactly | src/bpf/headers/include/uprobestats_bpf_fns.h:36-42 | recorded is the prefix without NULs that ends at 127 bytes, at a NUL or with the string, whichever is first |
| BinderFilter.RecordedDescriptor | src/bpf/headers/include/uprobestats_bpf_fns.h:36-42 | a descriptor of up to 127 bytes is recorded as it is, a longer one as its first 127 bytes |
| BinderFilter.ComparedIds | rust/src/bpf_map/binder_transaction.rs:101-106 | a code is found before a zero in what is written of a filter exactly if it is one of the filter's first ten ids with no zero up to it |
| BitmapTracking.Programs.BitmapCreationForSnapshot | src/bpf_progs/BitmapAllocation.c:74-107 | the record is submitted and the pointer becomes active, unless there is no space for either |
| BitmapTracking.Programs.ApplyFreeFunction | src/bpf_progs/BitmapAllocation.c:109-130 | an active pointer is removed first, and its record emitted if there is space |
| BitmapTracking.Programs.ActivityPerformStart | src/bpf_progs/BitmapAllocation.c:134-153 | emits an activity record if there is space |
| BitmapTracking.ActiveIsLive | src/bpf_progs/BitmapAllocation.c:74-130 | after any firings every free record follows an allocation of its pointer with no other about it in between, and what is active was last heard of as allocated |
| BitmapTracking.LiveIsActive | src/bpf_progs/BitmapAllocation.c:74-130 | if no insert and no free record was lost, the stream determines the active set |
| BitmapTracking.BitmapAllocationHandlerV1.OnItem | rust/src/bpf_map/bitmap_allocation.rs:61-101 | refuses exactly an allocation with a dimension or storage type beyond 31 bits and an activity without a readable name, and then changes nothing; otherwise the handler's fields follow the records accepted |
| BitmapTracking.MapIsLive | rust/src/bpf_map/bitmap_allocation.rs:64-98 | the handler's map has exactly the pointers allocated and not freed since, each with the task's uid, the width, height and storage type of its last allocation record and the activity latest at that time |
| BitmapTracking.LatestActivityExactly | rust/src/bpf_map/bitmap_allocation.rs:94-98 | the activity latest at a time is the string of the last activity record before it, or empty |
| BitmapTracking.KernelUserAgreement | rust/src/bpf_map/bitmap_allocation.rs:61-101 | the kernel's active set is contained in the handler's map, and equal to it if nothing was lost |
| BitmapTracking.HighWaterMark | rust/src/bpf_map/bitmap_allocation.rs:78-92 | the running total, its maximum over all prefixes, and the snapshot: each entry as often as there are bitmaps with it in the live map right after the earliest record to reach that maximum |
| BitmapTracking.NoOverflow | rust/src/bpf_map/bitmap_allocation.rs:78-92 | below 2^31 records no total leaves the range of an i64 |
| BitmapTracking.TotalIsLiveSize | rust/src/bpf_map/bitmap_allocation.rs:78-92 | the total is the size of the live bitmaps throughout exactly if every record carries what is counted for its pointer |
| BitmapTracking.StaleSizeDrifts | src/bpf_progs/BitmapAllocation.c:123-128 | an allocation and its free can leave nothing live and a total that is not zero |
| BitmapTracking.ZeroSizedFrees | src/bpf_progs/BitmapAllocation.c:123-128 | if free records carry size 0 the total never falls and is always its own maximum |
| BitmapRing.DecodesLayout | src/bpf/headers/include/uprobestats_bpf_structs.h:103-111 | a record laid out as the structure is in memory is read back field by field |
| BitmapRing.FirstLapNeverFalls | src/bpf_progs/BitmapAllocation.c:123-128 | over any run of a zeroed ring within its first lap in which free records leave the size bytes alone, those are delivered with size 0 and the handler's total is its own maximum |
| ClassicBpf.RunAtIsRun | src/bpf/headers/include/bpf/BpfClassic.h:25-29 | running from an instruction depends only on the code from there on |
| ClassicBpf.CheckEncodings | src/bpf/headers/include/bpf/BpfClassic.h:19-61 | the instruction words of each check macro |
| ClassicBpf.LoadEncodings | src/bpf/headers/include/bpf/BpfClassic.h:62-157 | the instruction words of each load macro |
| ClassicBpf.LengthEncodings | src/bpf/headers/include/bpf/BpfClassic.h:131-176 | the instruction words of the macros that compute header lengths |
| ClassicBpf.RunBlock | src/bpf/headers/include/bpf/BpfClassic.h:19-180 | each macro's instructions do what the macro says and then what follows, with or without the jump over a body |
| ClassicBpf.ChecksExactly | src/bpf/headers/include/bpf/BpfClassic.h:19-61 | which values of A each check lets pass, and the verdict on all others |
| ClassicBpf.LoadsExactly | src/bpf/headers/include/bpf/BpfClassic.h:62-157 | each load puts into A the number in network byte order at its offset from the header it names, or rejects the packet if that lies outside |
| ClassicBpf.AssemblyCorrect | src/bpf/headers/include/bpf/BpfClassic.h:19-61 | the flattened filter always returns, with the verdict of evaluating its blocks top to bottom |
| ClassicBpf.JumpsStayInside | src/bpf/headers/include/bpf/BpfClassic.h:19-61 | every jump lands inside the program, which ends in a return |
| ClassicBpf.NotEqualJump | src/bpf/headers/include/bpf/BpfClassic.h:28-29 | the not-equal jump over n instructions lands at n modulo 256 |
| ClassicBpf.WideJumpFails | src/bpf/headers/include/bpf/BpfClassic.h:28-29 | a block of n rejecting instructions is skipped as it should be exactly if n is less than 256 |
| ClassicBpf.ChecksAcceptExactly | src/bpf/headers/include/bpf/BpfClassic.h:36-60 | a list of checks accepts exactly the values that pass each of them |
| ClassicBpf.Ipv6HeaderWalk | src/bpf/headers/include/bpf/BpfClassic.h:140-180 | after a walk over up to 511 extension headers X is the end of the chain by RFC 8200 sections 4.3, 4.5 and 4.6, or the packet is rejected; nothing overflows |
| ClassicBpf.Ipv4HeaderLength | src/bpf/headers/include/bpf/BpfClassic.h:134-138 | X becomes four times the header length field of RFC 791 section 3.1, or the packet is rejected if it has no such byte |

## Left out

- Memory orderings finer than sequential consistency, and exhaustion of 64-bit positions.
- The kernel's reservation is one step, and so are the consumer's two loads at the start of a call; nothing another process does between them matters to what is proved, but the interleavings are fewer.
- The part of newer kernels that limits reservations by the oldest pending record; it only refuses more.
- RingConsumer.BpfRingbuf.constructor: leaves out the map-type and size checks and the failing mmap calls of Init, which end in an error before there is a consumer.
- RingConsumer.BpfRingbuf.PollRingBuf: the wait is one check of emptiness after the producers ran; poll(2) and its timeout are not modelled.
- ClassicBpf.Ipv6HeaderWalk: bounded by 511 headers because a load further than 1 MiB into the network header leaves the window that names it.
- ClassicBpf.AssemblyCorrect: of ancillary data only skb->protocol is modelled, the one the macros load.
- KernelMap.BpfMap.Iterate: what is visited is stated for system calls that do not fail; where one does, that it terminates, only deletes, and on success misses nothing that is left.
- KernelMap.BpfMap.Clear: nobody else inserts while it runs; with an endless supply of inserts it need not end.
- BinderFilter.WriteFilters: the final map is stated for an undisturbed map without failing system calls.
- BinderFilter.ExecTransactInternal: reads of user memory that fault.
- BinderFilter.ExecTransact: a report keeps the descriptor and the code; the caller's uid and the time stamp are copies.
- BinderFilter.NameRoundTrip: strings are UTF-8 byte sequences, which is what the language guarantees of them.
- BitmapTracking.BitmapAllocationHandlerV1.OnItem: failing statsd writes.
- BitmapTracking.KernelUserAgreement: for one process, with each probe as one step; a lost record is one for which the ring or the map had no space.
- MapLoader.CreateMaps: descriptor numbers are never reused and closing them is not modelled; a created map has the attributes requested, with the read-only flag the kernel adds.
- ElfCode.ReadCodeSections: starts from parsed section headers, symbols, definitions, instructions and relocations; the bytes of the file and failing reads are not modelled.
- ElfCode.OwnDefinition: the lowest function of a section is the only symbol of its kind at its address.
- ObjectLoader.LinkedToItsMap: for an instruction with one relocation, in an object that is read in order up to its section; several relocations of one instruction are the subject of Relocation.InsnExactly.
- ElfSymbols.GetSectionSymNames: std::sort is any permutation sorted by value, given as an input.
- LockTable.Locks.MapRetrieve: a process that aborts is not modelled further; its descriptors stay in the table.
- Guardrails, flags, retries, argument logging, statsd, protobuf parsing, the Java service, and the other probes: short branches or straight-line copies.
