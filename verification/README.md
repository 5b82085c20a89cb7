# Verified models of the mid-fat pointer framework

The mid-fat pointer framework gives every heap object metadata.  A fork of tcmalloc
allocates a metadata span beside every span of small objects and enters it in a metadata
page table; an LLVM pass carries metadata pointers in the upper 32 bits of pointers and
masks them away wherever the bits would be seen.  This project models the stateful and
arithmetic cores of that system in Dafny and proves what they are for.

`dafny verify dfyconfig.toml` checks the whole project.

## How the files fit together

| file | what it models |
|---|---|
| `Common.dfy` | the word and page sizes, optional values and duplicate-free sequences used throughout |
| `SpanTable.dfy`, `PageHeap.dfy` | the page heap: spans, boundary tags with stale interior entries, free lists per length, carving, splitting, coalescing, scavenging, heap limit, statistics |
| `ObjectChains.dfy`, `ObjectPools.dfy`, `FreeListState.dfy`, `CentralFreeList.dfy` | a central free list on top of the page heap and the metadata page table: object chains in memory, refcounts, the transfer cache, the metadata span of every span |
| `TransferCache.dfy` | the transfer caches of all size classes and their locks, under any interleaving of threads |
| `ShiftArith.dfy`, `MetaTable.dfy`, `ObjectMetadata.dfy` | the metadata page table, metaset and metaget in all their address forms, and the sizing of metadata spans |
| `PointerIR.dfy`, `MaskSimulation.dfy` | the pointer-masking pass on a small SSA-like IR, and a machine on which the instrumented function is compared with the original |
| `AddressMap.dfy`, `HeapProfile.dfy`, `LeakChecker.dfy` | the three-level address map, allocation records and buckets, and the mark phase of the leak checker |
| `ProfileData.dfy` | CPU-profile aggregation with eviction and the profile file format |
| `PageMap3.dfy` | the three-level radix page map |
| `RegionLock.dfy` | the recursive lock of the memory-region map |

Objects whose methods update fields are classes.  Each class has an invariant `Valid`
over plain values; lemmas on those values do the work, and the methods call them.  Where
an object has many fields they are one record field (`Fields` of the central free list,
`State` of the address map, `Profile` of the heap profile), updated in place as a whole.

## What the proofs found

Where a property one would expect fails of the code, an `Exact` lemma or a contract gives
the condition under which it holds, and another member a state or an input where it does
not.

- **Carved length in an `int`** (page_heap.cc:236 and 271).  `RestLengthExact`: Carve and
  Split do what they should if and only if the rest is below 2^31 pages.
  `RestLengthWraps`: from 2^31 + 1 pages one is asked for and all are granted.
  `RestLengthOrphans`: from 2^32 + 2 pages one is asked for and pages are lost.  The heap
  model therefore bounds what the system hands out below 2^31 pages.
- **A committed span passed over** (page_heap.cc:216-226).  The assertion that there is no
  committed best fit when the limit cannot be met is not true.  `AllocLarge`: refusals by
  the system apart, it fails if and only if nothing fits, or a returned span beats every
  committed one and the limit would be exceeded even with every free page released.
  `CommittedFitPassedOver` is a heap on which it fails beside a committed span that fits.
- **Pages leaked by a failed page-map allocation** (page_heap.cc:617-650): counted in the
  statistics and never recorded; `Books` carries them as `leaked`.  `RecordRun`, and
  with it `GrowHeap` and `New`: the number grows if and only if the page map has no room for
  the tags of a new run.
  `PagesLeaked` is a heap with 128 pages counted and none owned.
- **Stores to externs** (MidFatPtrs.cpp:340-344).  The test looks at the type of the
  global, which is always a pointer, so integers are masked too.  `ExternStoreExact`: such
  a store writes the original value if and only if that is a pointer, a closure value or
  fits in 32 bits; `MaskingExact`: the instrumented run observes what the original does if
  and only if all such stores fit.  `MaskedStoreLoses` is a function that stores 2^32
  before the pass and 0 after it.
- **Metadata from the entry of another page** (metaset.c:71-93, metaget.c:137-157).
  `FastExact`: the signed form agrees with the plain one if and only if the two roundings
  do not carry, hence always for shifts up to 12.  `BaseExact`: the base-relative form
  agrees if and only if moreover the address is at or above the old page or the alignment
  unit divides the slot size.  `ShortFormsMissAtShift13`: both forms miss for objects of
  8192 bytes; `BaseMissesBelow`: the base-relative one misses below the old page.
- **Metadata of a misaligned object** (metaset.c:16-22).  `CoverageExact`: after metaset
  every address of the object reads the value set if the remainder of its start does not
  push its end over, and otherwise its last byte reads what it did before;
  `MisalignedKeepsOld` is an object of 16 bytes.
- **Slots given up** (central_freelist.cc:190-197).  An evicted slot is lost when the class
  that wanted it has meanwhile reached its maximum.  `SlotsKeptExact`: a run keeps all slots
  if and only if no thread ever comes back with a slot to a class at its maximum.
  `SlotsKept`: that is so whenever no two threads insert into one class, whatever else they
  do; `SlotLost` is a schedule of two threads, inserting into one class, that loses a slot.
- **Interior pointers beyond the offset limit** (addressmap-inl.h:359-403).  `InsideExact`:
  an entry containing the address is found if and only if the block in which the entry
  starts ends no more than `max_size` below the address; `InteriorPointerMissed` records an
  object of 4096 bytes and misses a pointer 2000 bytes into it.
- **Double recording** (heap-profile-table.cc:210-223).  `RecordBalance`: recording keeps
  the per-trace accounts if and only if the pointer was not recorded already;
  `DoubleRecording` unbalances a bucket.
- **Ranges at the ends of the page numbers** (pagemap.h:267).  `EnsureExact`: `Ensure(0, 0)`
  fails, because its last key wraps around (`EnsureNothingAtZero`), and a range that runs
  past 2^64 succeeds with nothing ensured (`EnsureWraps`).
- **Ignored objects in a snapshot** (heap-profile-table.h:175, heap-profile-table.cc:423-436).
  The header promises that they are left out, but the code does not look at the ignore bit.
  `IgnoredExact`: they are left out if and only if each of them is live or in the base;
  `IgnoredReported` is a snapshot with one.  The leak check makes them roots first, and
  `CheckLeaks` proves that it never reports one.

## Model

| member | source | states |
|---|---|---|
| `SpanTable.OwnerIsUnique` | gperftools-metalloc/src/page_heap.h:259-264 | a recorded page belongs to one span only, so the spans partition the pages of the heap |
| `SpanTable.TagBefore` | gperftools-metalloc/src/page_heap.cc:363-382 | despite stale interior entries, whatever the page map holds just before a span is the span that ends there |
| `SpanTable.TagAfter` | gperftools-metalloc/src/page_heap.cc:383-397 | whatever the page map holds just after a span is the span that starts there |
| `PageHeaps.PageHeap.MergeIntoFreeList` | gperftools-metalloc/src/page_heap.cc:330-408 | coalescing both ways restores the whole heap invariant, keeps in-use spans, keeps the set of owned pages and the totals, and leaves no two adjacent free spans at one location |
| `PageHeaps.CarvedCoalesced` | gperftools-metalloc/src/page_heap.cc:263-304 | the rest of a carved span never touches a free span at its own location, so Carve may skip coalescing |
| `PageHeaps.PageHeap.Carve` | gperftools-metalloc/src/page_heap.cc:263-304 | the invariant is kept, the span is cut to exactly n pages, the rest is filed at the old location, and committed bytes grow only for a returned span |
| `PageHeaps.PageHeap.ReleaseLastNormalSpan` | gperftools-metalloc/src/page_heap.cc:463-476 | either nothing changes or exactly the last span of the list moves to the returned side, with the statistics following |
| `PageHeaps.PageHeap.ReleaseAtLeastNPages` | gperftools-metalloc/src/page_heap.cc:478-499 | terminates; returns less than asked only if no normal free page remains or the system refused a release |
| `PageHeaps.PageHeap.EnsureLimit` | gperftools-metalloc/src/page_heap.cc:501-523 | true if and only if taken minus unmapped pages plus n fit the limit afterwards; after a vain release nothing normal is left or the system refused; lists of normal spans that were empty stay so |
| `PageHeaps.PageHeap.ScanLarge` | gperftools-metalloc/src/page_heap.cc:176-203 | no sufficient span of the list is shorter, or as short and lower in memory, than the one chosen |
| `PageHeaps.PageHeap.AllocLarge` | gperftools-metalloc/src/page_heap.cc:171-227 | address-ordered best fit; enters itself at most once more; refusals apart it fails if and only if nothing fits, or a returned span beats every committed one and the limit is beyond reach; after a failure beside a fit nothing normal is left or the system refused |
| `PageHeaps.CommittedFitPassedOver` | gperftools-metalloc/src/page_heap.cc:216-226 | a valid heap on which a committed span fits and the allocation fails, contrary to the assertion there |
| `PageHeaps.PageHeap.SearchFreeAndLargeLists` | gperftools-metalloc/src/page_heap.cc:81-112 | with no limit: best fit over both kinds of list, and failure only if no free span is long enough; with a limit a fit is passed over only if nothing normal is left and there is still no room, or the system refused a release |
| `PageHeaps.PageHeap.GrowHeap` | gperftools-metalloc/src/page_heap.cc:597-651 | growth keeps the invariant and all spans in use, leaves a span of n pages on success, and names the reason on failure; over the limit means that what is free is released or a release was refused; pages leak if and only if the tags could not be allocated |
| `PageHeaps.PageHeap.RecordRun` | gperftools-metalloc/src/page_heap.cc:617-650 | a run is counted and becomes free space, or is counted and leaves all spans as they were |
| `PageHeaps.PagesLeaked` | gperftools-metalloc/src/page_heap.cc:617-650 | a valid heap whose statistics count 128 pages and whose spans own none |
| `PageHeaps.PageHeap.New` | gperftools-metalloc/src/page_heap.cc:116-167 | grants exactly n pages not in use before, touching no other span in use; it fails only after trying to grow, and over the limit or after growing only with everything free released or a release refused; with no limit it never grows the heap while a fit exists and fails only when the system does; pages leak if and only if the tags of a run could not be allocated |
| `PageHeaps.PageHeap.Delete` | gperftools-metalloc/src/page_heap.cc:306-321 | the freed span is free space again, possibly inside a larger free span; all other spans in use are untouched; the invariant holds |
| `PageHeaps.PageHeap.Split` | gperftools-metalloc/src/page_heap.cc:229-245 | the two halves cover the old span, both are in use and tagged, the invariant holds |
| `PageHeaps.PageHeap.RegisterSizeClass` | gperftools-metalloc/src/page_heap.cc:525-535 | afterwards every page of the span maps to it, and the invariant holds |
| `PageHeaps.PageHeap.OnExactlyOneList` | gperftools-metalloc/src/page_heap.cc:410-430 | a span is on a list if and only if it is free at that location and the list is the one for its length |
| `PageHeaps.PageHeap.BooksBalance` | gperftools-metalloc/src/page_heap.h:145-153 | unmapped plus committed bytes are the system bytes, and these are what is free, returned, in use or leaked |
| `PageHeaps.Run` | gperftools-metalloc/src/page_heap.cc:229-430 | any script of allocations, frees, splits, registrations, releases and limit changes keeps the invariant, and the spans in use are exactly those the client holds |
| `PageHeaps.RestLengthExact` | gperftools-metalloc/src/page_heap.cc:229-304 | Carve and Split, with the length of the rest computed in an int as written, produce the intended spans if and only if the rest is below 2^31 pages |
| `PageHeaps.RestLengthWraps` | gperftools-metalloc/src/page_heap.cc:271-273 | of a span of 2^31 + 1 pages one page is asked for and all are granted; Split records a negative length |
| `PageHeaps.RestLengthOrphans` | gperftools-metalloc/src/page_heap.cc:271-273 | of a span of 2^32 + 2 pages one page is asked for, one is filed and the pages after it belong to no span any more |
| `ObjectChains.ChainJoin` | gperftools-metalloc/src/linked_list.h:86-90 | pushing a chain in front of another yields the chain of both, in that order |
| `ObjectChains.ChainCut` | gperftools-metalloc/src/central_freelist.cc:303-325 | ending a chain after n objects leaves a chain of n and a chain of the rest |
| `FreeListStates.ObjectsConserved` | gperftools-metalloc/src/central_freelist.cc:115-132 | refcount plus free-chain length of a span is the number of objects it holds; the counter is the length of all chains; a span is on nonempty_ if and only if it has a free object; chains have no duplicates |
| `FreeListStates.MetaSpanRecovered` | gperftools-metalloc/src/central_freelist.cc:145-148 | the entry of a span's first page leads, through the page map, to the metadata span allocated for it |
| `FreeListStates.PairIsOwn` | gperftools-metalloc/src/central_freelist.cc:144-152 | no other span of the list uses a span or its metadata span, so each is freed once |
| `FreeListStates.OneOwner` | gperftools-metalloc/src/central_freelist.cc:240-288 | an object in a client's hand is on no free chain, in no parked chain and in no other hand |
| `FreeListStates.MetadataApart` | gperftools-metalloc/src/central_freelist.cc:336-358 | in a valid list every address of an object has its slot inside the metadata span of the object's span, and the slots of different objects, of one span or of two, are disjoint |
| `CentralFreeLists.WalkChain` | gperftools-metalloc/src/central_freelist.cc:305-311 | the walk stops at the N-th object or the end, with the last object and its successor |
| `CentralFreeLists.CarveObjects` | gperftools-metalloc/src/central_freelist.cc:370-386 | the words written chain up exactly the objects that fit, in address order, and no other word changes |
| `CentralFreeLists.CentralFreeList.FetchFromOneSpans` | gperftools-metalloc/src/central_freelist.cc:299-327 | exactly the first min(N, length) objects of the first span that has any; a duplicate-free chain from start to end of objects nobody had; invariant and all lent objects kept |
| `CentralFreeLists.CentralFreeList.AcquireSpan` | gperftools-metalloc/src/central_freelist.cc:336-358 | either a registered span with a metadata span of its own, both new, or no change in what is in use |
| `CentralFreeLists.CentralFreeList.Populate` | gperftools-metalloc/src/central_freelist.cc:330-394 | on success one span and one metadata span more, all objects of the span free and counted; otherwise nothing changes |
| `CentralFreeLists.CentralFreeList.FetchFromOneSpansSafe` | gperftools-metalloc/src/central_freelist.cc:290-297 | returns nothing only if no span has a free object even after populating |
| `CentralFreeLists.CentralFreeList.RemoveRange` | gperftools-metalloc/src/central_freelist.cc:255-287 | a duplicate-free chain of exactly `result` objects from start to end, either the last parked chain or objects lent to nobody before; fewer than N only if no free object is left |
| `CentralFreeLists.CentralFreeList.ReleaseToSpans` | gperftools-metalloc/src/central_freelist.cc:105-158 | the object is no longer lent, every other lent object is untouched, and the page heap gets back exactly the span and its metadata span when this was the last object out, else nothing |
| `CentralFreeLists.CentralFreeList.FreeSpan` | gperftools-metalloc/src/central_freelist.cc:138-154 | exactly the span and its metadata span leave the spans in use; the rest of the list stays registered |
| `CentralFreeLists.CentralFreeList.ReleaseListToSpans` | gperftools-metalloc/src/central_freelist.cc:83-89 | terminates; all objects of the chain are returned, no other lent object is touched, although returning an object overwrites its link |
| `CentralFreeLists.CentralFreeList.MakeCacheSpace` | gperftools-metalloc/src/central_freelist.cc:176-197 | true if and only if there is a free slot afterwards, within the maximum, grown by at most one |
| `CentralFreeLists.CentralFreeList.InsertRange` | gperftools-metalloc/src/central_freelist.cc:240-253 | the chain is parked whole or every object of it returned; parked for sure when it is a full batch and there is room, never when it is not |
| `CentralFreeLists.Run` | gperftools-metalloc/src/central_freelist.cc:240-288 | over any client script the invariant holds and the chains in clients' hands are intact, lent, unparked and disjoint |
| `TransferCache.InitialCache` | gperftools-metalloc/src/central_freelist.cc:48-81 | every class starts empty, within its maximum, with at least one and at most 64 entries |
| `TransferCache.InvStep` | gperftools-metalloc/src/central_freelist.cc:139-253 | every action of every thread keeps cache bounds, lock ownership and the slot count |
| `TransferCache.ProtocolSafe` | gperftools-metalloc/src/central_freelist.cc:139-253 | under any schedule used <= size <= max for every class, cache sizes plus slots in hand never exceed the initial total, and no thread holds two locks |
| `TransferCache.LostExact` | gperftools-metalloc/src/central_freelist.cc:190-197 | an action gives up a slot if and only if a thread is back with one and finds its class at the maximum |
| `TransferCache.SlotsKeptExact` | gperftools-metalloc/src/central_freelist.cc:139-253 | over any run, cache sizes plus slots in hand are the initial total if and only if no such action occurs |
| `TransferCache.SlotsKept` | gperftools-metalloc/src/central_freelist.cc:139-253 | under any schedule in which each class is inserted into by one thread, cache sizes plus slots in hand are always the initial total |
| `TransferCache.AloneKeepsSlots` | gperftools-metalloc/src/central_freelist.cc:139-253 | so they are for a single thread |
| `TransferCache.NoDeadlock` | gperftools-metalloc/src/central_freelist.cc:199-227 | a thread with work to do can act, or the holder of the lock it waits for can |
| `TransferCache.SlotLost` | gperftools-metalloc/src/central_freelist.cc:190-197 | a schedule of two threads after which there is one slot less |
| `MetaTable.MetaStore.SetEntries` | metapagetable/metapagetable.c:78-102 | exactly the entries of the range are set, the others stay; a size that is not whole pages is rejected |
| `MetaTable.LookupLinear` | staticlib/metaget.c:51-70 | any address of a set range resolves to base + ((p - start) >> a) * size, across page boundaries |
| `MetaTable.FastExact` | staticlib/metaset.c:71-93 | the form relative to another page, in either direction, finds the same slot if and only if the two roundings do not carry |
| `MetaTable.FastAgrees` | staticlib/metaset.c:71-93 | for shifts up to 12 it always does |
| `MetaTable.BaseExact` | staticlib/metaget.c:137-157 | for every shift, metaget_base finds the same slot if and only if the two roundings do not carry and the address is at or above the old page or the alignment unit divides the slot size |
| `MetaTable.BaseAgrees` | staticlib/metaget.c:137-157 | for shifts up to 12 and addresses at or above the old page it always does |
| `MetaTable.ShortFormsMissAtShift13` | staticlib/metaget.c:137-157 | with objects of 8192 bytes both short forms give the second object another slot than the plain one |
| `MetaTable.BaseMissesBelow` | staticlib/metaget.c:137-157 | with 4-byte slots for 8-byte objects, an address below the old page gets another slot |
| `MetaTable.MetaStore.MetaSet` | staticlib/metaset.c:4-24 | exactly the rounded-up number of slots from the slot of the address on receive the value |
| `MetaTable.MetaStore.MetaSetAlignment` | staticlib/metaset.c:32-54 | the same with a given shift; the safe form does nothing on an empty entry |
| `MetaTable.MetaStore.MetaSetFast` | staticlib/metaset.c:71-93 | the same from the entry of another page |
| `MetaTable.SetReaches` | staticlib/metaset.c:4-24 | after metaset of an object, each later address of the range reads the value set or its old one, according to its unit |
| `MetaTable.CoverageExact` | staticlib/metaset.c:4-24 | for every mapped range, object and memory: after metaset every address of the object reads the value set if the remainder of its start does not push its end over, and otherwise its last byte reads what it did before |
| `MetaTable.MisalignedKeepsOld` | staticlib/metaset.c:16-22 | the last byte of a 16-byte object 8 bytes into a unit keeps the metadata it had |
| `MetaTable.SetThenGet` | staticlib/metaset.c:4-24 | after setting an aligned object, every address inside it reads the value set |
| `MetaTable.SetLeavesOthers` | staticlib/metaset.c:4-24 | every address of another aligned, disjoint object reads what it did before |
| `ObjectMetadata.SizeAligned` | gperftools-metalloc/src/common.cc:100-108 | a size class is a whole number of the alignment units chosen for it |
| `ObjectMetadata.MetaSpanSuffices` | gperftools-metalloc/src/central_freelist.cc:345-347 | the metadata span holds all slots of the data span |
| `ObjectMetadata.ObjectOwnsMetadata` | gperftools-metalloc/src/central_freelist.cc:344-351 | every address inside a carved object resolves to that object's slots, inside the metadata span |
| `ObjectMetadata.ObjectsApart` | gperftools-metalloc/src/central_freelist.cc:344-351 | the slots of different objects are disjoint |
| `PointerIR.SortUses` | llvm-plugins/PointerSink.h:70-193 | the uses of an integer are divided exactly into sinks, uses to follow and harmless ones, or one is not understood |
| `PointerIR.CollectSinks` | llvm-plugins/PointerSink.h:166-200 | terminates on cyclic phis; what becomes known is forced by closedness, has only understood uses, and exactly its sinks are listed |
| `PointerIR.CollectAll` | llvm-plugins/MidFatPtrs.cpp:370-384 | the integers visited are exactly the least set closed under phi, select and metadata-preserving and; the listed sinks are exactly its sink uses; failure means the closure has a use that is not understood |
| `PointerIR.InstrumentSinks` | llvm-plugins/MidFatPtrs.cpp:350-361 | exactly the listed uses are masked |
| `PointerIR.MaskPointerArgs` | llvm-plugins/MidFatPtrs.cpp:200-208 | exactly the pointer arguments of a call are masked |
| `PointerIR.InstrumentCallByval` | llvm-plugins/MidFatPtrs.cpp:245-259 | of a call that is not to an outside function, exactly the pointers passed by value are masked |
| `PointerIR.InstrumentCmpPtr` | llvm-plugins/MidFatPtrs.cpp:317-327 | both operands of a comparison with a pointer are masked, those of any other are not |
| `PointerIR.InstrumentMemAccess` | llvm-plugins/MidFatPtrs.cpp:333-345 | the address is masked, and a value stored to an extern too; it fails exactly when that value has a type that cannot be masked |
| `PointerIR.InstrumentCalls` | llvm-plugins/MidFatPtrs.cpp:386-401 | after the first loop every call and comparison has exactly the masks its kind asks for, allocations carry metadata, and nothing else changed |
| `PointerIR.InstrumentMemAccesses` | llvm-plugins/MidFatPtrs.cpp:405-406 | after the last loop every load and store has exactly its masks added; it fails exactly when some extern store cannot be masked |
| `PointerIR.PassIsInstrumented` | llvm-plugins/MidFatPtrs.cpp:386-406 | call masks, then sink masks, then memory masks compose to the function in which each operand is masked that should be, and no other |
| `PointerIR.RunOnFunction` | llvm-plugins/MidFatPtrs.cpp:363-409 | the pass succeeds if and only if the closure has only understood uses and every extern store can be masked; the phases in their order then give the instrumented function determined by the closure |
| `MaskSimulation.StepSimulates` | llvm-plugins/MidFatPtrs.cpp:363-409 | one step of original and instrumented function keeps thin values below the metadata bits and observes the same |
| `MaskSimulation.MaskingPreservesMeaning` | llvm-plugins/PointerSink.h:46-200 | for every function and every tame run, every sink use, address, comparison and external argument of the instrumented run is exactly the original's |
| `MaskSimulation.ExternStoreExact` | llvm-plugins/MidFatPtrs.cpp:340-344 | in simulating states the instrumented extern store writes the original value if and only if that is a pointer, a closure value or fits in 32 bits |
| `MaskSimulation.MaskingExact` | llvm-plugins/MidFatPtrs.cpp:363-409 | of the regular runs of any function, exactly those that store only fitting integers to externs are observed alike after the pass |
| `MaskSimulation.MaskedStoreLoses` | llvm-plugins/MidFatPtrs.cpp:340-344 | a function the pass accepts that stores 2^32 before it and 0 after it |
| `AddressMaps.AddressMap.FindCluster` | gperftools-metalloc/src/addressmap-inl.h:214-222 | the position of the cluster in the chain its hash selects, or -1 exactly when there is none |
| `AddressMaps.AddressMap.FindOrCreateCluster` | gperftools-metalloc/src/addressmap-inl.h:214-234 | a new cluster changes no block and no recorded value |
| `AddressMaps.AddressMap.FindMutable` | gperftools-metalloc/src/addressmap-inl.h:294-306 | the entry that holds the key, exactly when the key is recorded |
| `AddressMaps.AddressMap.Insert` | gperftools-metalloc/src/addressmap-inl.h:308-338 | a map update; a recycled or freshly batched entry is never one in use |
| `AddressMaps.AddressMap.FindAndRemove` | gperftools-metalloc/src/addressmap-inl.h:340-357 | a map removal that returns the value removed |
| `AddressMaps.AddressMap.FindInside` | gperftools-metalloc/src/addressmap-inl.h:359-403 | terminates, and returns the first entry containing the key in the last block with a smaller key, if that block is in reach |
| `AddressMaps.InsideExact` | gperftools-metalloc/src/addressmap-inl.h:359-403 | with no key inside another range and no wrap-around, an entry is found if and only if its range contains the key and its block is in reach |
| `AddressMaps.InsideIsSearch` | gperftools-metalloc/src/addressmap-inl.h:359-403 | if moreover no range is longer than max_size, the result is that of a plain search over all ranges |
| `AddressMaps.InteriorPointerMissed` | gperftools-metalloc/src/addressmap-inl.h:359-403 | with offset limit 1024, a pointer 2000 bytes into a recorded object of 4096 is not found |
| `AddressMaps.AddressMap.Iterate` | gperftools-metalloc/src/addressmap-inl.h:405-421 | every recorded key is visited, once |
| `HeapProfiles.TagsIndependent` | gperftools-metalloc/src/heap-profile-table.h:190-219 | bucket pointer, live bit and ignore bit can be set without disturbing one another |
| `HeapProfiles.HeapProfile.GetBucket` | gperftools-metalloc/src/heap-profile-table.cc:167-203 | the one bucket of a trace, found on its hash chain or made when no bucket has the trace |
| `HeapProfiles.RecordBalance` | gperftools-metalloc/src/heap-profile-table.cc:210-223 | recording keeps the accounts of all buckets if and only if the pointer was not recorded already |
| `HeapProfiles.HeapProfile.RecordAlloc` | gperftools-metalloc/src/heap-profile-table.cc:210-223 | the pointer is recorded under the bucket of its trace; the accounts stay balanced if and only if it is fresh; totals are the sum over buckets |
| `HeapProfiles.DoubleRecording` | gperftools-metalloc/src/heap-profile-table.cc:210-223 | a profile whose accounts no longer balance after one pointer was recorded twice |
| `HeapProfiles.HeapProfile.RecordFree` | gperftools-metalloc/src/heap-profile-table.cc:225-234 | the record goes and the accounts stay balanced, also for an unknown pointer |
| `HeapProfiles.HeapProfile.MarkAsLive` | gperftools-metalloc/src/heap-profile-table.cc:263-270 | true exactly for a recorded object that was not live; only its live bit changes |
| `HeapProfiles.HeapProfile.MarkAsIgnored` | gperftools-metalloc/src/heap-profile-table.cc:272-277 | sets the ignore bit of a recorded object and changes nothing else |
| `HeapProfiles.HeapProfile.AddIfNonLive` | gperftools-metalloc/src/heap-profile-table.cc:423-436 | clears a live bit, or takes the entry into the snapshot when the base does not have it |
| `HeapProfiles.HeapProfile.NonLiveSnapshot` | gperftools-metalloc/src/heap-profile-table.cc:502-517 | the snapshot holds exactly the recorded objects neither live nor in the base, its totals are their count and size, and all live bits are clear |
| `HeapProfiles.IgnoredExact` | gperftools-metalloc/src/heap-profile-table.cc:423-436 | a snapshot has no ignored object if and only if every ignored object is live or in the base |
| `HeapProfiles.IgnoredReported` | gperftools-metalloc/src/heap-profile-table.cc:502-517 | an ignored object that nobody marks is in the snapshot |
| `LeakCheckers.ScanCovers` | gperftools-metalloc/src/heap-checker.cc:1410-1443 | the words looked at are exactly the aligned words that lie whole inside the object |
| `LeakCheckers.FastCheckIsSafe` | gperftools-metalloc/src/heap-checker.cc:1451-1466 | the bounds test before the search never rejects a word that points into a recorded range |
| `LeakCheckers.LeakChecker.Scan` | gperftools-metalloc/src/heap-checker.cc:1442-1499 | after one object, everything its words lead to is live, and exactly the newly live are pushed |
| `LeakCheckers.LeakChecker.IgnoreLiveObjects` | gperftools-metalloc/src/heap-checker.cc:1392-1507 | terminates; the live set holds what was live, the roots and their targets, is closed for the newly live, heap roots over the size given, and is within the least such set; when heap roots come with their recorded size it is that least set; the count is its growth |
| `LeakCheckers.NextBatch` | gperftools-metalloc/src/heap-checker.cc:1083-1140 | marking from one batch of roots and then from another arrives at what marking from both does |
| `LeakCheckers.GivenIsRecorded` | gperftools-metalloc/src/heap-checker.cc:1392-1507 | with recorded sizes, scanning roots over the size given is scanning them whole |
| `LeakCheckers.CompleteIsClosed` | gperftools-metalloc/src/heap-checker.cc:1392-1507 | if the live set was closed on entry, that set is closed under reachability outright |
| `LeakCheckers.LeakChecker.MarkBatches` | gperftools-metalloc/src/heap-checker.cc:1083-1140 | over any number of batches the live set is that of all their roots together, so their order does not matter |
| `LeakCheckers.LeakChecker.PushIgnored` | gperftools-metalloc/src/heap-checker.cc:725-734 | exactly the ignored objects are pushed as roots, with their sizes |
| `LeakCheckers.LeakChecker.FindLeaks` | gperftools-metalloc/src/heap-checker.cc:1392-1507 | mark, then snapshot: exactly the recorded objects neither reached nor in the base, and nothing stays marked; what is reached is within the least closed set, and is that set when heap roots come with their recorded size; no ignored object is reported if all of them are roots |
| `LeakCheckers.LeakChecker.CheckLeaks` | gperftools-metalloc/src/heap-checker.cc:1092-1140 | batches of roots, the ignored objects, further batches, then the snapshot: what is reached is within the least closed set for all of them, and is that set when heap roots come with their recorded size; the snapshot is the rest outside the base, and it has no ignored object |
| `ProfileDatas.DecodeEncoded` | gperftools-metalloc/src/profiledata.cc:66-78 | a reader of the file gets back the records written, up to the end-of-data record, whatever follows |
| `ProfileDatas.OneEntry` | gperftools-metalloc/src/profiledata.cc:279-298 | a trace occupies at most one entry of the table |
| `ProfileDatas.ProfileData.Evict` | gperftools-metalloc/src/profiledata.cc:66-78 | the record is appended to what output and buffer hold together, and the buffer never overflows |
| `ProfileDatas.ProfileData.Smallest` | gperftools-metalloc/src/profiledata.cc:301-307 | the first entry with the smallest count |
| `ProfileDatas.ProfileData.Start` | gperftools-metalloc/src/profiledata.cc:92-132 | starts with the header, an empty table and no samples, unless already started or the file cannot be opened |
| `ProfileDatas.ProfileData.Add` | gperftools-metalloc/src/profiledata.cc:261-320 | one more sample of the trace cut to 64 frames and of no other; a new trace displaces a least counted entry of its bucket |
| `ProfileDatas.ProfileData.FlushTable` | gperftools-metalloc/src/profiledata.cc:240-259 | the table is empty and the records written account for every sample of every trace |
| `ProfileDatas.ProfileData.Stop` | gperftools-metalloc/src/profiledata.cc:165-197 | the output is header, records, trailer; it decodes to records whose counts are exactly the samples added, for every trace |
| `PageMap3s.PageMap3.Get` | gperftools-metalloc/src/pagemap.h:248-257 | the value at a key, NULL for absent nodes and for keys of 2^35 and above |
| `PageMap3s.SetIsUpdate` | gperftools-metalloc/src/pagemap.h:259-265 | setting one key is a map update and touches no other key |
| `PageMap3s.PageMap3.Set` | gperftools-metalloc/src/pagemap.h:259-265 | the same of the tree in place |
| `PageMap3s.PageMap3.Ensure` | gperftools-metalloc/src/pagemap.h:267-294 | no value changes even when an allocation fails partway; success if and only if nothing was refused and the last key, in unsigned arithmetic, is in range |
| `PageMap3s.EnsureExact` | gperftools-metalloc/src/pagemap.h:267-294 | refusals apart and for all arguments, exactly the ranges of valid pages succeed, except that the empty range at page 0 fails and a range past 2^64 succeeds |
| `PageMap3s.EnsureNothingAtZero` | gperftools-metalloc/src/pagemap.h:268 | the last key of an empty range at page 0 is out of range |
| `PageMap3s.EnsureWraps` | gperftools-metalloc/src/pagemap.h:267-294 | a range past 2^64 counts as empty, though none of its pages is valid |
| `PageMap3s.PageMap3.Next` | gperftools-metalloc/src/pagemap.h:300-321 | terminates with the value at the least key from k on that has one, or NULL when none has |
| `RegionLock.InvStep` | gperftools-metalloc/src/memory_region_map.cc:286-328 | every step keeps the invariant; of the checks only those on the client can fail, and they do if and only if it nests deeper than five or does not hold the lock |
| `RegionLock.MutualExclusion` | gperftools-metalloc/src/memory_region_map.cc:286-328 | for any number of threads and any schedule at most one is inside, the count is its depth and 0 while the lock is free |
| `RegionLock.FastPathIsHolder` | gperftools-metalloc/src/memory_region_map.cc:296-305 | the first test lets in exactly the thread that holds the lock, whatever a stale owner id says |

## Left out

- Aggressive decommit mode of the page heap: the model has it off, as the constructor does.
- The scavenge rate and the sampler are floating point; when to scavenge is a free choice in the model.
- System allocator and release: their outcome is a free choice; new page runs are disjoint from owned ones and the system hands out less than 2^31 pages in all.
- Span records: a `Span*` is a key of a map, freed keys may be used again; the doubly linked lists are sequences, so pointer surgery inside them is not modelled.
- CentralFreeLists.CentralFreeList.MakeCacheSpace: what an eviction does to the other size class is a free choice here; the protocol between classes is in `TransferCache`.
- CentralFreeLists.CentralFreeList.RemoveRange: sequential, so the moments where the list lock is dropped are in `TransferCache` only.
- `CacheSizeClass` and the packed cache behind it.
- Fixed-compression metadata, deep metadata and `allocate_metadata` through mmap.
- MetaTable.MetaStore.MetaSet: shifts of 31 and more, where `1 << alignment` overflows a C int.
- MaskSimulation.MaskingPreservesMeaning: assumes of a run that pointers and closure values of the original fit in 32 bits, that integer loads, casts to non-pointers and internal-call results agree in both runs, and that integers stored to externs fit in 32 bits; the last is exact, by `MaskingExact`, and the pass only warns about the others.
- Nested pointers in the two whitelisted library calls, globals, argv and inline assembly of the masking pass; the inserted `and` instruction is represented as a flag on the operand.
- LeakCheckers.LeakChecker.IgnoreLiveObjects: for a heap root given with another size than the recorded one, against the source's placement comment, which words are scanned depends on the order of the roots, and only bounds are stated; memory is a function that does not change during the scan.
- The byte count of the mark phase, which feeds a log line.
- Collecting roots from threads, registers, /proc and libraries; skipping unreadable mappings.
- HeapProfiles.HeapProfile.RecordAlloc: statistics are unbounded, not 32 and 64 bits wide.
- Leak reports, heap-profile text output and symbolization.
- ProfileDatas.ProfileData.Stop: the dump of /proc/self/maps that follows is arbitrary further output.
- Region splitting of the memory-region map and its LockIsHeld.
- `SizeMap::Init`, thread caches, `metadata_page_heap`, the two-level page map, mmap hooks and libc overrides.
