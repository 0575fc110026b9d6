# A verified model of the FastRPC driver core and the boot marker index

The repository holds Linux platform drivers. Its core is the virtualised FastRPC driver under
`drivers/virtual_fastrpc/dsp`: it marshals remote calls into buffers shared with a DSP, tracks shared mappings by
several reference counts, and matches responses to callers through slot tables. This project models that core, and
the boot marker index in `drivers/boot_marker.c`, in Dafny, and proves what the code promises: that every copied
argument arrives, that two passes over a message agree, that no mapping is released while a call holds it, that a
response reaches only the call it answers, and so on.

`dafny verify dfyconfig.toml` checks the whole project.

## What is modelled

| file | part of the system |
|---|---|
| `Overlap.dfy` | the sweep that cuts the argument intervals of a call into disjoint pieces |
| `Packing.dfy`, `Marshal.dfy` | measuring, choosing a buffer, copying and describing the arguments; a whole call from its user arguments |
| `Pages.dfy` | alignment and page arithmetic; page descriptors |
| `Wire.dfy` | the virtio invoke message: two measuring passes, the filling pass, the reading pass |
| `MapTable.dfy`, `MapProtocol.dfy` | the table of shared mappings, in place, and its runs |
| `CtxTable.dfy` | context ids, slot allocation and response matching |
| `PageAlloc.dfy`, `BufCache.dfy` | the page allocator and the buffer cache |
| `DspSignal.dfy`, `MsgTable.dfy` | DSP signals; message slots and transmit buffers |
| `BootMarker.dfy`, `BootRuns.dfy`, `BootReport.dfy` | the marker list with its hash index; runs of overlapping operations; the report and its piecewise reader |
| `Common.dfy`, `Counting.dfy` | shared types; duplicate-free lists and set sizes |

Algorithms and objects that the drivers update in place are methods over arrays and classes, each proved against a
specification function; the theorems are lemmas about those functions. Protocols (`MapProtocol.dfy`, `BootRuns.dfy` and the
runs in `CtxTable.dfy`, `BufCache.dfy`, `DspSignal.dfy` and `MsgTable.dfy`) are state machines whose steps are the regions under one hold of a
lock; the methods do one step each, and the theorems hold for every sequence of steps.

### Parameters and assumptions

* `PAGE_SIZE` is a parameter: a multiple of 128 for packing, a power of two for the boot marker report. Buffer
  addresses `va` and `da` are page aligned.
* `FASTRPC_CTX_MAX` is 128, 256, 512 or 1024, and `fl->pd` is below 4. Job ids fit in the 48 bits that an id has for
  them, so runs of the channel are shorter than 2^48 steps.
* `sort()` is a library call. `Overlaps.SortPointers` stands for it; its callers know only that the result is a sorted
  permutation.
* User memory does not change while one call copies from it, and destination addresses do not wrap.
* Calls into code outside the drivers (page and dma-buf allocation, device mappings, user copies, the virtqueue, the
  DSP's answers) are parameters or step arguments that may succeed or fail in any pattern.
* The buffer size of the virtio transport is an unsigned 32-bit number; scatterlist lengths are, too.
* Every locked region, every walk of a hash chain and every change of a counter is one step. Reads of the boot marker
  report are made one at a time.
* A short response without the version-2 fields has flags 0, which is the normal response.
* A kernel completion counts up to `UINT_MAX`; runs of a DSP signal are shorter than that.
* In the runs of the map table, `owners` stands for the map requests that have completed or are pending: one reference
  each. `internal_map_mutex` admits one unmap at a time.

### Where the code falls short of a simple reading

* **Mixed overlap runs.** If an overlap run has a mapped argument with a piece of its own before a copied one, the
  copies of that run are misplaced and can start below the data area. `Packing.PlacementRightIffSeparable` gives the
  exact condition, `Packing.FirstCopyOfMixedRun` and `Packing.LandsBelowIff` say when a copy starts below the data area,
  `Packing.MixedRunExample` is an instance, and `Marshalling.ClearIsSeparable` gives a condition on the user's
  arguments alone: no mapped argument shares an address with a copied one. The room check cannot catch it: it never
  fails.
* **Message sizes.** The virtio driver adds user lengths up in 64-bit words without a check and passes the size on as a
  32-bit number. In the plain layout a message whose true size is 2^64 or more can be granted, in the internal layout
  one of 2^32 or more, and its entries then lie outside the transmit buffer. `WireLayout.GrantedStaysInsideIff` gives
  the exact condition for each layout, `WireLayout.WrappingCallLeavesBuffer` and `WireLayout.LargeCallLeavesBuffer` an
  instance each. The offset of the outputs is kept in 32 bits (`WireLayout.OutputsComeFromReservedIff`,
  `WireLayout.FarOutputIsMisread`).
* **munmap.** Its error path re-lists the map without the KEEP_MAP reference that the removal took, unlike
  `mem_unmap` (`MapTables.ReAddUndoesRemoveIffNotKept`). Two such failures leave a listed map without a reference, and
  the loop that tears the client down then never ends (`MapProtocol.FailedMunmapsStrandMap`,
  `MapTables.TeardownEndsIff`). Contexts still hold only maps that are alive.
* **Handles used more than once.** When the DSP lists a descriptor, all handle references of its map end but only one
  reference goes. A map used n times as a handle keeps n - 1 references until the client is torn down
  (`MapProtocol.DspReleasesIff`, `MapProtocol.TwoHandlesStrandReference`).
* **Calls that fail before they are sent.** Releasing a message does not give its transmit buffer back; only the queue
  does. A buffer is lost for good exactly when its message is released before the queue has accepted it
  (`MessageTables.LostIff`, `MessageTables.FailedCallTakesLastBuffer`).
* **Create after destroy.** A DSP signal that is destroyed and created again before a woken-up thread has run puts
  that thread back to sleep (`DspSignals.RecreateCanStrandWaiter`). Created again after the thread has woken up, but
  before the second locked region of its wait, it makes that wait succeed although no signal has come
  (`DspSignals.RecreateCanHideEnd`). `DspSignals.EndedWaiterWakesIff` and `DspSignals.EndedWaiterIsToldIff` give the
  exact conditions.
* **Signals with nobody waiting** stay: every later wait succeeds at once until the slot is cancelled or destroyed
  (`DspSignals.UnawaitedSignalStays`).
* **Boot marker names that do not fit** are looked up whole but stored shortened, so two markers can carry one name
  (`BootMarkers.UniqueIffShortenedIsNew`, `BootMarkers.LongNamesCollide`).
* **Boot marker placements that overlap.** The limit test, the lookup and the counting of a placement are outside the
  lock. Two placements of one new name can both link a marker, two placements near the limit can exceed it, and then the
  report is clipped (`BootRuns.OverlapDuplicates`, `BootRuns.OverlapExceedsLimit`, `BootReports.ReadsShowAllMarkersIff`);
  `BootRuns.GoodThroughoutIff` gives the exact condition, and `BootRuns.SerialRunIsGood` shows that it is met when no two
  placements overlap. A marker that has been found can be gone before its time is stored
  (`BootRuns.OverlapTouchesReleased`).
* **The empty boot marker name** makes the character sum read in front of the string, unless the list is full
  (`BootMarkers.CharSum`, `BootReports.BootKpi.Place`). The runs of the index are those without such a step.
* **The boot marker report** ends early for a read with room for one byte (`BootReports.ReadStopsIff`); a read with room
  for exactly the rest stores its terminator behind that room (`BootReports.StoredFitsIff`); and a read at
  an offset behind its end does not stop at the end (`BootReports.BootKpi.Read`).

## Model

| member | source | states |
|---|---|---|
| Overlaps.OverlapCmpIsOrder | drivers/virtual_fastrpc/dsp/hybrid_fastrpc_core.c:1097-1106 | the comparison is antisymmetric and transitive, and ties exactly the equal intervals |
| Overlaps.SortPointers | drivers/virtual_fastrpc/dsp/hybrid_fastrpc_core.c:1134 | the library sort: a sorted permutation of the pointers |
| Overlaps.BuildOverlap | drivers/virtual_fastrpc/dsp/hybrid_fastrpc_core.c:1108-1163 | fails exactly when a non-empty argument wraps the address space; otherwise every argument keeps its interval and the pointers are swept |
| Overlaps.Sweep | drivers/virtual_fastrpc/dsp/hybrid_fastrpc_core.c:1135-1160 | the running `max` is the highest end so far and its index the run's first argument; pieces, offsets and flags are the closed form against them |
| Overlaps.CutOne | drivers/virtual_fastrpc/dsp/hybrid_fastrpc_core.c:1138-1159 | one turn of the sweep |
| Overlaps.PieceIsFirstCover | drivers/virtual_fastrpc/dsp/hybrid_fastrpc_core.c:1134-1160 | a piece holds exactly the addresses of its interval that no earlier interval holds |
| Overlaps.PiecesPartitionUnion | drivers/virtual_fastrpc/dsp/hybrid_fastrpc_core.c:1108-1163 | pieces are disjoint and cover exactly what the arguments cover |
| Overlaps.PieceSumIsUnionSize | drivers/virtual_fastrpc/dsp/hybrid_fastrpc_core.c:1108-1163 | piece lengths sum to the number of addresses covered |
| Overlaps.TiesAreSwallowed | drivers/virtual_fastrpc/dsp/hybrid_fastrpc_core.c:1097-1106 | of intervals with one start only the first, the longest, keeps a piece |
| Overlaps.RunsAreApart | drivers/virtual_fastrpc/dsp/hybrid_fastrpc_core.c:1134-1160 | arguments of different overlap runs share no address |
| Overlaps.RunsAreContiguous | drivers/virtual_fastrpc/dsp/hybrid_fastrpc_core.c:1134-1160 | a run covers every address between its start and its end |
| Overlaps.CmoFlagMeaning | drivers/virtual_fastrpc/dsp/hybrid_fastrpc_core.c:1143-1153 | `do_cmo` marks the swallowed intervals whose run was opened by an argument of the other direction |
| Overlaps.ZeroLengthIsInert | drivers/virtual_fastrpc/dsp/hybrid_fastrpc_core.c:1117-1160 | what is left of the list without a zero-length argument is again the result of a sweep, with the same pieces, offsets and flags |
| Packing.CopyLen | drivers/virtual_fastrpc/dsp/hybrid_fastrpc_core.c:1760-1781 | the measured length is the final cursor from 0, refused exactly when it exceeds `LONG_MAX` |
| Packing.PassesAgree | drivers/virtual_fastrpc/dsp/hybrid_fastrpc_core.c:1899-1950 | the copying pass ends within the measured total behind the metadata, exactly at it in its own buffer (also lines 1758-1803) |
| Packing.ChooseBuffer | drivers/virtual_fastrpc/dsp/hybrid_fastrpc_core.c:1782-1803 | behind the metadata exactly if the copies fit its pages, else the buffer allocated for them; either way `args - va == totallen - rlen` and all the copies fit in it |
| Packing.PlaceOne | drivers/virtual_fastrpc/dsp/hybrid_fastrpc_core.c:1911-1929 | `rlen >= mlen` holds, `args + rlen` is constant, and address and descriptor are those of the argument (also lines 1947-1948) |
| Packing.CopyArgs | drivers/virtual_fastrpc/dsp/hybrid_fastrpc_core.c:1898-1950 | fails exactly on a user copy that fails; memory is the image of the copies up to there, every argument is described if none fails, and arguments that are not packed keep their entries |
| Packing.RunCursor | drivers/virtual_fastrpc/dsp/hybrid_fastrpc_core.c:1911-1948 | inside a run the cursor lags by exactly the pieces of mapped arguments |
| Packing.PlacementRightIffSeparable | drivers/virtual_fastrpc/dsp/hybrid_fastrpc_core.c:1899-1950 | user-space displacements are kept and runs stay in their space if and only if no mapped piece precedes a copied argument of its run (also lines 1134-1160) |
| Packing.MixedRunExample | drivers/virtual_fastrpc/dsp/hybrid_fastrpc_core.c:1906-1920 | a call with a mixed run whose copy lands 50 bytes below the data area |
| Packing.RunsLandApart | drivers/virtual_fastrpc/dsp/hybrid_fastrpc_core.c:1911-1948 | destinations of different runs are disjoint |
| Packing.DstInside | drivers/virtual_fastrpc/dsp/hybrid_fastrpc_core.c:1899-1950 | every destination of a separable call lies between the start of the data area and the final cursor |
| Packing.DstEndsInside | drivers/virtual_fastrpc/dsp/hybrid_fastrpc_core.c:1899-1950 | in every call, mixed runs or not, no destination ends behind the final cursor |
| Packing.FirstCopyOfMixedRun | drivers/virtual_fastrpc/dsp/hybrid_fastrpc_core.c:1906-1920 | the first copy of a run that a mapped argument opens lands below its run by its offset, and below the data area exactly when earlier runs used less than that |
| Packing.LandsBelowIff | drivers/virtual_fastrpc/dsp/hybrid_fastrpc_core.c:1906-1920 | a later copy lands below the data area exactly when the mapped pieces in front of it outweigh its place |
| Packing.ImageHolds | drivers/virtual_fastrpc/dsp/hybrid_fastrpc_core.c:1930-1941 | after all copies every copied input has its user bytes, also where inputs overlap and are written twice |
| Packing.ImageFrame | drivers/virtual_fastrpc/dsp/hybrid_fastrpc_core.c:1899-1950 | nothing outside the data area changes |
| Packing.OnlyInputsAreWritten | drivers/virtual_fastrpc/dsp/hybrid_fastrpc_core.c:1930-1941 | in every call, mixed runs or not, memory changes only in the space of inputs that are copied: outputs and mapped arguments are never copied in |
| Packing.LeaderIsAligned | drivers/virtual_fastrpc/dsp/hybrid_fastrpc_core.c:1911-1920 | an argument that opens an overlap run lands on a multiple of 128 |
| Packing.GetArgs | drivers/virtual_fastrpc/dsp/hybrid_fastrpc_core.c:1760-1950 | each outcome exactly when its cause is there; only the space of copied inputs is written and unpacked arguments keep their entries; success delivers every copied argument of a separable call |
| Marshalling.ClearIsSeparable | drivers/virtual_fastrpc/dsp/hybrid_fastrpc_core.c:1108-1163 | arguments without sharing between mapped and copied ones are placed right |
| Marshalling.Marshal | drivers/virtual_fastrpc/dsp/hybrid_fastrpc_core.c:1760-1950 | end to end on the user's arguments: each outcome exactly when its cause is there; success means that only the space of unmapped inputs is written, that arguments which share nothing are aligned, and, if mapped and copied ones share nothing, addresses inside the buffer, least page cover and user bytes (also lines 1108-1163) |
| Marshalling.MarshalSwept | drivers/virtual_fastrpc/dsp/hybrid_fastrpc_core.c:1760-1950 | the same from the swept list on |
| Marshalling.DoneSucceeds | drivers/virtual_fastrpc/dsp/hybrid_fastrpc_core.c:1898-1950 | what packing says of the overlap list, said of the caller's arguments |
| Pages.DescriptorIsLeastCover | drivers/virtual_fastrpc/dsp/hybrid_fastrpc_core.c:110-128 | the descriptor covers the device range with the least number of pages, although counted from the kernel address (also lines 1921-1929) |
| Pages.PageAlignFacts | drivers/virtual_fastrpc/dsp/hybrid_fastrpc_core.c:130-136 | page rounding reaches the next multiple and no further |
| Pages.AlignWithinPages | drivers/virtual_fastrpc/dsp/hybrid_fastrpc_core.c:1782-1790 | aligned metadata fits its whole pages, so the inline layout is sound (also lines 130-136) |
| WireLayout.MeasurePlain | drivers/virtual_fastrpc/dsp/virtio_fastrpc_core.c:600-623 | the plain layout's length as a 64-bit word and its output offset as a 32-bit one, both truncated |
| WireLayout.MeasureInternal | drivers/virtual_fastrpc/dsp/virtio_fastrpc_core.c:660-695 | the same for the internal-buffer layout; fails exactly when a needed buffer cannot be had |
| WireLayout.MeasureHandles | drivers/virtual_fastrpc/dsp/virtio_fastrpc_core.c:625-654 | the handle lengths as a truncated word |
| WireLayout.SizeIsTruncated | drivers/virtual_fastrpc/dsp/virtio_fastrpc_core.c:657-660 | the size the driver adds up is the true size modulo 2^64 |
| WireLayout.GrantedStaysInsideIff | drivers/virtual_fastrpc/dsp/virtio_fastrpc_core.c:657-702 | the space of a granted message lies inside its transmit buffer if and only if its true size is below 2^64 in the plain layout and below 2^32 in the internal one |
| WireLayout.WrappingCallLeavesBuffer | drivers/virtual_fastrpc/dsp/virtio_fastrpc_core.c:602-623 | three outputs whose lengths wrap to a size of 650 bytes: granted, and a descriptor is written 2^63 bytes behind the metadata |
| WireLayout.LargeCallLeavesBuffer | drivers/virtual_fastrpc/dsp/virtio_fastrpc_core.c:698-702 | one mapped argument of 2^28 entries: granted, and its descriptor is longer than 2^32 bytes |
| WireLayout.Fill | drivers/virtual_fastrpc/dsp/virtio_fastrpc_core.c:726-887 | for every call the cursor ends at the truncated size and memory is the image of the writes at the truncated offsets; the message entries are those of the arguments |
| WireLayout.FillBuffers | drivers/virtual_fastrpc/dsp/virtio_fastrpc_core.c:729-849 | the loop over the buffer entries, and the faults that stop it |
| WireLayout.ImageIsMessage | drivers/virtual_fastrpc/dsp/virtio_fastrpc_core.c:729-887 | below 2^64 bytes every entry is at its offset and nothing else is written |
| WireLayout.FillHandles | drivers/virtual_fastrpc/dsp/virtio_fastrpc_core.c:851-887 | the loop over the handle entries |
| WireLayout.GetArgs | drivers/virtual_fastrpc/dsp/virtio_fastrpc_core.c:600-887 | layout choice by the truncated size and each outcome exactly when its cause is there; in a message of 64-bit size every entry is right and the bytes of large inputs are in their internal buffers; in one of small enough size no write leaves the buffer and the output offset is true |
| WireLayout.ChooseLayout | drivers/virtual_fastrpc/dsp/virtio_fastrpc_core.c:657-706 | the fallback exactly when the plain size does not fit; out of memory exactly when a page-sized unmapped argument gets no buffer, the size is too large, or there is no slot |
| WireLayout.ImageIsRight | drivers/virtual_fastrpc/dsp/virtio_fastrpc_core.c:729-887 | every map and internal buffer has its descriptor, every other input the user's bytes, and the space of every other output is as it was: in the fallback exactly the unmapped arguments shorter than a page travel as bytes |
| WireLayout.OutputSpaceKept | drivers/virtual_fastrpc/dsp/virtio_fastrpc_core.c:826-847 | no write of the filling pass touches the space of an output that travels in the message |
| WireLayout.InnerIsRight | drivers/virtual_fastrpc/dsp/virtio_fastrpc_core.c:811-822 | an internal buffer gets the user's bytes exactly if it stands for an unmapped input of a page or more |
| WireLayout.PutArgs | drivers/virtual_fastrpc/dsp/virtio_fastrpc_core.c:931-965 | for any response and any pattern of failing copies: a mapped output is not copied, a large one of the fallback comes from its own internal buffer, any other from where the walk is; user memory has at every address the byte of the last copy to it, and is untouched elsewhere |
| WireLayout.OutputArrives | drivers/virtual_fastrpc/dsp/virtio_fastrpc_core.c:931-965 | with preserved entries of a message of 32-bit size the user finds in every unmapped output what the backend left in its internal buffer or in the space that get_args reserved (also lines 729-849) |
| WireLayout.OnlyOutputsAreWritten | drivers/virtual_fastrpc/dsp/virtio_fastrpc_core.c:931-965 | and memory outside the unmapped outputs is as it was |
| WireLayout.OutputsComeFromReservedIff | drivers/virtual_fastrpc/dsp/virtio_fastrpc_core.c:729-849 | with preserved payload lengths an inline output is read where its space was reserved if and only if the offset of the outputs fits its 32-bit field, and always as much of it (also lines 619-621, 931-965) |
| WireLayout.FarOutputIsMisread | drivers/virtual_fastrpc/dsp/virtio_fastrpc_core.c:931-963 | a granted call of a mapped input with 2^28 entries, whose output is read 2^32 bytes in front of its space (also lines 619-621) |
| WireLayout.ReservedIsInside | drivers/virtual_fastrpc/dsp/virtio_fastrpc_core.c:729-887 | reserved spaces are disjoint, in order and inside the message |
| WireLayout.OutputOffsetFits | drivers/virtual_fastrpc/dsp/virtio_fastrpc_core.c:619-621 | the 32-bit output offset does not wrap in a message of 32-bit size (also lines 692-693) |
| MapTables.FirstFacts | drivers/virtual_fastrpc/dsp/virtio_fastrpc_mem.c:255-271 | the list search finds the first map that qualifies, and none only if none does (also lines 381-394) |
| MapTables.RemoveTakes | drivers/virtual_fastrpc/dsp/virtio_fastrpc_mem.c:255-277 | an unmap takes the first listed map of exactly the range and descriptor that only its user holds, none exactly if there is none, and changes no other map |
| MapTables.FindTakes | drivers/virtual_fastrpc/dsp/virtio_fastrpc_mem.c:365-400 | a search takes the first listed map that covers the range for the descriptor, with one reference more; each failure exactly when its cause is there |
| MapTables.CreateMakes | drivers/virtual_fastrpc/dsp/virtio_fastrpc_mem.c:647-735 | a creation shares such a map or lists a new one that records the request with one reference, two with KEEP_MAP; a failed one changes no other map |
| MapTables.FreeDrops | drivers/virtual_fastrpc/dsp/virtio_fastrpc_mem.c:737-800 | a free drops one reference and nothing else, and releases the map exactly if that leaves all counters 0 |
| MapTables.RemoveFdEndsKeep | drivers/virtual_fastrpc/dsp/virtio_fastrpc_mem.c:802-824 | the sweep ends the KEEP_MAP of each listed map of the descriptor, drops its reference, and changes no other map |
| MapTables.MapList.Find | drivers/virtual_fastrpc/dsp/virtio_fastrpc_mem.c:365-400 | in place, the search with its overflow and reference limits |
| MapTables.MapList.Free | drivers/virtual_fastrpc/dsp/virtio_fastrpc_mem.c:737-800 | in place, dropping one reference, or all of them by force, and releasing a map when all three counters are 0 |
| MapTables.MapList.FreeAll | drivers/virtual_fastrpc/dsp/hybrid_fastrpc_core.c:1585-1595 | in place, the teardown loop over all maps, and when it ends |
| MapTables.TeardownEndsIff | drivers/virtual_fastrpc/dsp/hybrid_fastrpc_core.c:1585-1595 | the teardown ends, and has released every listed map, if and only if no listed map is without a reference |
| MapTables.MapList.Create | drivers/virtual_fastrpc/dsp/virtio_fastrpc_mem.c:647-735 | in place, sharing a map that serves the request or making one, with its failure path |
| MapTables.MapList.Remove | drivers/virtual_fastrpc/dsp/virtio_fastrpc_mem.c:248-277 | in place, taking off the list the first map of exactly this range and descriptor that only its user holds, and none only if there is none |
| MapTables.MapList.RemoveFd | drivers/virtual_fastrpc/dsp/virtio_fastrpc_mem.c:802-824 | in place, the sweep over all maps of a descriptor, and when it reports an abnormal one |
| MapTables.MapList.MemUnmap | drivers/virtual_fastrpc/dsp/hybrid_fastrpc_core.c:1007-1048 | succeeds exactly if the DSP does and there is such a map, which is then unmapped and no other; a failed call leaves every counter and the bag of listed maps as they were |
| MapTables.MapList.Munmap | drivers/virtual_fastrpc/dsp/hybrid_fastrpc_core.c:780-806 | in place, the mapping part of munmap: the same for any descriptor; a failure leaves the counters as they were exactly when the map is not KEEP_MAP |
| MapTables.RestoreUndoesRemove | drivers/virtual_fastrpc/dsp/virtio_fastrpc_core.c:1852-1887 | the error path undoes the removal, with or without KEEP_MAP, from any state |
| MapTables.ReAddUndoesRemoveIffNotKept | drivers/virtual_fastrpc/dsp/hybrid_fastrpc_core.c:780-806 | the error path of munmap undoes it if and only if the map is not KEEP_MAP |
| MapProtocol.CreateKeeps | drivers/virtual_fastrpc/dsp/virtio_fastrpc_mem.c:647-735 | a created or shared map is listed and has a reference that nobody accounts for yet |
| MapProtocol.FreeKeeps | drivers/virtual_fastrpc/dsp/virtio_fastrpc_mem.c:737-800 | while the accounting holds, a free that drops the last reference releases the map in that call, and no other free does |
| MapProtocol.RemoveStartKeeps | drivers/virtual_fastrpc/dsp/virtio_fastrpc_mem.c:255-271 | an unmap takes only maps that no context holds |
| MapProtocol.DmaDropKeeps | drivers/virtual_fastrpc/dsp/hybrid_fastrpc_core.c:2014-2026 | lowering the handle count before a free keeps the accounting (also lines 1712-1717) |
| MapProtocol.NextStays | drivers/virtual_fastrpc/dsp/hybrid_fastrpc_core.c:1678-1729 | every step keeps `ctx_refs` equal to the number of holders, held maps listed and released ones gone (also lines 777-806, 1007-1047, 2002-2028) |
| MapProtocol.RunStays | drivers/virtual_fastrpc/dsp/hybrid_fastrpc_core.c:1678-1729 | so does every run |
| MapProtocol.NextKeeps | drivers/virtual_fastrpc/dsp/hybrid_fastrpc_core.c:1678-1729 | every step but a munmap that fails on a KEEP_MAP map keeps `refs >= ctx_refs + dma_handle_refs + KEEP_MAP + owners` on listed maps (also lines 2002-2028) |
| MapProtocol.RunKeeps | drivers/virtual_fastrpc/dsp/hybrid_fastrpc_core.c:1678-1729 | so does every run without such a failure (also lines 2002-2028) |
| MapProtocol.ReachableIsSafe | drivers/virtual_fastrpc/dsp/hybrid_fastrpc_core.c:1678-1689 | in every reachable state `ctx_refs` counts the live buffer arguments, held maps are listed and alive, and nothing is released twice (also lines 1395-1401, 2007-2012) |
| MapProtocol.SparingRunIsAccounted | drivers/virtual_fastrpc/dsp/hybrid_fastrpc_core.c:1678-1729 | without such a failure: enough references on every listed map, no released map owned, and a teardown that ends and releases all of them (also lines 1585-1595) |
| MapProtocol.FailedMunmapsStrandMap | drivers/virtual_fastrpc/dsp/hybrid_fastrpc_core.c:777-806 | a run in which two failed munmaps leave a KEEP_MAP map listed without a reference, which the teardown never gets past (also lines 1585-1595) |
| MapProtocol.BufferGets | drivers/virtual_fastrpc/dsp/hybrid_fastrpc_core.c:1678-1689 | a buffer argument gets a map exactly if one covers it or one can be made, and the context then holds it with one reference and one context reference more (also lines 647-735 of virtio_fastrpc_mem.c) |
| MapProtocol.BufferRoundTrip | drivers/virtual_fastrpc/dsp/hybrid_fastrpc_core.c:2002-2006 | dropping the argument undoes that: a shared map is as it was, a new one is gone but for KEEP_MAP (also lines 1395-1401) |
| MapProtocol.HandleGets | drivers/virtual_fastrpc/dsp/hybrid_fastrpc_core.c:1693-1722 | a handle argument gets a map likewise, without KEEP_MAP, with one handle reference more |
| MapProtocol.HandleRoundTrip | drivers/virtual_fastrpc/dsp/hybrid_fastrpc_core.c:1712-1717 | a later handle that fails gives the earlier ones back: each as it was, or gone if it was new |
| MapProtocol.DspReleasesIff | drivers/virtual_fastrpc/dsp/hybrid_fastrpc_core.c:2007-2015 | a descriptor in the DSP's list ends all handle references of its map but drops one reference, so that the map is released if and only if that was its last |
| MapProtocol.TwoHandlesStrandReference | drivers/virtual_fastrpc/dsp/hybrid_fastrpc_core.c:2007-2015 | a run in which a descriptor is used twice as a handle and released: one reference stays behind that nobody accounts for (also lines 1712-1722) |
| MapProtocol.UserMapGets | drivers/virtual_fastrpc/dsp/hybrid_fastrpc_core.c:953-985 | a map request owns the map it gets, shared or new |
| MapProtocol.UserMapRoundTrip | drivers/virtual_fastrpc/dsp/hybrid_fastrpc_core.c:953-985 | when its call to the DSP fails the request is undone: a shared map is as it was, a new one gone but for KEEP_MAP |
| MapProtocol.NoMapNoChange | drivers/virtual_fastrpc/dsp/virtio_fastrpc_mem.c:647-735 | a request that gets no map changes no other map |
| MapProtocol.UnmapTakes | drivers/virtual_fastrpc/dsp/hybrid_fastrpc_core.c:1007-1048 | an unmap starts exactly if a listed map has its range and descriptor and is only its user's, takes the first such one and leaves every other alone |
| MapProtocol.MapRoundTrip | drivers/virtual_fastrpc/dsp/hybrid_fastrpc_core.c:1007-1048 | mapping and unmapping a new range leaves the table as before and the map released, with KEEP_MAP or without |
| MapProtocol.UnmapFdEndsKeep | drivers/virtual_fastrpc/dsp/virtio_fastrpc_mem.c:802-824 | an unmap of a descriptor ends the KEEP_MAP of each of its listed maps and of no other |
| MapProtocol.TakenIsUntouched | drivers/virtual_fastrpc/dsp/hybrid_fastrpc_core.c:1007-1034 | while an unmap waits for the DSP no other step touches its map |
| MapProtocol.TakenSurvivesRun | drivers/virtual_fastrpc/dsp/hybrid_fastrpc_core.c:1007-1034 | over any run of other steps |
| MapProtocol.FailedUnmapRestores | drivers/virtual_fastrpc/dsp/hybrid_fastrpc_core.c:1007-1047 | in every interleaving a failed unmap lists its map again, once, with the counters from before the call |
| MapProtocol.ContextFree | drivers/virtual_fastrpc/dsp/hybrid_fastrpc_core.c:1395-1401 | in place, the loop over the maps of a context |
| MapProtocol.ContextFreeIsRun | drivers/virtual_fastrpc/dsp/hybrid_fastrpc_core.c:1395-1401 | that loop is a run of single drops, after which the context holds nothing |
| ContextTables.ShiftsBuildId | drivers/virtual_fastrpc/dsp/hybrid_fastrpc_core.c:1306-1309 | the shifts and ors are the arithmetic of the model, on 64-bit words |
| ContextTables.MasksDecodeId | drivers/virtual_fastrpc/dsp/hybrid_fastrpc_vdev.c:64-76 | so are the masks that take an id apart |
| ContextTables.PdBitsAgree | drivers/virtual_fastrpc/dsp/hybrid_fastrpc_core.c:2126 | or-ing in the PD is adding it and can be undone |
| ContextTables.CtxIdDecodes | drivers/virtual_fastrpc/dsp/hybrid_fastrpc_vdev.c:61-76 | an id with any PD below 4 decodes to its slot, its id and its job |
| ContextTables.TakeSlot | drivers/virtual_fastrpc/dsp/hybrid_fastrpc_core.c:1301-1312 | in place, the first free slot from 0 or 70 on |
| ContextTables.GiveSlot | drivers/virtual_fastrpc/dsp/hybrid_fastrpc_core.c:1373-1386 | in place, exactly the context's slot is emptied, whatever its id |
| ContextTables.ChannelTable.AllocContext | drivers/virtual_fastrpc/dsp/hybrid_fastrpc_core.c:1291-1321 | in place, the locked region: a new job id, a slot and the id made of both, with the invariant kept |
| ContextTables.ChannelTable.FreeContext | drivers/virtual_fastrpc/dsp/hybrid_fastrpc_core.c:1371-1387 | in place, the context and exactly its slot go |
| ContextTables.ChannelTable.Respond | drivers/virtual_fastrpc/dsp/hybrid_fastrpc_vdev.c:562-593 | in place: refused exactly when no context with a slot has the id; the context that has it is decided by the response, and every other one is as it was |
| ContextTables.NextKeeps | drivers/virtual_fastrpc/dsp/hybrid_fastrpc_core.c:1291-1313 | every step keeps slots and ids in agreement and reserved slots critical (also lines 1373-1386) |
| ContextTables.IdsAreDistinct | drivers/virtual_fastrpc/dsp/hybrid_fastrpc_core.c:1291-1313 | contexts in different slots have different ids |
| ContextTables.ResponseMatchesById | drivers/virtual_fastrpc/dsp/hybrid_fastrpc_vdev.c:562-593 | a response reaches a context if and only if that context is live, has a slot and carries its id |
| ContextTables.AnswerFindsItsContext | drivers/virtual_fastrpc/dsp/hybrid_fastrpc_vdev.c:562-593 | the answer to a sent id finds the sender's context |
| ContextTables.DoneOnlyByOwnResponse | drivers/virtual_fastrpc/dsp/hybrid_fastrpc_vdev.c:474-506 | a context becomes done only by a final response with its id or by its own polling |
| ContextTables.StepDecides | drivers/virtual_fastrpc/dsp/hybrid_fastrpc_vdev.c:474-506 | one step: what an answer with any flags does to its context, synchronous or not, and that nothing else but its polling touches it |
| ContextTables.AnswersDecide | drivers/virtual_fastrpc/dsp/hybrid_fastrpc_vdev.c:474-506 | over any run a context is what the answers to its id have made of it: completed once for each that wakes it, done if and only if one was final or it was polled, queued if and only if it is asynchronous and one queues it, with the return value, flags and hint of the last |
| ContextTables.DoneMeansAnswered | drivers/virtual_fastrpc/dsp/hybrid_fastrpc_vdev.c:474-506 | from its allocation on, a context that is done and was not polled has been completed, was sent a final response with its id, and has the return value of the last one with its id |
| ContextTables.ResponseReaches | drivers/virtual_fastrpc/dsp/hybrid_fastrpc_vdev.c:562-593 | a response is refused exactly if no context with a slot has its id |
| ContextTables.EveryRunMatchesById | drivers/virtual_fastrpc/dsp/hybrid_fastrpc_vdev.c:562-593 | matching by id, distinct ids and reserved slots in every run from the empty table |
| ContextTables.StaleResponseIsDropped | drivers/virtual_fastrpc/dsp/hybrid_fastrpc_vdev.c:567-587 | a response to a freed context changes nothing in any later state, also when the slot was reused |
| ContextTables.RefusedOnlyWhenFull | drivers/virtual_fastrpc/dsp/hybrid_fastrpc_core.c:1294-1321 | a call is refused exactly when its slots are full; a critical one only when critical calls hold all 70 reserved slots |
| ContextTables.AllocTakesSlot | drivers/virtual_fastrpc/dsp/hybrid_fastrpc_core.c:1291-1321 | a new context takes the lowest free slot that is open to it, with the id made of job and slot, and no other context changes |
| ContextTables.FreeGivesBack | drivers/virtual_fastrpc/dsp/hybrid_fastrpc_core.c:1371-1387 | freeing takes exactly the context and its slot away, and undoes its allocation |
| PageAllocation.MaskMeets | drivers/virtual_fastrpc/dsp/virtio_fastrpc_mem.c:63 | meeting two order masks leaves the shorter one |
| PageAllocation.TakeBlock | drivers/virtual_fastrpc/dsp/virtio_fastrpc_mem.c:63-79 | the inner loop serves the highest order left, loses one order per failure and gives up only after a single page failed |
| PageAllocation.TriedDescends | drivers/virtual_fastrpc/dsp/virtio_fastrpc_mem.c:63-79 | trying the orders left from the highest down keeps requests from rising and failed orders from returning |
| PageAllocation.AddBlock | drivers/virtual_fastrpc/dsp/virtio_fastrpc_mem.c:54-86 | one block more in the table, or every page given back |
| PageAllocation.AllocTable | drivers/virtual_fastrpc/dsp/virtio_fastrpc_mem.c:41-88 | ends for every pattern of failures with `count` distinct new pages or none kept; never asks for more than before, nor again for an order that has failed; bounds the failures; without failures makes `BlockCount` requests |
| PageAllocation.BlockCountStep | drivers/virtual_fastrpc/dsp/virtio_fastrpc_mem.c:63-86 | the top block leaves one fewer of `count / 2^MAX_ORDER + popcount(count mod 2^MAX_ORDER)` |
| PageAllocation.BlockCountIsLeast | drivers/virtual_fastrpc/dsp/virtio_fastrpc_mem.c:63-86 | no list of allowed orders adds up to `count` pages with fewer blocks than `BlockCount` |
| PageAllocation.PopCountTopBit | drivers/virtual_fastrpc/dsp/virtio_fastrpc_mem.c:63-71 | removing the highest bit removes one bit |
| PageAllocation.PageSource.FreePages | drivers/virtual_fastrpc/dsp/virtio_fastrpc_mem.c:34-39 | exactly the listed pages go back |
| BufferCache.BestFitIsBest | drivers/virtual_fastrpc/dsp/virtio_fastrpc_mem.c:882-887 | a hit is the first of the smallest buffers that fit, a miss means none fits |
| BufferCache.ScanCache | drivers/virtual_fastrpc/dsp/virtio_fastrpc_mem.c:882-887 | the scan over the cache |
| BufferCache.ScanHeaders | drivers/virtual_fastrpc/dsp/virtio_fastrpc_mem.c:921-930 | the scan over the persistent headers |
| BufferCache.AllocKeeps | drivers/virtual_fastrpc/dsp/virtio_fastrpc_mem.c:871-1002 | an allocation gives a buffer nobody has, large enough in whole pages |
| BufferCache.AllocSucceedsIff | drivers/virtual_fastrpc/dsp/virtio_fastrpc_mem.c:936-1002 | an allocation succeeds if and only if its size is valid and a header is free for it, a cached buffer fits or pages are to be had, and takes the first of the three: the lowest free header, the first smallest fit, a new buffer |
| BufferCache.FreeGivesBack | drivers/virtual_fastrpc/dsp/virtio_fastrpc_mem.c:826-869 | a released header is free again, a small buffer goes to the head of the cache below its limit, any other back to the system |
| BufferCache.HeaderRoundTrip | drivers/virtual_fastrpc/dsp/virtio_fastrpc_mem.c:902-934 | taking and releasing a header leaves the pool as it was (also lines 834-840) |
| BufferCache.CachedIsReused | drivers/virtual_fastrpc/dsp/virtio_fastrpc_mem.c:871-900 | a cached buffer serves the next request that it fits best |
| BufferCache.WholeIsRun | drivers/virtual_fastrpc/dsp/virtio_fastrpc_mem.c:936-1002 | an allocation that nothing overlaps is the run of its regions, and so is the end of a context |
| BufferCache.CachedServes | drivers/virtual_fastrpc/dsp/virtio_fastrpc_mem.c:871-900 | so does each region on its own: the cache, |
| BufferCache.HeaderServes | drivers/virtual_fastrpc/dsp/virtio_fastrpc_mem.c:902-934 | the persistent headers, |
| BufferCache.NewServes | drivers/virtual_fastrpc/dsp/virtio_fastrpc_mem.c:955-1002 | and a new buffer |
| BufferCache.FreeKeeps | drivers/virtual_fastrpc/dsp/virtio_fastrpc_mem.c:826-869 | a freed buffer moves to exactly one other place |
| BufferCache.FreeContextKeeps | drivers/virtual_fastrpc/dsp/hybrid_fastrpc_core.c:1403-1405 | both buffers of a context leave it once, also when they are one |
| BufferCache.NextKeeps | drivers/virtual_fastrpc/dsp/virtio_fastrpc_mem.c:826-1002 | every region under the lock keeps the invariant of the pool |
| BufferCache.CacheIsSound | drivers/virtual_fastrpc/dsp/virtio_fastrpc_mem.c:834-854 | after any run, also of allocations and releases that overlap, the counter is the cache length and at most 33, no buffer is cached twice or while in use, none is lost or released twice (also lines 882-896) |
| BufferCache.BufPool.BufAlloc | drivers/virtual_fastrpc/dsp/virtio_fastrpc_mem.c:936-1002 | in place, headers first, then the cache, then new pages |
| BufferCache.BufPool.GetPersistent | drivers/virtual_fastrpc/dsp/virtio_fastrpc_mem.c:902-934 | in place, the first unused header for metadata of at most a page |
| BufferCache.BufPool.GetCached | drivers/virtual_fastrpc/dsp/virtio_fastrpc_mem.c:871-900 | in place, the best fit of the cache, taken off it |
| BufferCache.BufPool.BufFree | drivers/virtual_fastrpc/dsp/virtio_fastrpc_mem.c:826-869 | in place, back to the headers, the cache or the system |
| BufferCache.BufPool.FreeContext | drivers/virtual_fastrpc/dsp/hybrid_fastrpc_core.c:1403-1405 | in place, the end of a context |
| DspSignals.NextKeeps | drivers/virtual_fastrpc/dsp/hybrid_fastrpc_core.c:2847-2894 | every step keeps the invariant of state, counter and waiters (also lines 2946-2957, 3000-3001, 3042-3045) |
| DspSignals.NoLostWakeup | drivers/virtual_fastrpc/dsp/hybrid_fastrpc_vdev.c:348-369 | in every interleaving the slot is unused, open or cancelled as the requests say; while it is open the signals since its creation are the completions to take plus the threads woken, so a waiter that cannot wake means that every signal has woken one; a signaled slot has a completion or a woken thread, and on an ended one every waiter can wake |
| DspSignals.WaiterIsReached | drivers/virtual_fastrpc/dsp/hybrid_fastrpc_vdev.c:352-357 | in every interleaving a signal to a slot in use marks it signaled and lets every waiting thread wake up, and so does its cancelling or destruction (also hybrid_fastrpc_core.c lines 3000-3001, 3042-3045) |
| DspSignals.RunBalances | drivers/virtual_fastrpc/dsp/hybrid_fastrpc_vdev.c:352-357 | signals, completions and wake-ups stay in balance over any run from any such state |
| DspSignals.WaitTakesOneSignal | drivers/virtual_fastrpc/dsp/hybrid_fastrpc_core.c:2866-2894 | a wait that is signaled succeeds and leaves the slot as it found it |
| DspSignals.GivingUpTakesNothing | drivers/virtual_fastrpc/dsp/hybrid_fastrpc_core.c:2870-2884 | a wait that times out leaves the slot as it found it |
| DspSignals.EndedWaiterWakesIff | drivers/virtual_fastrpc/dsp/hybrid_fastrpc_core.c:2866-2884 | a thread that waits when its slot ends can wake up as long as the slot is ended, whatever else runs; without a signal or a further end it cannot exactly when the slot was destroyed and created again (also lines 2946-2957, 3000-3001, 3042-3045) |
| DspSignals.SignalLetsWaiterThrough | drivers/virtual_fastrpc/dsp/hybrid_fastrpc_vdev.c:352-357 | on a signaled slot a waiter can wake, or one has |
| DspSignals.RecreateCanStrandWaiter | drivers/virtual_fastrpc/dsp/hybrid_fastrpc_core.c:2946-2957 | a run in which create after destroy puts a thread back to sleep |
| DspSignals.EndedWaiterIsToldIff | drivers/virtual_fastrpc/dsp/hybrid_fastrpc_core.c:2886-2894 | with anything running before its wake-up and between that and the second region of its wait, such a thread is told of the end if and only if the slot is ended as it leaves: always if nobody creates it again, and until it ends once more exactly if it was cancelled or not created again (also lines 2866-2884, 2946-2957, 3000-3001, 3042-3045) |
| DspSignals.WokenIsToldIff | drivers/virtual_fastrpc/dsp/hybrid_fastrpc_core.c:2886-2894 | a woken thread is told of the end exactly when the slot is ended as it leaves the wait |
| DspSignals.RecreateCanHideEnd | drivers/virtual_fastrpc/dsp/hybrid_fastrpc_core.c:2886-2894 | a run in which create comes between wake-up and exit: the wait of a destroyed slot succeeds although no signal came (also lines 2946-2957) |
| DspSignals.OverStaysIff | drivers/virtual_fastrpc/dsp/hybrid_fastrpc_core.c:2946-2957 | an ended slot opens again exactly when it was destroyed and is created |
| DspSignals.UnawaitedSignalStays | drivers/virtual_fastrpc/dsp/hybrid_fastrpc_core.c:2859-2866 | a signal nobody awaited stays until the slot ends, and every wait until then succeeds at once and takes nothing |
| DspSignals.Signal.Arrive | drivers/virtual_fastrpc/dsp/hybrid_fastrpc_vdev.c:346-369 | in place, the arrival of a remote signal |
| DspSignals.Signal.EnterWait | drivers/virtual_fastrpc/dsp/hybrid_fastrpc_core.c:2847-2868 | in place, the first region of a wait |
| DspSignals.Signal.LeaveWait | drivers/virtual_fastrpc/dsp/hybrid_fastrpc_core.c:2886-2894 | in place, the second region of a wait |
| DspSignals.Signal.Create | drivers/virtual_fastrpc/dsp/hybrid_fastrpc_core.c:2945-2959 | in place, creation with a fresh completion |
| DspSignals.Signal.CancelWait | drivers/virtual_fastrpc/dsp/hybrid_fastrpc_core.c:3026-3047 | in place, cancelling a wait |
| DspSignals.Signal.Destroy | drivers/virtual_fastrpc/dsp/hybrid_fastrpc_core.c:2984-3003 | in place, destruction |
| MessageTables.TakenIsOutside | drivers/virtual_fastrpc/dsp/virtio_fastrpc_queue.c:9-29 | the buffer taken is out of the queue and with nobody else |
| MessageTables.NextKeeps | drivers/virtual_fastrpc/dsp/fastrpc_common.c:107-165 | every step keeps slots, messages and buffers in agreement |
| MessageTables.BuffersHaveOnePlace | drivers/virtual_fastrpc/dsp/virtio_fastrpc_queue.c:16-28 | in every interleaving live message ids are distinct, a buffer is in one place, and the queue holds at most `num_bufs` (also lines 40-48) |
| MessageTables.TxBufIff | drivers/virtual_fastrpc/dsp/virtio_fastrpc_queue.c:9-29 | there is a buffer to take unless all have been handed out and the queue returns none |
| MessageTables.MessageGets | drivers/virtual_fastrpc/dsp/fastrpc_common.c:122-165 | a new message gets the lowest free slot and a buffer of its own; it fails exactly if either is missing, and then all is as before |
| MessageTables.SendGives | drivers/virtual_fastrpc/dsp/virtio_fastrpc_queue.c:31-51 | an accepted message puts its buffer at the end of the queue and keeps its slot; a refused one keeps both |
| MessageTables.ReleaseGives | drivers/virtual_fastrpc/dsp/fastrpc_common.c:107-120 | a released message gives back its own slot and nothing else changes |
| MessageTables.LostIff | drivers/virtual_fastrpc/dsp/fastrpc_common.c:107-120 | in every interleaving a transmit buffer is lost for good if and only if a message is released while it has the buffer and the queue has not accepted it |
| MessageTables.FailedCallTakesLastBuffer | drivers/virtual_fastrpc/dsp/fastrpc_common.c:107-120 | an instance: after one such release of the only buffer no message ever gets one |
| MessageTables.AllocSlot | drivers/virtual_fastrpc/dsp/fastrpc_common.c:139-153 | in place, the first free message slot |
| MessageTables.Messages.GetBuffer | drivers/virtual_fastrpc/dsp/virtio_fastrpc_queue.c:9-29 | in place, a buffer never handed out or a used one from the queue |
| MessageTables.Messages.Alloc | drivers/virtual_fastrpc/dsp/fastrpc_common.c:122-165 | in place, a slot and a buffer for a new message, or neither |
| MessageTables.Messages.Free | drivers/virtual_fastrpc/dsp/fastrpc_common.c:107-120 | in place, the slot is cleared only if it is the message's own |
| MessageTables.Messages.SendTx | drivers/virtual_fastrpc/dsp/virtio_fastrpc_queue.c:31-51 | in place, the buffer changes hands when the queue accepts it |
| BootMarkers.CharSum | drivers/boot_marker.c:185-195 | the backward loop computes the 32-bit character sum of every name but the empty one, on which it reads in front of the string |
| BootMarkers.FindAgreesWithList | drivers/boot_marker.c:197-208 | the hash lookup succeeds exactly when a search of the list does, with the same marker if names are unique |
| BootMarkers.CreateKeeps | drivers/boot_marker.c:210-249 | a placement that nothing overlaps keeps index, list, counter and limit in agreement, and names unique if the name fits |
| BootMarkers.UniqueIffShortenedIsNew | drivers/boot_marker.c:239-242 | a new marker keeps names unique if and only if its shortened name is not there yet |
| BootMarkers.LongNamesCollide | drivers/boot_marker.c:224-242 | two names of 40 characters that become two markers of one name, neither of which can be found |
| BootMarkers.DropMatchingKeeps | drivers/boot_marker.c:162-180 | destroying removes exactly the markers whose names contain the text, counts each of them down and keeps the index |
| BootMarkers.ContainsIff | drivers/boot_marker.c:170-171 | the text is found exactly in the names that have it between some front and back |
| BootMarkers.CreateDoes | drivers/boot_marker.c:210-249 | a placement that nothing overlaps stores the time in the listed marker of the name and in no other, or appends a marker with the shortened name and the time |
| BootMarkers.LinkKeeps | drivers/boot_marker.c:244-247 | the locked part of an insertion keeps the index in agreement with the list |
| BootMarkers.LinkUniqueIff | drivers/boot_marker.c:244-247 | it keeps names unique if and only if the name is not listed at that moment |
| BootRuns.NextKeeps | drivers/boot_marker.c:162-265 | every step of every operation keeps index and list in agreement and the counter right but for markers linked and not counted |
| BootRuns.RunKeeps | drivers/boot_marker.c:162-265 | so does every interleaving that the driver survives |
| BootRuns.IndexIsSound | drivers/boot_marker.c:162-265 | in every interleaving the lookup finds a name exactly when the list holds it, and the counter lags by the uncounted markers |
| BootRuns.DestroyTakesMatching | drivers/boot_marker.c:162-180 | in every interleaving destroying takes away exactly the markers whose names have the text; the others stay as they are, in order |
| BootRuns.CleanupEmpties | drivers/boot_marker.c:250-265 | cleanup empties the list |
| BootRuns.TouchStores | drivers/boot_marker.c:224-228 | a placement stores its time in the marker it has found and in no other |
| BootRuns.UniqueStepIff | drivers/boot_marker.c:217-248 | a step keeps names unique if and only if it does not link a marker under a listed name |
| BootRuns.LimitStepIff | drivers/boot_marker.c:217-248 | a step keeps the list within the limit if and only if it does not link a marker at the limit |
| BootRuns.GoodThroughoutIff | drivers/boot_marker.c:217-248 | names are unique and the list within its limit throughout a run if and only if every link happens below the limit and under a name not listed then |
| BootRuns.SerialRunIsGood | drivers/boot_marker.c:217-248 | if no two placements overlap and names fit, they are unique, lookup is list search and the limit holds throughout; destroying may overlap |
| BootRuns.LonePlacementIsCreate | drivers/boot_marker.c:210-249 | the steps of a placement that nothing overlaps make up the whole operation |
| BootRuns.OverlapDuplicates | drivers/boot_marker.c:217-248 | two overlapping placements of one new name make two markers of it |
| BootRuns.OverlapExceedsLimit | drivers/boot_marker.c:217-248 | two overlapping placements one below the limit exceed it |
| BootRuns.OverlapTouchesReleased | drivers/boot_marker.c:224-228 | a marker that a placement has found can be gone before its time is stored |
| BootReports.LineWidth | drivers/boot_marker.c:33-43 | a line has the width the buffer is sized for if and only if its seconds fit 8 digits (also lines 366-372) |
| BootReports.LineReadsBack | drivers/boot_marker.c:356-372 | name, seconds and milliseconds can be read back from a line's columns |
| BootReports.ReportShowsMarker | drivers/boot_marker.c:351-378 | the i-th 55 bytes of the report read back the i-th listed marker: its name padded with blanks, seconds and milliseconds |
| BootReports.ReportFitsIff | drivers/boot_marker.c:351-378 | the report and its terminator fit the buffer, so that nothing is clipped, if and only if the list is within the limit (also lines 41-42) |
| BootReports.ReadStopsIff | drivers/boot_marker.c:380-383 | a read returns nothing before the end exactly when it has no room beside the terminator |
| BootReports.StoredFitsIff | drivers/boot_marker.c:380-383 | what a read stores, with its terminator, fits the room it was given unless exactly the rest of the text does |
| BootReports.SessionDelivers | drivers/boot_marker.c:335-391 | sequential reads of two bytes or more deliver the snapshot of the first one, however the list changes, and drop it |
| BootReports.ReadsShowAllMarkersIff | drivers/boot_marker.c:335-391 | after any interleaving with 32-bit timers such reads deliver every marker's line if and only if the list is within its limit, which holds if no two placements overlap |
| BootReports.BootKpi.Find | drivers/boot_marker.c:197-208 | in place, the walk along one hash chain; strays exactly on the empty name |
| BootReports.BootKpi.Place | drivers/boot_marker.c:210-249 | in place, a placement that nothing overlaps; strays exactly on the empty name with room in the list |
| BootReports.BootKpi.Destroy | drivers/boot_marker.c:162-180 | in place, the removing loops (also lines 250-265) |
| BootReports.BootKpi.TakeSnapshot | drivers/boot_marker.c:351-378 | in place, the report clipped to the buffer, whose room never runs out before a line |
| BootReports.BootKpi.Read | drivers/boot_marker.c:335-391 | in place, one read at any offset and the life of the snapshot; strays exactly when the offset lies behind the text |

## Left out

- MapProtocol.ReachableIsSafe: says that nothing is released early or twice, not that everything is released; failed creations of KEEP_MAP maps and removals of KEEP_MAP maps with one reference leave records behind.
- Packing.CopyArgs: arguments with a mapping get their pages from the mapping; that part, the list of page indices in the metadata and the clearing of the buffers are not modelled.
- WireLayout.Fill: the bytes of a map descriptor are a parameter; the model fixes only their place and number.
- WireLayout.PutArgs: the checksums are left out; user memory does not change while it copies.
- WireLayout.FillHandles: the descriptor of a handle is placed and counted; the remaining fields of its message entry (its offset and length) are not modelled.
- The hybrid driver's put_args copies each unmapped output from the address that `Packing.CopyArgs` gave it; it is the loop of `WireLayout.PutArgs` without the walk and not modelled separately.
- BufferCache.CacheIsSound: the transport's own copy of the cache (virtio_fastrpc_mem.c:128-226) works alike and is not modelled separately.
- DspSignals.NoLostWakeup: one slot; the allocation of signal groups is the start of its life.
- MessageTables.BuffersHaveOnePlace: ownership only; a message id carries no generation, so which message a late answer belongs to is not decided by this code.
- Pointers between records (a context's array of maps, a slot's context) are addresses and job ids looked up in a map of live records; a stale pointer is then an id that is not there.
- MapProtocol.NextKeeps: the steps of get_args, put_args and the map requests are functions of the table; only the table's own operations and context_free are also methods in place.
- BootMarkers.CharSum: what lies in front of an empty name, and what becomes of the driver then.
- BootReports.BootKpi.Read: what a read behind the end of the text returns; the contract says only when it happens.
- The quota of active contexts: its counter is also lowered for contexts that were never counted, so it has no simple meaning.
- Process ids handed out to clients (fastrpc_common.c:14-43): a first-free scan like those of the slot tables.
- Client open and teardown, interrupted contexts, asynchronous job queues, remote heap buffers, persistent header creation.
- DMA buffers, device mappings, virtual mappings, rpmsg transport, cache maintenance and probing: calls into other code.
- Debug files, tracing, performance counters, checksums, timestamps, ioctl entry points and their compatibility wrappers.
- The remaining drivers of the repository: thin platform glue without state worth an invariant.
