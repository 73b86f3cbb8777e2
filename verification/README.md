# libevent 2.0.1-alpha core and jingxian helpers, modelled in Dafny

This project models the core of libevent 2.0.1-alpha and two small jingxian headers as
pure Dafny functions over immutable values, and proves properties of them.

- **Buffers** (`buffer.c`, `evbuffer-internal.h`).
  - An evbuffer is a list of chains with `total_len` and `previous_to_last`.
  - Modelled operations: chain allocation, freeing, pinning and realigning; `evbuffer_add`, `_prepend`, `_expand`, `_reserve_space` and `_commit_space`, `_add_reference`, `_drain`, `_remove`; moving whole buffers (`evbuffer_add_buffer`, `_prepend_buffer`, `_remove_buffer`); `evbuffer_pullup`; the byte scanners and `evbuffer_readln`; `evbuffer_search`; the callback list with freezing, deferral and reference counting.
  - Files: `chain.dfy`, `chain_list.dfy`, `evbuffer*.dfy`.
- **Event loop** (`event.c`, `select.c`).
  - An event base holds its inserted, active (one queue per priority), deferred and timer lists.
  - Modelled operations: `event_queue_insert` / `_remove`; `event_add`, `event_del` and `event_active`; `event_set`, `event_assign` and `event_new`; priorities; `event_pending`; `event_base_once`; `event_base_loopexit` and `event_base_loopbreak`; timeout computation, correction and processing; processing the active and deferred queues; `event_base_loop` itself.
  - The select backend: fd-set sizing, add, del and dispatch.
  - Files: `event_*.dfy`, `select_backend.dfy`.
- **Bufferevents** (`bufferevent.c`): enabling and disabling, read suspension by the watermark callback, timeouts, watermarks, and reference counting (`bufferevent.dfy`).
- **RPC** (`evrpc.c`, `evrpc.h`): hooks and their processing, pausing and resuming, registering RPCs, connection pools, scheduling requests, replies, and the hook meta data store (`evrpc.dfy`).
- **jingxian**:
  - `case_find` and every `replace_all` overload of `string/replace_functions.h` (`replace.dfy`);
  - the chain element and data buffer helpers of `buffer/buffer.h` (`databuffer.dfy`).

## Conventions

- **Values.** Structures are values. An operation returns the new structure together with
  the C function's result code. Pointers are ids or indices; a buffer's address is its `id` field.
- **Opaque inputs.** Callbacks, clocks, the kernel's readiness answers, allocation failures and
  HTTP transport results are inputs to the model:
  - `Tick` records carry the time and what `select` reported;
  - flags such as `allocOk` say whether a `malloc` succeeded;
  - `Callbacks` says which callbacks call `event_base_loopbreak`.
- **Derived state.** The queue bits of an event's `ev_flags` are derived from which lists hold
  the event, so they cannot disagree with the lists.
- **Counts.** `total_len` and the callback counters are unbounded naturals. The size reported
  to buffer callbacks is computed with explicit `size_t` wrap-around.
- **Header constants.** The `event2` public headers are not part of this model. The values of
  `EV_*`, `EVLIST_*`, `EVBUFFER_CB_ENABLED`, the `evbuffer_eol_style` codes and the RPC URI
  prefix follow libevent's public headers.
- **Corrected helpers.** Each defect under "## Findings" is modelled twice: as written, and
  corrected. The operations built on top of a defective helper use the corrected helper, and
  "## Left out" names each member that does. Those operations are evbuffer_expand,
  evbuffer_reserve_space, evbuffer_add (its as-written model included), evbuffer_add_reference,
  evbuffer_remove_buffer and evbuffer_readln. The corrected evbuffer_chain_insert is used by the
  chain-level steps of evbuffer_expand and evbuffer_add: ChainList.Expand, ChainList.AddPlace,
  ChainList.AddToLast and ChainList.AddSpill.
- **Spec and code disagree.** Where the documentation and the code disagree, the model
  follows the code. The cases:
  - `case_find`'s comment says an empty `what` gives npos, but the code finds it at the offset;
  - `replace_all`'s `casesensitive` flag is documented as "true = case sensitive", but the code
    folds case when it is true.

## Model

| member | source | states |
|---|---|---|
| Basics.SizeT | libevent-2.0.1-alpha/buffer.c:322-323 | `size_t` arithmetic as the callback code uses it: the result is below 2^64, equals an in-range value, and wraps a negative value once by 2^64 |
| Chain.Bits | libevent-2.0.1-alpha/evbuffer-internal.h:154-165 | the flag word of a chain uses only the seven defined bits, and it has a pinned bit exactly when the record is read- or write-pinned |
| Chain.FromBitsBits | libevent-2.0.1-alpha/evbuffer-internal.h:154-165 | decoding the flag word of a flag record gives back the same record |
| Chain.AllocSize | libevent-2.0.1-alpha/buffer.c:146-149 | the doubling loop yields a size at least the need and at least the start value, and less than twice the need unless no doubling happened |
| Chain.New | libevent-2.0.1-alpha/buffer.c:138-165 | a new chain is empty, unaligned, has no flags, fits, has room for the requested size, is at least MIN_BUFFER_SIZE with its header, and is less than twice the request plus header unless it is the minimum |
| Chain.Free | libevent-2.0.1-alpha/buffer.c:167-208 | freeing marks a chain dangling exactly when it is pinned, keeping its bytes; otherwise the chain is released through its own backing; a freed chain is never live |
| Chain.Pin | libevent-2.0.1-alpha/buffer.c:233-238 | pinning sets the asked pin and changes nothing else: bytes, layout, backing, immutability and dangling state are kept |
| Chain.Unpin | libevent-2.0.1-alpha/buffer.c:240-247 | unpinning a live chain clears the pin and keeps the bytes; the chain is released exactly when it was dangling and no other pin remains, through its backing |
| Chain.PinUnpin | libevent-2.0.1-alpha/buffer.c:233-247 | pin followed by unpin of the same kind gives back the live chain unchanged |
| Chain.DanglingReleasedByLastUnpin | libevent-2.0.1-alpha/buffer.c:167-171 | a chain freed while pinned both ways stays dangling after the first unpin and is released by the second |
| Chain.Align | libevent-2.0.1-alpha/buffer.c:1265-1272 | realigning keeps the bytes and flags, makes the misalignment zero and adds the old misalignment to the free space |
| Chain.BytesAppend | libevent-2.0.1-alpha/buffer.c:525-545 | the bytes of two joined chain lists are the bytes of the first followed by those of the second |
| Chain.BytesSplit | libevent-2.0.1-alpha/buffer.c:525-545 | cutting a chain list anywhere cuts its bytes at the matching place |
| ChainList.SumOffIsLength | libevent-2.0.1-alpha/test/regress_buffer.c:62-94 | the regression tests' sum of the chains' `off` is the length of the bytes the list spells out, so `total_len` is right exactly when it equals that sum |
| ChainList.ReplaceLast | libevent-2.0.1-alpha/buffer.c:1138-1158 | swapping the last chain for one that extends its bytes keeps the list valid, appends exactly the extension, and leaves every other chain and previous_to_last in place |
| ChainList.Insert | libevent-2.0.1-alpha/buffer.c:210-231 | inserting a chain keeps the list valid and appends its bytes; it becomes the last chain; the old last chain stays unless it was empty and unpinned, in which case it is dropped |
| ChainList.InsertAsWritten | libevent-2.0.1-alpha/buffer.c:210-231 | the code as written fails (writes through a NULL previous_to_last) exactly when the only chain is empty and unpinned, and otherwise agrees with Insert |
| ChainList.Expand | libevent-2.0.1-alpha/buffer.c:1276-1338 | expanding keeps the list valid and its bytes unchanged, and leaves a mutable, unpinned last chain with at least `n` bytes of room |
| ChainList.ExpandWithoutAlloc | libevent-2.0.1-alpha/buffer.c:1288-1313 | when a mutable, unpinned last chain already has room, or gets it by realigning, expanding keeps every chain and the last chain's bytes and buffer: nothing is allocated |
| ChainList.AddPlace | libevent-2.0.1-alpha/buffer.c:1128-1187 | the chain work of evbuffer_add keeps the list valid and appends exactly the given bytes; the count it reports is at most the number of bytes |
| ChainList.AddToLast | libevent-2.0.1-alpha/buffer.c:1138-1187 | with a last chain present, filling it, realigning it or spilling into a new chain appends exactly the given bytes and keeps the list valid |
| ChainList.Counted | libevent-2.0.1-alpha/buffer.c:1138-1180 | the count evbuffer_add adds to n_add_for_cb is at most the byte count, and when it is less it is exactly the room left in the old last chain (none in an immutable one) |
| ChainList.AlignFill | libevent-2.0.1-alpha/buffer.c:1149-1158 | realigning a mutable, unpinned last chain whose misalignment covers the bytes and writing them there appends them and keeps the list valid |
| ChainList.AddSpill | libevent-2.0.1-alpha/buffer.c:1164-1187 | filling the old last chain's room and putting the rest into a new chain appends all the bytes, in order, and keeps the list valid |
| ChainList.FillLast | libevent-2.0.1-alpha/buffer.c:1174-1180 | copying bytes into the room of a mutable last chain appends them and keeps the list valid |
| ChainList.NewHolding | libevent-2.0.1-alpha/buffer.c:1170-1186 | the chain evbuffer_add allocates holds exactly the remaining bytes, fits, and is neither pinned nor immutable |
| ChainList.ReplaceFirst | libevent-2.0.1-alpha/buffer.c:1219-1238 | swapping the first chain for one whose bytes are new bytes followed by its own prepends exactly those bytes and leaves the other chains in place |
| ChainList.PushFront | libevent-2.0.1-alpha/buffer.c:1241-1253 | linking a chain in front prepends exactly its bytes, keeps the list valid (previous_to_last included) and keeps the old chains behind it |
| ChainList.PrependSeed | libevent-2.0.1-alpha/buffer.c:1211-1216 | an empty buffer prepared for prepending holds one empty mutable chain whose misalignment covers the request |
| ChainList.PrependSeedIsExpand | libevent-2.0.1-alpha/buffer.c:1211-1216 | that chain is the one evbuffer_expand inserts into an empty list, with its misalignment set to its whole length |
| ChainList.PrependPlace | libevent-2.0.1-alpha/buffer.c:1209-1253 | the chain work of evbuffer_prepend keeps the list valid and prepends exactly the given bytes; an immutable first chain is left untouched behind one new chain |
| ChainList.PrependFill | libevent-2.0.1-alpha/buffer.c:1219-1243 | the bytes evbuffer_prepend writes into the first chain's misalignment before it needs a new chain are the tail of the data, fewer than all of it; they go in front, the other chains stay, and an immutable first chain takes none |
| ChainList.DrainWalk | libevent-2.0.1-alpha/buffer.c:654-661 | the drain loop stops inside the list; it either breaks on a read-pinned chain where the count reaches zero exactly, or stops inside a chain with the covered chains' bytes plus the rest equal to the count |
| ChainList.RemoveWalk | libevent-2.0.1-alpha/buffer.c:707-715 | the remove loop passes whole chains whose bytes plus the rest make up the count; a non-zero rest lies strictly inside the next chain |
| ChainList.DropFront | libevent-2.0.1-alpha/buffer.c:663-667 | cutting the covered chains and trimming the next one from the front keeps the list valid (previous_to_last included) and leaves the trimmed bytes followed by the later chains |
| ChainList.DropWhole | libevent-2.0.1-alpha/buffer.c:717-721 | dropping whole front chains keeps the list valid and leaves exactly the later chains |
| ChainList.DrainChains | libevent-2.0.1-alpha/buffer.c:639-668 | draining `len` bytes keeps the list valid and leaves exactly the bytes after the first `len`; a read-pinned last chain survives with its flags |
| ChainList.DrainAt | libevent-2.0.1-alpha/buffer.c:654-667 | once the drain loop stopped, the list keeps the chain it stopped on (trimmed, or emptied in place when read-pinned) and the later chains, holding exactly the bytes after the count |
| ChainList.DrainChainsAsWritten | libevent-2.0.1-alpha/buffer.c:639-670 | the code as written lowers total_len by the count and adds at most the count to n_del_for_cb; draining everything from a list whose last chain is not read-pinned leaves no chain and counts it all; otherwise the chains from where the loop stopped remain, a break on a read-pinned chain keeps that chain's bytes whole and counts 0, and any other stop leaves exactly the bytes after the count and counts the count less the bytes of the chains freed |
| ChainList.RemoveChains | libevent-2.0.1-alpha/buffer.c:705-729 | removing `len` bytes copies out exactly the first `len` bytes and leaves the list valid holding exactly the rest |
| ChainList.TransferWalk | libevent-2.0.1-alpha/buffer.c:777-783 | the remove_buffer loop passes every chain the count covers (empty ones too) and stops strictly inside a chain, with passed bytes plus rest equal to the count |
| ChainList.ReplaceAt | libevent-2.0.1-alpha/buffer.c:805-807 | putting a chain in place of chain `k` keeps the list valid and replaces just that chain's bytes |
| ChainList.InsertNullDeref | libevent-2.0.1-alpha/buffer.c:218-222 | on a list holding one empty, unpinned chain the code as written writes through the NULL previous_to_last, where the corrected insert leaves just the new chain |
| ChainList.DrainPinnedKeepsBytes | libevent-2.0.1-alpha/buffer.c:652-667 | draining both bytes of a sole read-pinned chain leaves them in the chain while total_len becomes 0, so the list no longer adds up; the corrected drain leaves no bytes |
| ChainList.DrainCountsResidual | libevent-2.0.1-alpha/buffer.c:654-670 | draining two bytes from chains of one and two bytes adds 1, not 2, to n_del_for_cb |
| ChainList.AddCountsNothing | libevent-2.0.1-alpha/buffer.c:1164-1187 | adding one byte after a full chain appends it in a new chain but counts 0 bytes for the callbacks |
| EvBuffer.New | libevent-2.0.1-alpha/buffer.c:249-260 | a new buffer is valid and empty, holds one reference, has no callbacks, no counts and no freezes |
| EvBuffer.Length | libevent-2.0.1-alpha/buffer.c:428-440 | the length reported is the number of bytes the chains hold |
| EvBuffer.ContiguousSpace | libevent-2.0.1-alpha/buffer.c:442-454 | the contiguous space is at most the length, and the bytes it covers are exactly the first chain's (none without chains) |
| EvBuffer.CallsAllOrNone | libevent-2.0.1-alpha/buffer.c:333-347 | one callback run calls nothing when every entry is disabled, and calls every entry once, in list order, in its own form when every entry is enabled |
| EvBuffer.OrigSize | libevent-2.0.1-alpha/buffer.c:322-326 | the size before the counted changes is total + deleted - added when that is in range, and wraps by 2^64 when the counters overstate the additions |
| EvBuffer.RunCallbacks | libevent-2.0.1-alpha/buffer.c:306-348 | a run resets both counters and changes nothing else but the invocations; with no callbacks or nothing counted nothing is called; otherwise every enabled entry is told the old size, the counts and the new size |
| EvBuffer.Invoke | libevent-2.0.1-alpha/buffer.c:350-361 | a deferred buffer with a run already queued is left alone; otherwise it queues one run and takes a reference; any other buffer runs its callbacks now; the bytes, freezes and callback list never change |
| EvBuffer.Commit | libevent-2.0.1-alpha/buffer.c:1145-1190 | installing a new chain list, counting its change and invoking the callbacks reports exactly that change, and keeps the buffer valid when the list is valid |
| EvBuffer.InvokeAfterReports | libevent-2.0.1-alpha/buffer.c:350-361 | once a change has been reported, invoking the callbacks again changes nothing |
| EvBuffer.ReportsSplit | libevent-2.0.1-alpha/buffer.c:799-815 | counting part of a change by hand and having the rest reported by an operation is the same as reporting all of it, and a further invoke changes nothing |
| EvBuffer.Expand | libevent-2.0.1-alpha/buffer.c:1276-1338 | evbuffer_expand returns -1, without change, exactly when it must allocate a chain (no last chain, an immutable or pinned one, or one too small even after realigning) and the allocation fails; otherwise 0, the bytes and every other field kept and room for `n` bytes in a writable last chain |
| EvBuffer.ReserveSpace | libevent-2.0.1-alpha/buffer.c:456-478 | reserving gives NULL without change exactly when the end is frozen or the expansion must allocate and fails; the bytes always stay; a reservation is the last chain, which has room for the request |
| EvBuffer.ReserveLeavesOneEmpty | libevent-2.0.1-alpha/buffer.c:456-478 | reserving ten bytes in a new buffer leaves exactly one empty chain with room for them, the state the insert finding starts from |
| EvBuffer.CommitSpace | libevent-2.0.1-alpha/buffer.c:480-506 | committing succeeds exactly when the end is not frozen and the last chain has room for the bytes; on failure nothing changes; on success the bytes are appended and reported as added |
| EvBuffer.ReserveThenCommit | libevent-2.0.1-alpha/buffer.c:456-506 | reserving room for some bytes and committing them succeeds and appends exactly those bytes |
| EvBuffer.Add | libevent-2.0.1-alpha/buffer.c:1114-1195 | adding gives -1 without change on a frozen end, or when a chain must be allocated (none yet, or the bytes spill past the last chain) and the allocation fails; otherwise 0, exactly the bytes appended and all of them reported as added |
| EvBuffer.AddIntoRoom | libevent-2.0.1-alpha/buffer.c:1138-1162 | bytes that fit in a mutable last chain are added without allocating, so the outcome does not depend on the allocator |
| EvBuffer.AddAsWritten | libevent-2.0.1-alpha/buffer.c:1114-1195 | the code as written, apart from the insert (it uses the corrected evbuffer_chain_insert): it fails in the same cases and appends the same bytes as Add, but reports only the count the old last chain took when a new chain is needed |
| EvBuffer.EmptyReferenceThenAdd | libevent-2.0.1-alpha/buffer.c:210-231 | add_reference of no bytes on an empty buffer leaves one empty, unpinned chain; on that list every insert as written writes through the NULL previous_to_last, while Add of one byte succeeds and the buffer holds exactly that byte |
| EvBuffer.ReferenceChunk | libevent-2.0.1-alpha/buffer.c:1988-1999 | the chain add_reference builds is an immutable, unpinned reference chain holding exactly the caller's bytes |
| EvBuffer.AddReference | libevent-2.0.1-alpha/buffer.c:1982-2020 | adding a reference gives -1 without change when the reference chain cannot be allocated or the end is frozen; otherwise it appends the bytes as a final reference chain and reports them as added |
| EvBuffer.Prepend | libevent-2.0.1-alpha/buffer.c:1197-1262 | prepending gives -1 without change on a frozen start; when no chain must be allocated, or the allocation works, it gives 0, puts exactly the bytes in front and reports the count the source computes, keeping an immutable first chain behind one new chain; when the allocation fails it gives -1 with the tail of the bytes that fit the first chain's misalignment already in front and counted |
| EvBuffer.Drain | libevent-2.0.1-alpha/buffer.c:620-677 | draining an empty buffer returns 0 without change, a frozen start returns -1 without change; otherwise the first min(n, length) bytes go and are reported as deleted, and a read-pinned last chain stays with its flags |
| EvBuffer.DrainAsWritten | libevent-2.0.1-alpha/buffer.c:639-672 | the code as written lowers total_len by min(n, length) but reports only the count left over for the last chain reached |
| EvBuffer.Remove | libevent-2.0.1-alpha/buffer.c:681-739 | removing nothing returns 0 without change and a frozen start -1 without change; otherwise exactly the first min(n, length) bytes are returned and gone, with that count reported as deleted |
| EvBuffer.AddThenRemove | libevent-2.0.1-alpha/buffer.c:681-739 | removing everything after an add returns the old contents followed by the added bytes |
| EvBuffer.PrependThenRemove | libevent-2.0.1-alpha/buffer.c:1197-1262 | removing as many bytes as were prepended returns exactly them and leaves the old contents |
| EvBuffer.DrainAgreesWithRemove | libevent-2.0.1-alpha/buffer.c:620-739 | draining and removing the same count leave the same bytes; drain returns 0 and remove the count it took |
| EvBufferTransfer.AppendChains | libevent-2.0.1-alpha/buffer.c:525-535 | linking a list after another keeps the chains in order and the result valid, previous_to_last included, and its bytes are the first list's followed by the second's |
| EvBufferTransfer.PrependChains | libevent-2.0.1-alpha/buffer.c:537-545 | linking a list in front of another keeps the chains in order and the result valid, and its bytes are the second list's followed by the first's |
| EvBufferTransfer.AddBuffer | libevent-2.0.1-alpha/buffer.c:546-581 | an empty source or the same buffer gives 0 without change; a frozen destination end or source start gives -1 without change; otherwise the destination gains all the source's bytes at its end, the source is emptied, and both report the moved count |
| EvBufferTransfer.PrependBuffer | libevent-2.0.1-alpha/buffer.c:583-618 | the same cases for prepending, with a frozen start of either buffer giving -1; on success the destination holds the source's bytes followed by its own |
| EvBufferTransfer.MoveFront | libevent-2.0.1-alpha/buffer.c:785-801 | relinking the first `k` chains of the source to the destination keeps both lists valid and moves exactly those chains' bytes |
| EvBufferTransfer.MoveFrontAsWritten | libevent-2.0.1-alpha/buffer.c:785-801 | the code as written moves the same chains and sets previous_to_last to the first chain moved, which agrees with MoveFront when two or more chains move |
| EvBufferTransfer.MoveOneChainBreaksInvariant | libevent-2.0.1-alpha/buffer.c:785-801 | when exactly one chain moves, the destination's previous_to_last points at its own last chain, so the list is no longer valid |
| EvBufferTransfer.PartialSrc | libevent-2.0.1-alpha/buffer.c:777-811 | after taking `n` bytes, fewer than it holds, the source list stays valid and holds exactly its bytes after the first `n` |
| EvBufferTransfer.PartialDst | libevent-2.0.1-alpha/buffer.c:785-807 | the bytes relinked plus the bytes left to copy are exactly the source's first `n`, in order, and the destination list stays valid |
| EvBufferTransfer.RemovePartialDst | libevent-2.0.1-alpha/buffer.c:785-815 | the destination ends up valid, holding its bytes followed by the source's first `n` and reporting `n` added; when the copy of the rest into it needs a chain and the allocation fails, it holds and reports only the bytes of the relinked chains |
| EvBufferTransfer.CopyRest | libevent-2.0.1-alpha/buffer.c:805-815 | the copy of the bytes left over into the destination either adds them all or, when its allocation fails, none, and the destination reports what it really gained |
| EvBufferTransfer.RemoveBuffer | libevent-2.0.1-alpha/buffer.c:743-822 | a zero count or the same buffer gives 0 without change; a frozen destination end or source start gives -1 without change; asking for all is evbuffer_add_buffer; otherwise min(n, length) bytes leave the source's front and that count is returned, and the destination gains them all unless the copy's allocation failed, when it gains only the relinked chains' bytes |
| EvBufferTransfer.RemoveBufferLosesByte | libevent-2.0.1-alpha/buffer.c:785-822 | because evbuffer_add's result is ignored, moving one byte of a two-byte chain into an empty buffer whose allocation fails takes the byte from the source, leaves the destination empty, and still returns 1 |
| EvBufferCbs.IndexOf | libevent-2.0.1-alpha/buffer.c:2193-2202 | the index found is the first entry with the handle, and none is found exactly when no entry has it |
| EvBufferCbs.AddCb | libevent-2.0.1-alpha/buffer.c:2178-2191 | a failed allocation gives NULL without change; otherwise a new enabled entry with a handle no other entry has goes to the head of the list and nothing but the list and the handle counter changes |
| EvBufferCbs.RemoveCbEntry | libevent-2.0.1-alpha/buffer.c:2193-2202 | unlinking an entry returns 0, drops exactly the entry with that handle, keeps every other entry and changes nothing else |
| EvBufferCbs.WithoutEntry | libevent-2.0.1-alpha/buffer.c:2193-2202 | with distinct handles, dropping one entry removes its handle and keeps every other entry |
| EvBufferCbs.FirstWith | libevent-2.0.1-alpha/buffer.c:2208-2213 | the search finds the first entry with the function and argument, and finds none exactly when there is none |
| EvBufferCbs.RemoveCb | libevent-2.0.1-alpha/buffer.c:2204-2219 | -1 without change exactly when no entry has the function and argument; otherwise 0 and the first such entry, in list order, is removed |
| EvBufferCbs.CbSetFlags | libevent-2.0.1-alpha/buffer.c:2221-2229 | the entry with the handle gets the user flags asked for and keeps its internal flags (plus any asked); every other entry and field is unchanged |
| EvBufferCbs.SetCb | libevent-2.0.1-alpha/buffer.c:2161-2176 | all entries are dropped; a non-NULL callback then becomes the only entry, enabled and of the old style |
| EvBufferCbs.Freeze | libevent-2.0.1-alpha/buffer.c:2231-2241 | freezing sets exactly the asked end's freeze flag and returns 0 |
| EvBufferCbs.Unfreeze | libevent-2.0.1-alpha/buffer.c:2243-2253 | unfreezing clears exactly the asked end's freeze flag and returns 0 |
| EvBufferCbs.IncRef | libevent-2.0.1-alpha/buffer.c:262-268 | taking a reference raises the count by one and changes nothing else |
| EvBufferCbs.DecRef | libevent-2.0.1-alpha/buffer.c:384-414 | dropping the last reference destroys the buffer; otherwise the count falls by one and nothing else changes |
| EvBufferCbs.FreeChains | libevent-2.0.1-alpha/buffer.c:395-398 | destroying a buffer frees every chain; exactly the pinned ones are left dangling |
| EvBufferCbs.DeferCallbacks | libevent-2.0.1-alpha/buffer.c:270-280 | deferring sets the buffer to run its callbacks from the loop, with no run queued, and returns 0 |
| EvBufferCbs.DeferredCallback | libevent-2.0.1-alpha/buffer.c:363-371 | the loop's run dequeues the entry, runs the callbacks (resetting the counts) and drops the reference the scheduling took, destroying the buffer when it was the last |
| EvBufferCbs.AddThenRemoveEntry | libevent-2.0.1-alpha/buffer.c:2178-2202 | the handle evbuffer_add_cb returns finds the new entry first, and removing it gives the old list back |
| EvBufferCbs.AddThenRemoveCb | libevent-2.0.1-alpha/buffer.c:2178-2219 | removing by function and argument right after adding them removes the new entry and gives the old list back |
| EvBufferCbs.NewestFirst | libevent-2.0.1-alpha/buffer.c:2186-2188 | two callbacks added in turn are called newest first |
| EvBufferCbs.FreezeBlocks | libevent-2.0.1-alpha/buffer.c:1124-1127 | a frozen end refuses appends but allows prepends; a frozen start refuses prepends and drains but allows appends |
| EvBufferCbs.FreezeUnfreeze | libevent-2.0.1-alpha/buffer.c:2231-2253 | unfreezing an end right after freezing it gives the buffer back |
| EvBufferCbs.DeferredRunBalances | libevent-2.0.1-alpha/buffer.c:350-371 | an invoke that schedules a run and the loop's run of it together amount to running the callbacks, with the reference count unchanged |
| EvBufferPullup.PinCheck | libevent-2.0.1-alpha/buffer.c:851-858 | the pin check passes exactly when no chain starting before the wanted count is pinned |
| EvBufferPullup.CopyWalk | libevent-2.0.1-alpha/buffer.c:891-900 | the copy loop passes chains whose bytes plus the rest make up the count, and stops strictly inside a chain or at the end of the list |
| EvBufferPullup.Target | libevent-2.0.1-alpha/buffer.c:860-889 | the chain that receives the bytes is mutable, live and has room for them after its misalignment; it is a new chain exactly when the first chain is unpinned and too small |
| EvBufferPullup.Gather | libevent-2.0.1-alpha/buffer.c:860-914 | gathering keeps the list valid and its bytes unchanged, and leaves the first `size` bytes in the first chain |
| EvBufferPullup.Pullup | libevent-2.0.1-alpha/buffer.c:824-921 | a size of 0, another negative than -1 or beyond the length gives NULL without change; otherwise NULL exactly when the first chain is short and either a pinned chain is in the way or the new first chain is needed and cannot be allocated; on success the bytes are unchanged and the first chain starts with the first `size` bytes, which are returned |
| EvBufferPullup.PullupTwice | libevent-2.0.1-alpha/buffer.c:845-848 | a second pull-up of the same size changes nothing and returns the same bytes, whatever the allocator does |
| EvBufferScan.ByteAt | libevent-2.0.1-alpha/buffer.c:938-957 | an iterator's chain and offset name the contents' byte at its position |
| EvBufferScan.StrPbrk | libevent-2.0.1-alpha/buffer.c:959-981 | the scan either finds no byte of the set from the iterator on, or moves the iterator onto the first such byte and counts exactly the bytes passed |
| EvBufferScan.StrChr | libevent-2.0.1-alpha/buffer.c:938-957 | the scan either finds no copy of the byte from the iterator on, or moves the iterator onto the first one and counts exactly the bytes passed |
| EvBufferScan.StrSpn | libevent-2.0.1-alpha/buffer.c:983-1005 | the count is the length of the longest run of set bytes starting at the iterator: every byte in it is in the set and the byte after it, if any, is not |
| EvBufferScan.GetChr | libevent-2.0.1-alpha/buffer.c:1007-1026 | a byte is returned exactly when the position lies inside the contents, and it is the byte there, with the iterator normalised onto its chain |
| EvBufferScan.StrictScan | libevent-2.0.1-alpha/buffer.c:1060-1072 | the CRLF_STRICT loop finds the first CR LF pair at or after its start, or reports that there is none |
| EvBufferScan.AfterCr | libevent-2.0.1-alpha/buffer.c:1062-1069 | after a CR is found, the loop finds the first CR LF pair from that CR on, or reports that there is none |
| EvBufferScan.NoCrNoPair | libevent-2.0.1-alpha/buffer.c:1060 | no CR LF pair starts where there is no CR |
| EvBufferScan.FindAny | libevent-2.0.1-alpha/buffer.c:1050-1057 | the ANY terminator is found exactly when a CR or LF is stored, and it is the first one with the whole CR/LF run after it |
| EvBufferScan.FindLf | libevent-2.0.1-alpha/buffer.c:1076-1083 | the LF terminator is found exactly when an LF is stored, and it is the first LF |
| EvBufferScan.FindCrLf | libevent-2.0.1-alpha/buffer.c:1058-1075 | the CRLF_STRICT terminator is found exactly when a CR LF pair is stored, and it is the first pair |
| EvBufferScan.Consume | libevent-2.0.1-alpha/buffer.c:1094-1100 | removing the line and draining its terminator returns exactly the first `n` bytes and leaves the bytes after the terminator |
| EvBufferScan.LfLineAt | libevent-2.0.1-alpha/buffer.c:1076-1083 | the first LF splits the contents into the LF-style line and the rest |
| EvBufferScan.AnyLineAt | libevent-2.0.1-alpha/buffer.c:1050-1057 | the first CR or LF and its run split the contents into the ANY-style line and the rest |
| EvBufferScan.StrictLineAt | libevent-2.0.1-alpha/buffer.c:1058-1075 | the first CR LF pair splits the contents into the CRLF_STRICT-style line and the rest |
| EvBufferScan.ReadAny | libevent-2.0.1-alpha/buffer.c:1050-1057 | EVBUFFER_EOL_ANY returns nothing, without change, exactly when no CR or LF is stored; otherwise the line before the first one, with the whole CR/LF run gone from the buffer |
| EvBufferScan.ReadLf | libevent-2.0.1-alpha/buffer.c:1076-1083 | EVBUFFER_EOL_LF returns nothing, without change, exactly when no LF is stored; otherwise the line before the first LF, with the LF gone |
| EvBufferScan.ReadCrLf | libevent-2.0.1-alpha/buffer.c:1076-1097 | EVBUFFER_EOL_CRLF is LF, except that one CR right before the LF is not part of the line |
| EvBufferScan.ReadStrict | libevent-2.0.1-alpha/buffer.c:1058-1075 | EVBUFFER_EOL_CRLF_STRICT returns nothing, without change, exactly when no CR LF pair is stored; otherwise the line before the first pair, with the pair gone |
| EvBufferScan.AnyLineUnique | libevent-2.0.1-alpha/buffer.c:1050-1057 | the ANY reading of a byte string is unique, so the line and the rest are determined by the contents |
| EvBufferScan.LfFirst | libevent-2.0.1-alpha/buffer.c:1079 | no LF precedes the one that ends the LF-style line |
| EvBufferScan.LfLineUnique | libevent-2.0.1-alpha/buffer.c:1076-1083 | the LF reading of a byte string is unique |
| EvBufferScan.StrictLineUnique | libevent-2.0.1-alpha/buffer.c:1058-1075 | the CRLF_STRICT reading of a byte string is unique |
| EvBufferScan.ReadLine | libevent-2.0.1-alpha/buffer.c:1028-1108 | a frozen front or an unknown style returns NULL without change; for each style, NULL without change exactly when no terminator is stored, otherwise the line that style defines, with the line and its terminator gone, leaving a strictly shorter tail |
| EvBufferScan.ReadLn | libevent-2.0.1-alpha/buffer.c:1087-1092 | when the line cannot be copied, NULL comes back but the line and its terminator are drained all the same; the buffer ends as a successful read leaves it |
| EvBufferScan.ReadLnLosesLine | libevent-2.0.1-alpha/buffer.c:1087-1100 | a read whose copy fails returns nothing, leaves the same bytes as a successful read, and loses a line exactly when the successful read would return one |
| EvBufferSearch.Walk | libevent-2.0.1-alpha/buffer.c:1802-1813 | the pointer walk finds a chain exactly when the target byte exists, and then names that byte |
| EvBufferSearch.PtrSet | libevent-2.0.1-alpha/buffer.c:1778-1818 | PTR_SET succeeds exactly when the position is inside the contents and PTR_ADD exactly when the moved position is; success gives 0 and a pointer to that byte; failure gives -1 and an unset pointer whose offset in its chain is left as it was, as does adding to an unset one |
| EvBufferSearch.MemCmp | libevent-2.0.1-alpha/buffer.c:1845-1848 | the comparison is 0 exactly when the two strings are equal, and otherwise -1 or 1 |
| EvBufferSearch.CompareWalk | libevent-2.0.1-alpha/buffer.c:1837-1855 | comparing chain by chain gives 0 exactly when the bytes from the pointer equal the pattern |
| EvBufferSearch.CompareSplit | libevent-2.0.1-alpha/buffer.c:1841-1852 | a comparison at a pointer splits into the part inside its chain and the rest from the next chain |
| EvBufferSearch.PtrMemcmp | libevent-2.0.1-alpha/buffer.c:1824-1856 | -1 when too few bytes follow the pointer; otherwise 0 exactly when the pattern occurs at the pointer |
| EvBufferSearch.MemChr | libevent-2.0.1-alpha/buffer.c:1886-1887 | memchr finds the first copy of the byte from the start on, or reports that there is none |
| EvBufferSearch.NoStartIn | libevent-2.0.1-alpha/buffer.c:1886-1903 | no match starts where the pattern's first byte is not |
| EvBufferSearch.SearchWalk | libevent-2.0.1-alpha/buffer.c:1882-1907 | from a position, the loop finds the first match at or after it, across chains, or leaves the pointer unset exactly when there is none |
| EvBufferSearch.SearchAt | libevent-2.0.1-alpha/buffer.c:1888-1898 | once the first byte is found, comparing there and else stepping on finds the first match from that point, or none |
| EvBufferSearch.Search | libevent-2.0.1-alpha/buffer.c:1858-1911 | an empty pattern returns the start; otherwise the result is the first occurrence at or after the start, or unset exactly when there is none; an unset start gives an unset result |
| EvBufferSearch.PullupMatch | libevent-2.0.1-alpha/buffer.c:1770-1772 | pulling up to the end of a match either changes nothing (a pinned chain or a failed allocation) or keeps the bytes and leaves the match in the first chain at its offset |
| EvBufferSearch.Find | libevent-2.0.1-alpha/buffer.c:1758-1776 | evbuffer_find returns the offset of the first match, which then lies in the first chain, with the bytes unchanged; no match, or a refused pull-up, gives NULL without change |
| EvBufferSearch.PointsAtUnique | libevent-2.0.1-alpha/buffer.c:1807-1809 | two pointers to the same byte are the same pointer |
| EvBufferSearch.SearchFromMatch | libevent-2.0.1-alpha/buffer.c:1868-1892 | searching again from a match finds that same match |
| EventBase.Without | libevent-2.0.1-alpha/event.c:1484-1510 | taking an event off a list shortens it by one when it was there, keeps every other member, and changes nothing otherwise |
| EventBase.SumUpdate | libevent-2.0.1-alpha/event.c:1499-1502 | replacing one priority's active queue changes both totals over all queues by that queue's difference |
| EventBase.NewBase | libevent-2.0.1-alpha/event.c:238-313 | a new base satisfies the invariant, has one priority and counts no events and no active work |
| EventBase.IdleBase | libevent-2.0.1-alpha/event.c:863-868 | when event_count_active is 0 every active queue and the deferred queue are empty, so no event is active |
| EventQueue.AddInserted | libevent-2.0.1-alpha/event.c:1524-1531 | inserting into EVLIST_INSERTED appends the event, counts it unless it is internal, and changes no other list |
| EventQueue.AddTimer | libevent-2.0.1-alpha/event.c:1524-1539 | inserting into EVLIST_TIMEOUT puts the event on the heap, counts it unless internal, and changes no other list |
| EventQueue.AddActive | libevent-2.0.1-alpha/event.c:1524-1536 | inserting into EVLIST_ACTIVE appends the event to its priority's queue and raises event_count_active by one |
| EventQueue.DropInserted | libevent-2.0.1-alpha/event.c:1491-1498 | removing from EVLIST_INSERTED drops the event, uncounts it unless internal, and changes no other list |
| EventQueue.DropTimer | libevent-2.0.1-alpha/event.c:1491-1506 | removing from EVLIST_TIMEOUT takes the event off the heap and changes no other list |
| EventQueue.DropActive | libevent-2.0.1-alpha/event.c:1491-1503 | removing from EVLIST_ACTIVE drops the event from its priority's queue and lowers event_count_active by one |
| EventQueue.QueueInsert | libevent-2.0.1-alpha/event.c:1512-1544 | a second active insert does nothing; a second INSERTED or TIMEOUT insert is fatal; otherwise the event joins exactly the asked list and the counters move by one |
| EventQueue.QueueRemove | libevent-2.0.1-alpha/event.c:1484-1510 | removing from a list the event is not on is fatal; otherwise it leaves exactly that list, the others keep their order, and the counters move back by one |
| EventQueue.InsertRemoveFlags | libevent-2.0.1-alpha/event.c:1484-1544 | after an insertion the event is on the list and after a removal it is not |
| EventQueue.InsertThenRemove | libevent-2.0.1-alpha/event.c:1484-1544 | inserting an event into a list it is not on and removing it again gives the base back |
| EventOps.ActivateThenAbort | libevent-2.0.1-alpha/event.c:1273-1331 | activation detaches a signal event's live repeat counter, so the event_del abort right after it changes nothing and the event keeps the repeat count it was given; aborting twice is aborting once |
| EventOps.ActiveInternal | libevent-2.0.1-alpha/event.c:1313-1334 | an already active event only gains the result bits; any other event joins the tail of its priority's queue with the result, raising both counters; either way it ends up active |
| EventOps.ActivateSetsFlag | libevent-2.0.1-alpha/event.c:1313-1334 | activating an event sets its EVLIST_ACTIVE bit and leaves its EVLIST_INSERTED, EVLIST_TIMEOUT, EVLIST_INTERNAL and EVLIST_INIT bits as they were |
| EventOps.DelInternal | libevent-2.0.1-alpha/event.c:1256-1300 | an event without a base gives -1 without change; otherwise a running signal loop stops, the event leaves every list it was on, the counters drop accordingly, and the result is the backend's answer for an inserted event |
| EventOps.Rearmed | libevent-2.0.1-alpha/event.c:1190-1226 | re-arming sets the deadline to now + tv, makes the persist closure remember tv, and stops a running signal loop when a timeout made the event active |
| EventOps.Arm | libevent-2.0.1-alpha/event.c:1190-1233 | the timeout half of event_add takes the event off the heap and, when a timeout made it active, off its active queue, then puts it back on the heap at now + tv |
| EventOps.Register | libevent-2.0.1-alpha/event.c:1176-1184 | an event watching read, write or signal and on neither the inserted nor an active list joins the inserted list; nothing else changes |
| EventOps.AddInternal | libevent-2.0.1-alpha/event.c:1150-1240 | event_add fails with -1 and no change exactly when a needed heap slot cannot be reserved or the backend refuses; otherwise it registers and arms the event and returns 0 |
| EventOps.DeferredSchedule | libevent-2.0.1-alpha/event.c:1359-1373 | a callback not yet queued joins the tail of the deferred queue and counts as active work; a queued one stays where it is |
| EventOps.DeferredCancel | libevent-2.0.1-alpha/event.c:1344-1357 | a queued callback leaves the queue and stops counting as active work; cancelling one not queued does nothing |
| EventOps.ScheduleThenCancel | libevent-2.0.1-alpha/event.c:1344-1373 | scheduling a callback not queued and cancelling it again gives the base back |
| EventOps.AddThenDel | libevent-2.0.1-alpha/event.c:1150-1300 | adding an event on no list and deleting it again returns 0 and leaves every list as it was |
| EventOps.CountsDetermined | libevent-2.0.1-alpha/event.c:1484-1544 | event_count and event_count_active are determined by the lists and the EVLIST_INTERNAL bits |
| EventSetup.EventSet | libevent-2.0.1-alpha/event.c:954-989 | a signal event that also asks for read or write is fatal; otherwise the record is fresh, with the closure its kinds select and the middle priority of the current base, or its old priority without one |
| EventSetup.FreshId | libevent-2.0.1-alpha/event.c:954-989 | an event the base has not seen is on none of its lists |
| EventSetup.Attach | libevent-2.0.1-alpha/event.c:991-1002 | an event attached to a base gets a fresh id and the middle priority, is on no list, and nothing else in the base changes |
| EventSetup.BaseSet | libevent-2.0.1-alpha/event.c:991-1002 | event_base_set on an event of no base gives -1 without change exactly when its flags are not EVLIST_INIT alone; otherwise it joins the base at the middle priority |
| EventSetup.BaseReset | libevent-2.0.1-alpha/event.c:991-1002 | event_base_set on an event of the same base gives -1 without change exactly when its flags are not EVLIST_INIT alone; otherwise its priority goes back to the middle one |
| EventSetup.EventNew | libevent-2.0.1-alpha/event.c:1012-1022 | event_new gives NULL exactly when the allocation fails, is fatal for a signal with read or write, and otherwise adds a fresh event on no list, leaving every other event as it was |
| EventSetup.PrioritySet | libevent-2.0.1-alpha/event.c:1037-1048 | setting a priority succeeds exactly when the event is not active and the priority is in range; then only that event's priority changes, else -1 without change |
| EventSetup.PriorityInit | libevent-2.0.1-alpha/event.c:540-574 | with work active it gives -1 without change; asking for the current count gives 0 without change; otherwise the queues become `n` empty ones, and the base stays valid exactly when every priority is below `n` |
| EventSetup.PrioritySetThenInit | libevent-2.0.1-alpha/event.c:1037-1048 | after a successful priority change the event's ev_flags are what they were |
| EventSetup.PendingBits | libevent-2.0.1-alpha/event.c:1060-1065 | EV_TIMEOUT is pending exactly for a timer or an event active by timeout, and each watched kind exactly when inserted for it or active with it |
| EventSetup.Pending | libevent-2.0.1-alpha/event.c:1054-1079 | event_pending reports exactly the pending bits in the mask and in EV_TIMEOUT, EV_READ, EV_WRITE and EV_SIGNAL, and the deadline on the wall clock exactly when asked and EV_TIMEOUT is reported |
| EventSetup.AddThenPending | libevent-2.0.1-alpha/event.c:1054-1240 | after a successful event_add with a timeout, event_pending reports EV_TIMEOUT at now + tv |
| EventSetup.DelThenPending | libevent-2.0.1-alpha/event.c:1054-1300 | after event_del nothing is pending |
| EventSetup.BaseOnce | libevent-2.0.1-alpha/event.c:908-952 | event_base_once succeeds exactly when the kinds are EV_TIMEOUT alone or include read or write without signal, the allocation works and the add succeeds; then a fresh plain event is a timer exactly when timed and inserted exactly when it watches a descriptor |
| EventSetup.OnceAdded | libevent-2.0.1-alpha/event.c:944-949 | the event_add of event_base_once succeeds exactly when its heap slot and backend registration do, and puts the event on the expected lists |
| EventSetup.LoopExit | libevent-2.0.1-alpha/event.c:747-752 | event_base_loopexit succeeds exactly when the allocation and the heap slot do, leaving a one-shot timer due at now + tv |
| EventSetup.OnceDeadline | libevent-2.0.1-alpha/event.c:927-931 | a pure timer from event_base_once is due at now + tv, or now without tv |
| EventSetup.LoopBreak | libevent-2.0.1-alpha/event.c:760-775 | event_base_loopbreak gives -1 without a base, and otherwise sets event_break and changes nothing else |
| EventSetup.BreakStops | libevent-2.0.1-alpha/event.c:806-816 | a break requested before a pass ends the loop at that pass with 0, without a dispatch, and clears the request |
| EventTimer.MinTimer | libevent-2.0.1-alpha/event.c:1384-1390 | the heap's top is a timer whose deadline is no later than any other's, and there is none exactly when the heap is empty |
| EventTimer.TimeoutNext | libevent-2.0.1-alpha/event.c:1375-1411 | with no timer the wait is unbounded; otherwise it is the time left to the earliest deadline, and zero exactly when some deadline has passed |
| EventTimer.TimeoutCorrect | libevent-2.0.1-alpha/event.c:1419-1454 | a monotonic clock changes nothing; a clock at or after event_tv becomes event_tv; a clock behind it moves every timer's deadline back by the difference, leaving the lists, counts and other events alone |
| EventTimer.CorrectKeepsOrder | libevent-2.0.1-alpha/event.c:1441-1452 | a correction keeps the order of any two timers' deadlines |
| EventTimer.CorrectKeepsEarliest | libevent-2.0.1-alpha/event.c:1441-1452 | after a correction the heap's top is the same event |
| EventTimer.Expire | libevent-2.0.1-alpha/event.c:1470-1479 | an expired event leaves the heap and the inserted list and becomes active with EV_TIMEOUT; no deadline moves and every other event keeps its record and activity |
| EventTimer.TimeoutProcess | libevent-2.0.1-alpha/event.c:1456-1482 | after timeout_process the heap holds exactly the timers still pending, in order; the fired events are exactly the timers due, each once, by deadline, each active with EV_TIMEOUT; every other event is as it was |
| EventTimer.ExpireStep | libevent-2.0.1-alpha/event.c:1470-1480 | one expiry followed by the rest of the run is a run of timeout_process |
| EventLoop.Dequeue | libevent-2.0.1-alpha/event.c:624-628 | the head of an active queue leaves it: a persistent event only leaves the active queue; any other is deleted from every list |
| EventLoop.Called | libevent-2.0.1-alpha/event.c:645-646 | running a callback sets the break or exit request exactly when that callback asks for one, and changes nothing else |
| EventLoop.PersistClosure | libevent-2.0.1-alpha/event.c:582-589 | the persist closure re-adds the event when its remembered timeout is non-zero and then runs the callback once |
| EventLoop.Rearm | libevent-2.0.1-alpha/event.c:586-587 | the re-add of the persist closure is event_add with the remembered timeout, and nothing when that is zero |
| EventLoop.SignalClosure | libevent-2.0.1-alpha/event.c:591-606 | the signal closure runs the callback at most ncalls times, counting ev_ncalls down, stops early only after a run that left a break, runs all ncalls without one, and leaves no live counter |
| EventLoop.RunClosure | libevent-2.0.1-alpha/event.c:642-646 | a dequeued event runs its closure, or its callback once without one, and only its own record changes |
| EventLoop.RunHead | libevent-2.0.1-alpha/event.c:624-646 | one turn of the queue loop takes exactly the head off its queue, runs it, and leaves the other queues and events alone |
| EventLoop.ProcessQueue | libevent-2.0.1-alpha/event.c:615-652 | processing a queue runs its events from the head in order, returns -1 after the first that left a break, and otherwise empties it and returns the number of non-internal events run |
| EventLoop.ProcessDeferred | libevent-2.0.1-alpha/event.c:654-674 | deferred callbacks are taken off the queue in order, each lowering event_count_active; -1 after one that left a break, otherwise the number run when the queue is empty |
| EventLoop.Unqueued | libevent-2.0.1-alpha/event.c:660-666 | taking the head off the deferred queue and running it lowers event_count_active by one and sets the break exactly when the callback asks |
| EventLoop.StopAt | libevent-2.0.1-alpha/event.c:690-702 | the priority scan stops at the first queue holding a non-internal event, or at the end |
| EventLoop.ProcessLevels | libevent-2.0.1-alpha/event.c:690-702 | the scan skips empty queues, runs queues in priority order, stops on a break or after a queue that held a non-internal event, and goes on after queues of internal events only |
| EventLoop.ProcessActive | libevent-2.0.1-alpha/event.c:682-707 | event_process_active runs a prefix of the visited queues' events in order and, unless a callback broke it off, then the deferred callbacks; without a break everything visited ran |
| EventLoop.Deliver | libevent-2.0.1-alpha/event.c:1302-1310 | a backend's activations make every ready event still registered active and keep every active event active |
| EventLoop.ActiveStays | libevent-2.0.1-alpha/event.c:1313-1334 | event_active leaves every active event active and changes only the active lists and counts |
| EventDispatch.Iterate | libevent-2.0.1-alpha/event.c:806-816 | a pending loopexit request, then a pending loopbreak request, is cleared and ends the loop with 0; otherwise the pass goes on to the dispatch |
| EventDispatch.Poll | libevent-2.0.1-alpha/event.c:830-858 | the loop returns 1 exactly when nothing is registered or active; the dispatch waits zero with work active or under EVLOOP_NONBLOCK and otherwise until the earliest timer; a failing dispatch returns -1 |
| EventDispatch.Dispatch | libevent-2.0.1-alpha/event.c:855-868 | the dispatch fails exactly when the backend does, returning -1; otherwise it gets the wait it was given |
| EventDispatch.AfterDispatch | libevent-2.0.1-alpha/event.c:859-868 | after the dispatch, the pass is done only under EVLOOP_ONCE or EVLOOP_NONBLOCK with nothing left active |
| EventDispatch.Loop | libevent-2.0.1-alpha/event.c:787-876 | the loop dispatches at most once per pass and keeps the base valid |
| EventDispatch.LoopCodes | libevent-2.0.1-alpha/event.c:787-876 | event_base_loop returns -1, 0 or 1, and 1 only when nothing is registered or active |
| EventDispatch.LoopNonblock | libevent-2.0.1-alpha/event.c:832-841 | under EVLOOP_NONBLOCK every dispatch polls with a zero timeout |
| EventDispatch.LoopExitClears | libevent-2.0.1-alpha/event.c:806-811 | without EVLOOP_ONCE or EVLOOP_NONBLOCK a return of 0 leaves no loopexit request behind |
| EventDispatch.StaleBreak | libevent-2.0.1-alpha/event.c:806-816 | as written, an EVLOOP_ONCE run whose last callback calls event_base_loopbreak returns with event_break still set, and the next run returns 0 at once without a dispatch although events are registered |
| EventDispatch.LoopEntry | libevent-2.0.1-alpha/event.c:787-876 | the loop with stale requests dropped on entry keeps the base valid and returns 1 only when nothing is registered or active |
| EventDispatch.EntryDispatches | libevent-2.0.1-alpha/event.c:806-858 | with the corrected entry, a run with something registered dispatches at least once or fails |
| EventDispatch.StaleBreakFixed | libevent-2.0.1-alpha/event.c:806-816 | with the corrected entry, the run after the stale-break setting dispatches, or fails |
| EventDispatch.StaleBase | libevent-2.0.1-alpha/event.c:654-674 | the stale-break setting is reachable: one registered read event and one queued deferred callback that breaks the loop |
| Bufferevent.BackendEnableThenDisable | libevent-2.0.1-alpha/bufferevent.c:225-300 | the backend's enable and disable of kinds not yet polled undo each other: a working enable followed by a working disable gives back the polled set, the kinds stay polled only when the enable worked and the disable failed, and nothing polled before is lost |
| Bufferevent.SuspendRead | libevent-2.0.1-alpha/bufferevent.c:58-69 | suspending marks reading suspended, is a no-op when it already is, and otherwise stops polling READ when the backend agrees; the user's enabled set and the marks stay |
| Bufferevent.UnsuspendRead | libevent-2.0.1-alpha/bufferevent.c:71-84 | unsuspending clears the mark, is a no-op when not suspended, and polls READ again only when the user enabled it |
| Bufferevent.SuspendIdempotent | libevent-2.0.1-alpha/bufferevent.c:58-84 | suspending or unsuspending twice is the same as once |
| Bufferevent.InbufWmCb | libevent-2.0.1-alpha/bufferevent.c:88-109 | a net addition reaching the high mark suspends reading; a round without net addition below the mark resumes it; the other two cases change nothing |
| Bufferevent.InputChanged | libevent-2.0.1-alpha/bufferevent.c:88-109 | a change of the input buffer reaches the watermark logic only while the watermark callback is enabled |
| Bufferevent.Enable | libevent-2.0.1-alpha/bufferevent.c:218-237 | enabling always records the kinds as enabled, polls them when the backend agrees except READ while suspended, and returns -1 exactly when the backend fails |
| Bufferevent.Disable | libevent-2.0.1-alpha/bufferevent.c:286-299 | disabling always removes the kinds from the enabled set, stops polling them when the backend agrees, never adds to what is polled, and returns -1 exactly when the backend fails |
| Bufferevent.EnableThenDisable | libevent-2.0.1-alpha/bufferevent.c:218-299 | enabling then disabling the same kinds leaves none of them enabled or polled |
| Bufferevent.SetTimeouts | libevent-2.0.1-alpha/bufferevent.c:239-259 | each given timeout is stored and each missing one is cleared; nothing else changes |
| Bufferevent.SetTimeoutSecs | libevent-2.0.1-alpha/bufferevent.c:263-283 | the obsolete form stores the two second counts, where 0 clears that timeout |
| Bufferevent.SetWatermark | libevent-2.0.1-alpha/bufferevent.c:305-351 | the write marks are set when asked; read marks with a nonzero high mark enable the watermark callback and suspend above it, resume below it, and change nothing at it; a zero high mark disables the callback and resumes reading |
| Bufferevent.WatermarkBoundary | libevent-2.0.1-alpha/bufferevent.c:96-106 | with exactly `high` bytes buffered, setting the mark leaves reading on, yet the next net addition the callback sees suspends it |
| Bufferevent.InitCommon | libevent-2.0.1-alpha/bufferevent.c:111-155 | a new bufferevent exists exactly when both buffers and a requested lock are allocated, with WRITE enabled, one reference, no timeouts and nothing polled |
| Bufferevent.Incref | libevent-2.0.1-alpha/bufferevent.c:400-409 | taking a reference raises the count by one and changes nothing else |
| Bufferevent.DecrefAndUnlock | libevent-2.0.1-alpha/bufferevent.c:366-398 | the last reference destroys the bufferevent; otherwise the count falls by one and nothing else changes |
| Bufferevent.IncrefDecref | libevent-2.0.1-alpha/bufferevent.c:366-409 | taking and dropping a reference gives the bufferevent back |
| Bufferevent.DropAllDestroys | libevent-2.0.1-alpha/bufferevent.c:366-398 | dropping fewer references than are held keeps it with that many fewer; dropping all of them destroys it |
| Bufferevent.OperationsConsistent | libevent-2.0.1-alpha/bufferevent.c:58-351 | with the backend's calls succeeding, every operation keeps the backend polling only what the user enabled, READ never while suspended, and the watermark callback enabled exactly with a nonzero high mark |
| SelectBackend.Howmany | libevent-2.0.1-alpha/select.c:62-64 | howmany is the ceiling of x / y: the smallest count of y-sized units that covers x |
| SelectBackend.Init | libevent-2.0.1-alpha/select.c:95-108 | select_init fails exactly when the structure cannot be allocated; otherwise the sets are empty and sized for howmany(33, NFDBITS) masks |
| SelectBackend.Resize | libevent-2.0.1-alpha/select.c:171-213 | a successful resize keeps every bit and zeroes the new region; a failed one returns -1 and changes nothing; either way the members are unchanged |
| SelectBackend.Grow | libevent-2.0.1-alpha/select.c:229-236 | the doubling loop gives a size at least the need and the old size, and under twice the need unless unchanged |
| SelectBackend.SetBit | libevent-2.0.1-alpha/select.c:248-251 | FD_SET and FD_CLR change exactly the one descriptor's bit, adding it to or removing it from the members |
| SelectBackend.Add | libevent-2.0.1-alpha/select.c:216-255 | EV_SIGNAL trips the assertion; a failed growth returns -1 without change; otherwise event_fds becomes the larger of itself and fd and fd joins exactly the asked sets |
| SelectBackend.CoversFd | libevent-2.0.1-alpha/select.c:228-243 | after the growth step the sets cover the descriptor |
| SelectBackend.Del | libevent-2.0.1-alpha/select.c:261-283 | EV_SIGNAL trips the assertion; a descriptor above event_fds is ignored; otherwise fd leaves exactly the asked sets; the result is always 0 |
| SelectBackend.AddThenDel | libevent-2.0.1-alpha/select.c:216-283 | deleting what was just added for a descriptor in neither set gives the old members back |
| SelectBackend.MaskAt | libevent-2.0.1-alpha/select.c:154-158 | the mask for a descriptor holds READ exactly when its read bit is set and WRITE exactly when its write bit is |
| SelectBackend.Dispatch | libevent-2.0.1-alpha/select.c:120-168 | an error returns -1, or 0 for EINTR, without activations; otherwise every descriptor up to event_fds with a set bit is activated once, in increasing order, with its mask |
| SelectBackend.ActivationsRegistered | libevent-2.0.1-alpha/select.c:128-134 | when select reports only what it was given, every activation names a registered interest |
| Evrpc.HookCodes | libevent-2.0.1-alpha/evrpc.h:449-453 | the hook results TERMINATE, CONTINUE and PAUSE have the codes -1, 0 and 1, and each code decodes back to its result |
| Evrpc.StatusCodes | libevent-2.0.1-alpha/evrpc.h:338-342 | the status errors are numbered 0 to 4, one per status, NONE being 0, and each number decodes back |
| Evrpc.AddHook | libevent-2.0.1-alpha/evrpc.c:112-140 | a new hook gets a handle no hook has and goes to the tail of its chain; the other chain is untouched |
| Evrpc.RemoveHook | libevent-2.0.1-alpha/evrpc.c:142-178 | removing returns 1 and drops exactly that hook when it is in the chain, and 0 without change otherwise |
| Evrpc.AddThenRemove | libevent-2.0.1-alpha/evrpc.c:112-178 | removing a hook just added returns 1 and gives the chains back |
| Evrpc.ProcessHooks | libevent-2.0.1-alpha/evrpc.c:180-192 | hooks run in chain order until one answers other than CONTINUE, which is the result; the result is CONTINUE exactly when every hook continues |
| Evrpc.ConstructUri | libevent-2.0.1-alpha/evrpc.c:203-218 | the URI is the RPC prefix followed by the name |
| Evrpc.UriInjective | libevent-2.0.1-alpha/evrpc.c:203-218 | different names give different URIs |
| Evrpc.RpcInit | libevent-2.0.1-alpha/evrpc.c:68-87 | evrpc_init fails exactly when the allocation does; otherwise nothing is registered or served and there are no hooks |
| Evrpc.RegisterRpc | libevent-2.0.1-alpha/evrpc.c:220-240 | registering appends the name to the registry and serves its URI, and returns 0 |
| Evrpc.UnregisterRpc | libevent-2.0.1-alpha/evrpc.c:242-269 | an unknown name gives -1 without change; otherwise the first entry with the name leaves the registry and its URI stops being served; the assertion fails exactly when the URI was no longer served |
| Evrpc.RegisterThenUnregister | libevent-2.0.1-alpha/evrpc.c:220-269 | registering a new name and unregistering it gives the base back and returns 0 |
| Evrpc.PoolNew | libevent-2.0.1-alpha/evrpc.c:478-497 | a new pool exists exactly when allocated, with no timeout, connections, requests or paused entries |
| Evrpc.FindConnection | libevent-2.0.1-alpha/evrpc.c:605-615 | the connection found is the first one carrying no request, and none is found exactly when every connection is busy |
| Evrpc.ScheduleClosure | libevent-2.0.1-alpha/evrpc.c:685-727 | a TERMINATE from a resumed hook or a refused HTTP request calls the callback with UNSTARTED; otherwise the request goes out on the connection |
| Evrpc.ScheduleRequest | libevent-2.0.1-alpha/evrpc.c:626-683 | no HTTP request object reports UNSTARTED; otherwise the request is parked exactly when the output hooks pause and the pause works, and sent exactly when they continue and sending works |
| Evrpc.PoolSchedule | libevent-2.0.1-alpha/evrpc.c:921-935 | with no request or no idle connection nothing changes; otherwise the head of the queue is scheduled on the first idle connection |
| Evrpc.ScheduleTakesHead | libevent-2.0.1-alpha/evrpc.c:921-935 | a scheduling step takes exactly the head off the queue, and does so exactly when some connection is idle |
| Evrpc.AddConnection | libevent-2.0.1-alpha/evrpc.c:547-578 | the connection joins the tail, takes the pool timeout unless it has its own, and is handed the head of the queue when requests are pending |
| Evrpc.SetTimeout | libevent-2.0.1-alpha/evrpc.c:587-595 | every pooled connection and the pool take the new timeout; nothing else changes |
| Evrpc.TimeoutInherited | libevent-2.0.1-alpha/evrpc.c:547-595 | a pool timeout reaches a connection added later only when it has none of its own |
| Evrpc.MakeRequest | libevent-2.0.1-alpha/evrpc.c:766-786 | the request joins the queue's tail; with an idle connection the queue's head is scheduled, otherwise nothing else happens |
| Evrpc.SendRequest | libevent-2.0.1-alpha/evrpc.h:196-219 | the generated sender returns -1 and calls the callback with UNSTARTED exactly when the request context cannot be made; otherwise it makes the request and returns 0 |
| Evrpc.ReplyStatus | libevent-2.0.1-alpha/evrpc.c:889-906 | no HTTP request means TIMEOUT, a TERMINATE means HOOKABORTED, an unparsable reply means BADPAYLOAD, and otherwise NONE |
| Evrpc.Release | libevent-2.0.1-alpha/evrpc.c:605-614 | a finished request leaves every connection's request list and nothing else changes, so the connection that carried it alone is idle again for evrpc_pool_find_connection |
| Evrpc.ClearedIffFailed | libevent-2.0.1-alpha/evrpc.c:887-906 | the reply is cleared exactly when the status is not NONE |
| Evrpc.ReplyClosure | libevent-2.0.1-alpha/evrpc.c:880-919 | the callback is called first with the status, then the next queued request may be scheduled; the paused list only grows at its end |
| Evrpc.ReplyDone | libevent-2.0.1-alpha/evrpc.c:826-878 | the request has left its connection; without a PAUSE from the input hooks the callback gets the status; a PAUSE parks the reply when the pause works and otherwise drops it with no callback |
| Evrpc.ReplyFreesConnection | libevent-2.0.1-alpha/evrpc.c:913-935 | when the finished request was all its connection carried and every earlier connection is busy, the reply's closure runs the callback and then hands the head of the queue to that connection |
| Evrpc.FindPaused | libevent-2.0.1-alpha/evrpc.c:749-753 | the paused entry found is the first for the request, and none exactly when it has none |
| Evrpc.ResumeRequest | libevent-2.0.1-alpha/evrpc.c:746-764 | resuming a request that is not paused gives -1 without change; otherwise 0, its first paused entry leaves the list (the others keep their order) and its continuation runs on the rest: a scheduling step adds no paused entry, and a reply calls the callback first |
| Evrpc.PauseThenResume | libevent-2.0.1-alpha/evrpc.c:730-764 | a request parked by a PAUSE output hook can be resumed, which sends it exactly as a CONTINUE would have |
| Evrpc.AddMeta | libevent-2.0.1-alpha/evrpc.c:996-1014 | adding meta data creates the store when missing and appends the pair at its end |
| Evrpc.FindMeta | libevent-2.0.1-alpha/evrpc.c:1016-1034 | finding returns 0 exactly when the store holds the key, with the data of the first pair carrying it, and -1 otherwise |
| Evrpc.AddThenFind | libevent-2.0.1-alpha/evrpc.c:996-1034 | a key just added is found; with no earlier pair for it its data is returned; an earlier pair keeps shadowing it |
| Replace.LowerFolds | jingxian-network/src/jingxian/string/replace_functions.h:43 | ASCII folding is idempotent, never yields an upper-case letter, leaves every other character alone, and identifies two different characters only when one is the upper-case form of the other |
| Replace.MatchChars | jingxian-network/src/jingxian/string/replace_functions.h:42-44 | an occurrence at q is exactly a window inside the text whose characters each equal the pattern's, up to case when folding |
| Replace.Scan | jingxian-network/src/jingxian/string/replace_functions.h:42-46 | the scan returns the first position at or after its start where the pattern occurs, and nothing exactly when there is none |
| Replace.CaseFind | jingxian-network/src/jingxian/string/replace_functions.h:26-47 | case_find gives npos for a null pattern, a start past the end or too little text left; otherwise the first case-blind occurrence at or after the offset, and npos exactly when there is none; an empty pattern is found at the offset |
| Replace.StdFind | jingxian-network/src/jingxian/string/replace_functions.h:77 | the exact search returns the first occurrence at or after pos, nothing exactly when there is none, and finds an empty pattern exactly when pos is inside the string |
| Replace.Find | jingxian-network/src/jingxian/string/replace_functions.h:67-81 | the search replace_all runs returns the first occurrence at or after the offset, folding case when the flag is true, and nothing exactly when there is none |
| Replace.ReplaceAll | jingxian-network/src/jingxian/string/replace_functions.h:58-98 | replace_all keeps the text before the offset and replaces the rest as SkipFrom says: each leftmost occurrence is replaced and the character after it is passed over; an offset past the end changes nothing |
| Replace.ReplaceLoop | jingxian-network/src/jingxian/string/replace_functions.h:67-82 | the loop, run from any offset inside the string, computes the kept prefix followed by the skipping replacement of the rest, and leaves the string alone from an offset past its end |
| Replace.NoMatchUnchanged | jingxian-network/src/jingxian/string/replace_functions.h:67-83 | with no occurrence at or after the offset the string comes back unchanged |
| Replace.ReplaceChar | jingxian-network/src/jingxian/string/replace_functions.h:100-178 | the one-character overloads keep the text before the offset and after it do what the skipping replacement of the one-character pattern does; they change nothing when no character from the offset on matches |
| Replace.CharNoMatch | jingxian-network/src/jingxian/string/replace_functions.h:100-178 | a character that does not occur from the offset on leaves the string unchanged |
| Replace.ReplaceAllFromStart | jingxian-network/src/jingxian/string/replace_functions.h:236-286 | the overloads without an offset replace from position 0, and give the string back when the pattern occurs nowhere |
| Replace.FromStartNoMatch | jingxian-network/src/jingxian/string/replace_functions.h:236-286 | a pattern occurring nowhere leaves the string unchanged |
| Replace.FlagInverted | jingxian-network/src/jingxian/string/replace_functions.h:55-69 | with the code as written, casesensitive true folds case and false compares exactly: an upper-case letter is replaced by its lower-case pattern only under true |
| Replace.SkipsAdjacent | jingxian-network/src/jingxian/string/replace_functions.h:71-72 | resuming one past the inserted text misses an occurrence right after the previous one: replacing c in "cc" gives the replacement followed by c |
| Replace.FixedLoop | jingxian-network/src/jingxian/string/replace_functions.h:58-84 | the corrected loop keeps the text before the offset and computes the reference replacement of every leftmost non-overlapping occurrence in the rest |
| Replace.ReplaceAllFixed | jingxian-network/src/jingxian/string/replace_functions.h:49-84 | replace_all as documented: an empty pattern or an offset past the end changes nothing; otherwise the prefix is kept and every occurrence after it replaced, exact when casesensitive is true |
| Replace.RefNoMatch | jingxian-network/src/jingxian/string/replace_functions.h:69-77 | without an occurrence from position i on, the reference replacement copies the rest of the text |
| Replace.RefFirst | jingxian-network/src/jingxian/string/replace_functions.h:69-72 | the reference copies the text up to the first occurrence, puts the replacement in its place and carries on after it |
| Replace.FixedReplacesAdjacent | jingxian-network/src/jingxian/string/replace_functions.h:71-72 | the corrected loop replaces both characters of "cc" |
| Replace.FixedFlagRespected | jingxian-network/src/jingxian/string/replace_functions.h:55 | in the corrected loop casesensitive true compares exactly and false folds case |
| DataBuffer.IsMemory | jingxian-network/src/jingxian/buffer/buffer.h:118-121 | an element is memory exactly when its type is BUFFER_ELEMENT_MEMORY, so never a file or packet element |
| DataBuffer.WritePos | jingxian-network/src/jingxian/buffer/buffer.h:123-126 | the write cursor plus the writable room is the capacity |
| DataBuffer.ReadPos | jingxian-network/src/jingxian/buffer/buffer.h:139-142 | the read cursor plus the readable length is the write cursor |
| DataBuffer.RdLength | jingxian-network/src/jingxian/buffer/buffer.h:149-153 | the readable length is the number of bytes between the cursors, and wraps as a size_t when the read cursor has passed the write cursor |
| DataBuffer.WdLength | jingxian-network/src/jingxian/buffer/buffer.h:133-137 | the writable room is what is left of the block after the write cursor, and wraps as a size_t when the cursor has passed the block's end |
| DataBuffer.WdAdvance | jingxian-network/src/jingxian/buffer/buffer.h:128-131 | advancing the write cursor within the room makes the next bytes readable and shrinks the room by the same count; advancing past it breaks the layout and wraps the room |
| DataBuffer.RdAdvance | jingxian-network/src/jingxian/buffer/buffer.h:144-147 | advancing the read cursor within the readable bytes consumes exactly that many from the front; advancing past them breaks the layout and wraps the length |
| DataBuffer.Write | jingxian-network/src/jingxian/buffer/buffer.h:123-137 | copying bytes to the write cursor and advancing it appends them to the readable bytes and keeps the layout |
| DataBuffer.Read | jingxian-network/src/jingxian/buffer/buffer.h:139-153 | copying n bytes from the read cursor and advancing it returns the first n readable bytes and leaves the rest |
| DataBuffer.WriteThenRead | jingxian-network/src/jingxian/buffer/buffer.h:123-153 | reading everything after a write returns the old readable bytes followed by the written ones, and leaves nothing readable |

## Left out

- **Operating system.**
  - Threads, locks and `evthread_notify_base` are not modelled. `event_base_loopbreak` from
    another thread, whose result is the notify call's, is therefore not modelled. Neither is the
    doubled `BEV_LOCK`.
  - Signals (`evsignal_*`) and the signal backend are not modelled; only the `ev_ncalls` loop of
    a signal event's closure is.
  - `gettime` and the base's time cache are not modelled. The time is an input carried by each `Tick`.
  - `evmap` is not modelled. The select backend is modelled directly on descriptor sets.
- **Buffer I/O.** `evbuffer_read`, `evbuffer_write`, `evbuffer_add_file`, `evbuffer_add_printf` and
  `evbuffer_add_vprintf` perform I/O or formatting and are left out.
- **Memory.**
  - Freeing memory is modelled only as the fate of a chain (released, or dangling while pinned).
  - Every allocation the modelled buffer operations make is an input (`allocOk`) on the path
    that allocates: `evbuffer_expand`, `_reserve_space`, `_add`, `_prepend`,
    `_add_reference`, `_pullup`, `_readln`'s copy of the line, `evbuffer_add_cb`, and the
    `evbuffer_add` inside `_remove_buffer`.
- Chain.New: it always succeeds. The NULL that `evbuffer_chain_new` returns when malloc
  fails is the caller's `allocOk` input.
- Chain.AllocSize: it is unbounded. The `size_t` wrap of the doubling loop and of the
  header addition in `evbuffer_chain_new`, for requests near 2^64, is not modelled.
- EvBufferCbs.SetCb: it always gets its entry. `evbuffer_setcb` writes through the result
  of `evbuffer_add_cb` without checking it, so a failed allocation there dereferences NULL.
- **Timers.** The min-heap of timers is a sequence in insertion order. The order the heap gives
  to timers with equal deadlines is not modelled.
- **Dangling `ev_pncalls`.** A signal closure's `ev_pncalls` points at a local that dies with
  the closure. The model clears the pointer instead.
- EventSetup.PriorityInit: when `event_base_priority_init` is asked for fewer than one priority,
  the model gives `None`. This applies only when nothing is active and the count differs from the
  current one. A negative count makes the allocation fail, which is fatal. Zero leaves no queue
  for activation. Neither leaves a base worth modelling.
- SelectBackend.Init: `select_init` ignores a failed first resize; the model gives the initial
  sets their size.
- Bufferevent.SetWatermark: if the allocation in the `evbuffer_add_cb` of
  `bufferevent_setwatermark` fails, the watermark callback is not installed. This case is not
  modelled.
- **HTTP and pools.** The HTTP layer under evrpc is an input: whether a request object exists and
  whether `evhttp_make_request` succeeds. Also left out:
  - the server's request handler that unmarshals and dispatches an RPC;
  - `evrpc_pool_remove_connection`.
- Evrpc.ScheduleClosure: the abort timer that `evrpc_schedule_request_closure` arms with
  `evtimer_add` when the pool timeout is positive is not modelled. Whether the reply came back
  or that timer fired is an input to Evrpc.ReplyDone (`hasReq` false means it fired). So the
  model does not state that a request is aborted once the pool timeout passes, nor that a
  timeout of 0 never expires.
- Evrpc.ReplyDone: the `event_del` that cancels that timer is not modelled either.
- EventLoop.SignalClosure: the call count is a natural number. The source's count is a 16-bit
  `short`, so a negative count makes `while (ncalls)` run until the value wraps round to 0.
  Counts outside 0..32767 are not modelled.
- EventOps.ActiveInternal: its `ncalls` is a natural number, where `event_active` and
  `event_active_internal` take a `short`, for the same reason.
- **`replace_all` edge inputs.**
  - A NULL `what` or `with`, or NUL characters inside them, are not modelled; strings are
    character sequences.
  - Case folding is ASCII only. `string_traits.h`, which supplies `strnicmp`, is not part of this model.
- **`freebuffer`.** `freebuffer`'s `is_null` check on the element pointer goes through a
  function-pointer overload. It is modelled as the null test it is meant to be.
- **Callback contexts.** The context pointer of a chain element's free callback is opaque and not modelled.
- **`EventDispatch.Loop`.** It runs over a finite sequence of ticks, so a run that would never end is cut
  off when the ticks run out.
- EvBuffer.Expand: it inserts a new chain with the corrected `evbuffer_chain_insert`
  (ChainList.Insert). It does not reproduce the NULL write that ChainList.InsertAsWritten shows.
- EvBuffer.AddReference: it uses the corrected insert too, for the same reason.
- ChainList.Expand: it inserts a new chain with the corrected `evbuffer_chain_insert`. When the
  only chain is an empty, unpinned immutable chain (add_reference of no bytes), the source
  writes through NULL instead (buffer.c:1289-1295, 218-222).
- ChainList.AddPlace: its new-chain path inserts with the corrected `evbuffer_chain_insert`, so
  it appends where the source's insert at buffer.c:1187 writes through NULL.
- ChainList.AddToLast: its spill branch uses the corrected insert, for the same reason.
- ChainList.AddSpill: it links the new chain with the corrected insert. With no room left and
  an empty, unpinned sole last chain, the source writes through NULL there.
- EvBuffer.ReserveSpace: it expands through ChainList.Expand and so through the corrected
  insert. After add_reference of no bytes on an empty buffer it succeeds, where the source
  writes through NULL (buffer.c:467).
- EvBuffer.Add: it places bytes with ChainList.AddPlace and so with the corrected insert.
  EvBuffer.EmptyReferenceThenAdd shows the input on which the source writes through NULL.
- EvBuffer.AddAsWritten: it is the code as written apart from the insert. It reproduces the
  count handed to `n_add_for_cb`, but not the NULL write of `evbuffer_chain_insert`.
- EvBufferTransfer.CopyRest: it copies with the corrected EvBuffer.Add, so it also uses the
  corrected insert (buffer.c:805).
- EvBufferTransfer.RemoveBuffer: it relinks chains with EvBufferTransfer.MoveFront, which keeps
  previous_to_last right. MoveFrontAsWritten is the code as written.
- EvBufferTransfer.RemovePartialDst: it uses MoveFront as well, and it copies the rest with
  the corrected EvBuffer.Add, which counts every added byte. AddAsWritten is the code as written.
- EvBufferScan.Consume: it drains with the corrected EvBuffer.Drain. DrainAsWritten is the code
  as written.
- EvBufferScan.ReadLn: it drains through Consume, and on a failed copy through the corrected
  EvBuffer.Drain.
- EvBufferScan.ReadLine: its position in the buffer is unbounded. The source's iterator offset is
  a C `int`, and the count it returns is a C `int`; lines of 2^31 bytes or more are not modelled.
- Bufferevent.SetTimeoutSecs: it takes natural second counts. The source takes C `int`s, where
  any nonzero value, negative too, sets that timeout. The cleared `tv_usec` field is not modelled.
- **`EvBuffer.Prepend`.** When a new chain is needed, it reports what the source adds to
  `n_add_for_cb`. That is the old first chain's misalignment rather than the number of bytes
  prepended. This is modelled as written, not corrected.

## Findings

| source | as written | input that shows it | evidently intended | confidence | as-written member | corrected member |
|---|---|---|---|---|---|---|
| libevent-2.0.1-alpha/buffer.c:652-667 | evbuffer_drain lowers total_len by the count. When the count ends exactly on a read-pinned chain, the loop breaks and the chain keeps its bytes. | ChainList.DrainPinnedKeepsBytes: one read-pinned chain holding two bytes, drain 2. total_len becomes 0 while the chain still holds both bytes. | The pinned chain is kept but emptied in place, so total_len matches the chains. | not executed | ChainList.DrainChainsAsWritten | ChainList.DrainChains |
| libevent-2.0.1-alpha/buffer.c:654-670 | The drain loop decrements len. Afterwards only what is left of len is added to n_del_for_cb. | ChainList.DrainCountsResidual: chains of one and two bytes, drain 2. n_del_for_cb grows by 1. | Add every drained byte to n_del_for_cb. | not executed | EvBuffer.DrainAsWritten | EvBuffer.Drain |
| libevent-2.0.1-alpha/buffer.c:1174-1187 | When evbuffer_add needs a new chain, only the bytes put into the old last chain are added to n_add_for_cb. | ChainList.AddCountsNothing: one full one-byte chain, add one byte. 0 bytes are counted. | Count every added byte. | not executed | EvBuffer.AddAsWritten | EvBuffer.Add |
| libevent-2.0.1-alpha/buffer.c:777-797 | evbuffer_remove_buffer sets the destination's previous_to_last to previous_to_previous. When exactly one chain moves, that is the moved chain, which is also the destination's new last chain. | EvBufferTransfer.MoveOneChainBreaksInvariant: any valid pair of buffers with one chain moved. | previous_to_last names the chain before the new last one. | not executed | EvBufferTransfer.MoveFrontAsWritten | EvBufferTransfer.MoveFront |
| libevent-2.0.1-alpha/buffer.c:218-222 | evbuffer_chain_insert drops an empty, unpinned last chain and writes through previous_to_last, which is NULL when that chain is the only one. | ChainList.InsertNullDeref: a buffer holding one empty chain allocated for ten bytes, as evbuffer_reserve_space leaves an empty buffer, then any insert. EvBuffer.EmptyReferenceThenAdd: add_reference of no bytes on an empty buffer, then evbuffer_add. | The new chain becomes the first and only chain. | not executed | ChainList.InsertAsWritten | ChainList.Insert |
| libevent-2.0.1-alpha/event.c:806-816 | event_base_loop checks event_break only at the top of each iteration. An EVLOOP_ONCE run that ends through done = 1 after a callback called event_base_loopbreak returns with event_break still set. | EventDispatch.StaleBreak: one registered read event and one queued deferred callback that breaks the loop. The second run returns 0 at once without dispatching. | A break request ends only the run it was made in, so it is cleared when a run starts. | not executed | EventDispatch.Loop | EventDispatch.LoopEntry |
| jingxian-network/src/jingxian/string/replace_functions.h:71-80 | After a replacement, the search resumes at offset + withlen + 1. This skips the character right after the inserted text. | Replace.SkipsAdjacent: replacing "c" by "d" in "cc" gives "dc". | Resume right after the inserted text and replace every non-overlapping occurrence ("dd"), as Replace.FixedReplacesAdjacent shows. | not executed | Replace.ReplaceAll | Replace.ReplaceAllFixed |
| jingxian-network/src/jingxian/string/replace_functions.h:55-77 | The documentation says casesensitive true means case-sensitive. The code runs the case-blind case_find when the flag is true and the exact std::string::find when it is false. | Replace.FlagInverted: text "A", pattern "a". The letter is replaced only when casesensitive is true. | true compares exactly and false ignores case, as Replace.FixedFlagRespected shows. | not executed | Replace.ReplaceAll | Replace.ReplaceAllFixed |
