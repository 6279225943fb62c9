# librefc in Dafny

A model of librefc's manual reference counting: `rc_alloc`, `retain`,
`release`, `set_destructor`, `set_finalizer` and `get_freeable_ptr`
(`src/lib/refc.c`), plus the callbacks and the three scenarios of its test
program (`src/tests/refc.c`).

Every allocation is a bookkeeping header (`rc_t`: an `int` count, a
finalizer, a destructor) followed by the payload. Callers hold the payload
address. Every operation steps back one header to find the bookkeeping.
`release` decrements the count. When the count drops below one, it runs the
finalizer on the payload and then the destructor on the header.

## How the model is built

- `wrappers.dfy`, module `Wrappers`: `Option` (a null pointer is `None`) and `Result`.
- `layout.dfy`, module `Layout`: addresses are integers.
  - `PayloadOf(base)` is `rc + 1`.
  - `FreeablePtr(p)` is `(rc_t*)p - 1`, which is what `get_freeable_ptr` computes.
  - The header size is a constant. Only its being positive matters.
- `refc.dfy`, module `Refc`: the heap is an immutable map from header addresses to blocks.
  - A block is an `Rc` header plus a `Payload`.
  - The payload is reduced to the one field a finalizer reads: a `next` link to another payload.
  - Finalizers and destructors are tags.
    - A `Plain` finalizer only runs.
    - A `Cascading` finalizer releases the block its `next` names and then clears `next`. This is the shape of the tests' `node_finalize`.
  - `Alloc`, `Retain`, `SetDestructor` and `SetFinalizer` are pure functions on the heap.
  - `Release` returns the new heap and the log of callback invocations (`Finalized(f, payload)`, `Destroyed(d, header)`).
  - `Release` and `Finalize` are mutually recursive, because a finalizer may itself release.
  - The cascade terminates because each destroying release drives one more block below a count of one.
- `refc_properties.dfy`, module `RefcProperties`: what callers may rely on.
  - How a release that is not the last differs from the last one.
  - Allocation and retain set against release.
  - The setters' effect on the destroying release.
  - "n retains need n + 1 releases".
  - Exactly-once accounting over any cascade: every block that disappears is destroyed once, exactly those with a finalizer are finalized once, and each finalizer runs before its block's destructor.
  - Every callback a release invokes is the one stored in the block it is invoked on.
- `refc_tests.dfy`, module `RefcTests`:
  - `node_finalize`, `debug_finalize` and `node_free` as tags.
  - `num_finalized` and `num_freed` as counts over the event log.
  - `node_init` and `node_append` as payload writes.
  - `test_single`, `test_linked_list` and `test_cyclic_list` as lemmas, for every choice of block addresses.

Undefined behaviour in the source is handled two ways:
- Where the caller can see it coming, it is a precondition:
  - `retain` or a setter on a pointer that is not a live block;
  - `retain` past `INT_MAX`;
  - `rc_alloc` at an address already in use.
- Inside `release` it is a `Fault`, because it can arise deep inside a cascade of finalizers:
  - `Dangling`: no such block.
  - `Reentered`: the block is already being torn down. The source would decrement again and finalize again; with `node_finalize` on a cycle, it recurses forever.
  - `NullDestructor`: `set_destructor` stored a null destructor, which the source then calls.

Two details of the C code that the model keeps as written:
- The fallback to `free` happens only in `rc_alloc` (`src/lib/refc.c:34`). `set_destructor` stores whatever it is given, a null pointer included (`src/lib/refc.c:109`).
- `rc_alloc` does not check the result of `malloc` (`src/lib/refc.c:31`), and neither does the model.

## Model

| member | source | states |
|---|---|---|
| Layout.PayloadOf | src/lib/refc.c:35 | the payload address lies past the header, and stepping back one header from it recovers the block start |
| Layout.FreeablePtr | src/lib/refc.c:129-132 | the recovered header address lies strictly before the payload address |
| Layout.PayloadOfFreeablePtr | src/lib/refc.c:131 | stepping back one header and forward again gives the same payload address |
| Layout.PayloadOfInjective | src/lib/refc.c:35 | distinct blocks have distinct payload addresses, and conversely |
| Refc.Alloc | src/lib/refc.c:29-36 | the new block is the only new key; its count is 1; it keeps the given finalizer, possibly none; its destructor is the given one, or `free` when none is given; the returned pointer recovers the new header; the other blocks are untouched |
| Refc.Retain | src/lib/refc.c:55-59 | the count rises by exactly one; callbacks, payload and every other block are unchanged; overflowing the `int` is excluded |
| Refc.SetDestructor | src/lib/refc.c:106-110 | only the destructor changes, and a null one is stored as given; count, finalizer, payload and the other blocks are unchanged |
| Refc.SetFinalizer | src/lib/refc.c:123-127 | only the finalizer changes; count, destructor, payload and the other blocks are unchanged |
| Refc.Release | src/lib/refc.c:82-92 | a successful release, cascade included, never changes a callback and never adds a block; a block being torn down further up the cascade is left exactly as it was |
| Refc.Finalize | src/tests/refc.c:20-27 | without a finalizer nothing happens; a finalizer that releases nothing is invoked once on the payload and changes nothing; a `node_finalize`-style finalizer with a link succeeds exactly when the release of the linked block does, is logged before every event of that release, and leaves exactly the heap that release produced, with only its own link cleared; in every case the block being torn down stays in the heap with its header intact, so the destructor is read after the finalizer returns, no callback changes, and every other block being torn down is left as it was |
| Refc.AliveShrinks | src/lib/refc.c:85-86 | driving a block's count below one takes exactly that block out of the living ones, so one fewer is alive: the measure that makes a cascade of releases finite |
| RefcProperties.ReleaseNotLast | src/lib/refc.c:84-86 | when the count stays at one or more, release emits no event, keeps the block, and changes only its count, which drops by one |
| RefcProperties.ReleaseLastQuiet | src/lib/refc.c:86-91 | the last release of a block whose finalizer releases nothing emits the finalizer on the payload (if set) and then exactly one destructor call on the header, and removes only that block |
| RefcProperties.ReleaseLastOrder | src/lib/refc.c:86-91 | any successful last release, cascade included: the first event is the block's finalizer on its payload (when set), the last is its destructor on its header, and the block is gone |
| RefcProperties.ReleaseLastUnfold | src/lib/refc.c:85-91 | a successful last release is the finalizer step followed by one destructor call on the header; the destructor is the block's own, read after the finalizer, and the block is dropped |
| RefcProperties.FinalizeSharedLink | src/tests/refc.c:23-26 | a `node_finalize`-style finalizer whose linked node has other owners releases it exactly once: that node survives with one owner fewer, nothing else is logged or changed, and the link is cleared |
| RefcProperties.ReleaseFaults | src/lib/refc.c:82-86 | release of a pointer with no block, or of a block already being torn down, is reported as a fault rather than given a meaning |
| RefcProperties.ReleaseAccounting | src/lib/refc.c:82-92 | over any successful release, cascade included: the headers destroyed are exactly the blocks that disappeared, once each; the blocks finalized are exactly those of them with a finalizer, once each; no finalizer runs after its block's destructor |
| RefcProperties.FinalizeAccounting | src/lib/refc.c:87-89 | the finalizer step finalizes the block being torn down once (if it has a finalizer) and does not destroy it; everything else it finalizes or destroys is exactly what disappears, once each |
| RefcProperties.DestroyAccounting | src/lib/refc.c:90 | the destructor call on the header, together with the block's removal, completes the exactly-once accounting of the finalizer step |
| RefcProperties.EventsFromAppend | src/lib/refc.c:87-90 | events that each come from the heap's stored callbacks still do when concatenated |
| RefcProperties.ReleaseEventsFrom | src/lib/refc.c:87-90 | every destructor and finalizer a successful release invokes, cascade included, is the one stored in the block it is invoked on, as the heap stood when the release began |
| RefcProperties.FinalizeEventsFrom | src/lib/refc.c:87-89 | the finalizer step invokes only the finalizer stored in its block, and callbacks stored in the heap it started from |
| RefcProperties.AllocReleaseRoundTrip | src/lib/refc.c:66-71 | allocating and releasing once gives back the original heap; the finalizer (if any) runs on the payload, then the given destructor or `free` runs on the header |
| RefcProperties.ReleaseUndoesRetain | src/lib/refc.c:55-59 | a release right after a retain gives back the original heap and emits nothing |
| RefcProperties.RetainUndoesRelease | src/lib/refc.c:84-86 | a retain right after a release that was not the last gives back the original heap |
| RefcProperties.SetFinalizerUsedAtRelease | src/lib/refc.c:123-127 | for any finalizer installed last: a successful destroying release invokes it first, and the unchanged destructor last; when the new finalizer releases nothing, the whole log and the resulting heap are known |
| RefcProperties.SetDestructorUsedAtRelease | src/lib/refc.c:106-110 | for any destructor installed last: a successful destroying release invokes it last, after the unchanged finalizer, and a null one means the release never succeeds; when the finalizer releases nothing, the whole outcome is known, the null call being the fault |
| RefcProperties.SettersOverwrite | src/lib/refc.c:106-127 | a later call of a setter overrides an earlier one, and the two setters commute |
| RefcProperties.RetainTimes | src/lib/refc.c:55-59 | n retains raise the count by exactly n and change nothing else |
| RefcProperties.ReleaseTimesQuiet | src/lib/refc.c:84-86 | while more than n owners remain, n releases emit nothing and lower the count by exactly n |
| RefcProperties.AllocRetainsReleases | src/lib/refc.c:66-71 | after allocation and n retains, the first n releases emit nothing and restore the freshly allocated block; release number n + 1 emits the finalizer/destructor pair and restores the heap from before the allocation |
| RefcTests.NodeInit | src/tests/refc.c:15-18 | the node's link is cleared and nothing else changes |
| RefcTests.NodeAppend | src/tests/refc.c:34-36 | the node links to the given node without retaining it, and nothing else changes |
| RefcTests.NumFinalized | src/tests/refc.c:20-23 | the counter never exceeds the number of events, and it is zero exactly when no counting finalizer ran |
| RefcTests.NumFreed | src/tests/refc.c:29-32 | the counter never exceeds the number of events, and it is zero exactly when `node_free` never ran |
| RefcTests.CountersAppend | src/tests/refc.c:7-8 | the counters add up over consecutive stretches of events |
| RefcTests.CountersOne | src/tests/refc.c:22 | each call of `node_finalize`/`debug_finalize` adds one to `num_finalized`; each call of `node_free` adds one to `num_freed`; any other event adds nothing |
| RefcTests.FreedMatchesDestroys | src/tests/refc.c:29-32 | when `node_free` is the only destructor, `num_freed` equals the number of destructor calls |
| RefcTests.FinalizedMatchesFinalizes | src/tests/refc.c:20-27 | when every finalizer counts itself, `num_finalized` equals the number of finalizer calls |
| RefcTests.ReleaseCounters | src/tests/refc.c:20-32 | in a heap of nodes freed by `node_free` and finalized by counting finalizers, any successful release bumps `num_freed` once per block it reclaims and `num_finalized` once per reclaimed block with a finalizer |
| RefcTests.TestSingle | src/tests/refc.c:43-51 | a single node released once is finalized once and freed once, in that order, and the heap is empty again |
| RefcTests.LinkedListHeap | src/tests/refc.c:57-64 | before the releases, the root has count 1 and links to the child, and the child has count 2 |
| RefcTests.LinkedListChildSurvives | src/tests/refc.c:66 | releasing the child first emits nothing, and the child stays with count 1 |
| RefcTests.LinkedListRootFinalize | src/tests/refc.c:20-27 | in the second release of `test_linked_list`, the root's finalizer releases the child, which is finalized and freed, leaving only the root, with its own destructor |
| RefcTests.LinkedListRootCascades | src/tests/refc.c:67 | releasing the root finalizes the root, then the child, then frees the child, then the root, and leaves the heap empty |
| RefcTests.TestLinkedList | src/tests/refc.c:53-69 | the whole scenario: finalized = 2, freed = 2, and the child survives the first release |
| RefcTests.CyclicHeap | src/tests/refc.c:81-88 | before the releases, the two nodes link to each other and each has count 1, since neither link was retained |
| RefcTests.CyclicListReleaseRight | src/tests/refc.c:90 | releasing the right node finalizes and frees it, and the left node, which still links to it, is untouched |
| RefcTests.CyclicListReleaseLeft | src/tests/refc.c:91 | releasing the left node next finalizes and frees it, and the heap is empty |
| RefcTests.TestCyclicList | src/tests/refc.c:76-94 | with `debug_finalize`, each node is finalized and freed exactly once, for 2 and 2 in all, and the heap is empty again |
| RefcTests.CyclicListWithNodeFinalize | src/tests/refc.c:20-27 | with `node_finalize` on the same two linked nodes, the first release cascades back into the node being torn down: no cycle collection |

## Left out

- Real memory is not modelled: `malloc`, `free`, `sizeof`, the byte layout and the payload's size.
  - The address `malloc` returns is a parameter of `Alloc`, required to be unused.
  - Allocation failure is not modelled, because the source does not check for it.
  - The payload starts with an empty link. `malloc`'s memory is really uninitialised, but every test initialises it at once.
- C function pointers are tags, not code. A finalizer either only runs or releases the block its `next` field names, and a destructor reclaims the block it is called on. Finalizers that do anything else are not modelled.
- The node's `name` field is not modelled, because it affects nothing the allocator does.
- Concurrency is not modelled: the source is single-threaded by contract.
- Refc.Retain: the `int` overflow of unmatched retains is a precondition. Retain on a pointer that is not a live block is also a precondition, because both are undefined in C.
- Refc.SetDestructor: a pointer that is not a live block is a precondition, because this is undefined in C.
- Refc.SetFinalizer: a pointer that is not a live block is a precondition, because this is undefined in C.
- Refc.Release: the undefined outcomes (dangling pointer, re-entry into a block being torn down, null destructor) are faults. The model does not say what the C code then does.
  - In particular, a release of a block being torn down stops with `Reentered`. The count of such a block is 0. The C code instead decrements it to -1 and, because that is still below one, calls the finalizer again (`src/lib/refc.c:85-88`). Re-entry can only come through a `node_finalize`-style finalizer whose link is not yet cleared, so the C code recurses without end and never reaches a second destructor call. The model never decrements a count that is already below one.
- `src/include/refc.h` is not modelled. It holds only declarations and the `NEW`/`HOLD`/`DONE` aliases for `rc_alloc`/`retain`/`release`.
- The test harness is not modelled: `printf`, `test_preamble`, `test`, `main` and the `async/*` headers. `reset_test` is modelled by counting each scenario's events from an empty log.
