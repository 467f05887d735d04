# SimpleDB basic buffer manager, modelled in Dafny

This project models `BasicBufferMgr`, the buffer-pool manager of SimpleDB.
The manager keeps a fixed array of buffers, a hash map from each disk block
to the buffer holding it, and a count of unpinned buffers. `pin` reuses the
buffer that already holds a block. Otherwise it loads the block into the
first unpinned buffer and re-keys that buffer in the map. `pinNew` does the
same for a block freshly appended to a file. `unpin` releases a pin, and
`flushAll` writes back the buffers a transaction modified.

The model is a pure state machine:

- `Slots` (`slots.dfy`): the `Block` value and a `Slot`. A slot is the part
  of a `Buffer` the manager sees: its pin count, its assigned block and the
  transaction that last modified its page.
- `BufferPool` (`buffer_pool.dfy`): the `Pool` state, the class invariant
  `Valid`, and one function per operation and private helper. A Java `null`
  result is `None`. A failed call hands back no new state, so the caller's
  state is unchanged by construction.
- `PoolLemmas` (`pool_lemmas.dfy`): what each operation does to slots, map
  and counter, and that each preserves `Valid`.
- `PoolRuns` (`pool_runs.dfy`): sequences of calls, interleaved with
  transactions marking the pages they hold pinned as modified. The invariant
  holds after any run from the constructor. This module also has the
  fill / exhaust / free / reuse behaviour, in general and for a three-slot
  pool.

`Valid` states three things:

- every key `b ↦ i` names a slot `i` that holds `b`;
- every assigned slot is the target of its own block's key;
- `numAvailable` equals the number of unpinned slots.

Injectivity of the map follows from these (`ValidFacts`). So does "a slot is
assigned iff it is a map value".

A buffer object is identified by its index in the pool, so map values are
indices and `unpin` takes an index. `Buffer`, `Block`, `FileMgr`, `LogMgr`
and `PageFormatter` are not part of this model. The model takes their effect
on a slot as follows:

- `assignToBlock` and `assignToNew` write the old page back, which clears the
  modification mark, and then record the new block;
- `pin` and `unpin` move the pin count by one;
- `isPinned` means a pin count above 0;
- `flush` clears the modification mark;
- `isModifiedBy(tx)` means the mark equals `tx`;
- a transaction's `setModified` on a buffer it holds pinned sets the mark to
  that transaction.

The operations that need the class invariant (`Available`, `Pin`, `PinNew`,
`FindExistingBuffer`, `Reassign`) take `Valid(p)` as a precondition. The Java
fields are private and every constructor establishes it.

Three details of the code shape the model:

- `flushAll` tests only `isModifiedBy(txnum)`; there is no separate dirty
  flag.
- `unpin` has no guard against a buffer that is already unpinned. The model
  excludes that call (see "Left out").
- `pinNew` decrements `numAvailable` unconditionally, while `pin` decrements
  it only for a previously unpinned buffer. Both are proved to keep the
  counter exact (`PinKeepsValid`, `PinNewKeepsValid`).

## Model

| member | source | states |
|---|---|---|
| BufferPool.Init | simpledb/buffer/BasicBufferMgr.java:37-47 | `numbuffs` unpinned, unassigned slots, an empty map, `numAvailable == numbuffs`, and the invariant holds |
| BufferPool.Available | simpledb/buffer/BasicBufferMgr.java:153-155 | on a valid pool the returned counter is exactly the number of unpinned slots, between 0 and the pool size |
| BufferPool.FindExistingBuffer | simpledb/buffer/BasicBufferMgr.java:157-175 | a hit names a slot that really holds the block; a miss means no slot holds it |
| BufferPool.ChooseUnpinnedBuffer | simpledb/buffer/BasicBufferMgr.java:177-182 | first fit: the result is unpinned and every lower slot is pinned; `None` only when every slot is pinned |
| BufferPool.GetExistingBlockForBuffer | simpledb/buffer/BasicBufferMgr.java:184-200 | the result is a key mapped to the slot; `None` only when no key maps to it |
| BufferPool.UpdateMap | simpledb/buffer/BasicBufferMgr.java:203-210 | the old key is gone, the block the slot now holds maps to the slot, and every other key keeps its value |
| BufferPool.Reassign | simpledb/buffer/BasicBufferMgr.java:86-97 | the victim holds the new block, the new block maps to the victim, the victim's old key is dropped, other keys keep their values, the counter is untouched |
| BufferPool.Pin | simpledb/buffer/BasicBufferMgr.java:78-103 | fails iff the block is not held and every slot is pinned; on success the returned slot holds the block, is pinned, and the block maps to it |
| BufferPool.PinNew | simpledb/buffer/BasicBufferMgr.java:115-137 | fails iff every slot is pinned; on success the returned slot holds the new block with exactly one pin and the block maps to it |
| BufferPool.Unpin | simpledb/buffer/BasicBufferMgr.java:143-147 | one pin fewer on that slot, nothing else changes, the counter rises by one iff the slot becomes unpinned |
| BufferPool.FlushAll | simpledb/buffer/BasicBufferMgr.java:53-67 | map, counter, pins and blocks unchanged; only assigned slots modified by `tx` change, each of those becomes clean, and afterwards no assigned slot is modified by `tx` |
| PoolLemmas.ValidFacts | simpledb/buffer/BasicBufferMgr.java:18-22 | under the invariant the map is injective, a slot is assigned iff it is a map value, and the counter lies in 0..pool size |
| PoolLemmas.CountsPartition | simpledb/buffer/BasicBufferMgr.java:22 | unpinned plus pinned slots make up the whole pool |
| PoolLemmas.ChooseSucceedsIffAvailable | simpledb/buffer/BasicBufferMgr.java:177-182 | on a valid pool victim selection succeeds iff `available()` is positive |
| PoolLemmas.ReverseLookupIsSlotBlock | simpledb/buffer/BasicBufferMgr.java:184-200 | the reverse lookup through the map returns exactly the block the slot records as assigned |
| PoolLemmas.FirstHoldingFrom | simpledb/buffer/BasicBufferMgr.java:158-163 | the slot-scan lookup (kept in a comment in the source) returns the first slot holding the block, or `None` if none does |
| PoolLemmas.FindExistingMatchesSlotScan | simpledb/buffer/BasicBufferMgr.java:157-175 | on a valid pool the map lookup gives the same answer as the slot scan |
| PoolLemmas.ReassignKeepsMapping | simpledb/buffer/BasicBufferMgr.java:86-97 | loading a block no slot holds keeps every key pointing at its holder and every holder keyed, and does not change the unpinned count |
| BufferPool.PinAt | simpledb/buffer/BasicBufferMgr.java:99-101 | slot `i` gets one more pin, other slots and the map are unchanged, and the counter is one lower exactly when slot `i` was unpinned |
| PoolLemmas.PinAtKeepsValid | simpledb/buffer/BasicBufferMgr.java:99-101 | decrementing the counter only for a previously unpinned slot keeps it exact |
| PoolLemmas.PinHit | simpledb/buffer/BasicBufferMgr.java:78-102 | a hit returns the block's own slot with one more pin, the map and the other slots unchanged, and the counter one lower iff the slot was unpinned |
| PoolLemmas.PinFailsIffExhausted | simpledb/buffer/BasicBufferMgr.java:81-85 | `pin` fails iff the block is not held and `available()` is 0 |
| PoolLemmas.PinMiss | simpledb/buffer/BasicBufferMgr.java:83-101 | a miss loads the block into the lowest unpinned slot with one pin, drops that slot's old key, adds the new one, keeps other keys and slots, and lowers the counter by one |
| PoolLemmas.PinKeepsValid | simpledb/buffer/BasicBufferMgr.java:78-102 | `pin` preserves the invariant |
| PoolLemmas.PinHitThenUnpinRestores | simpledb/buffer/BasicBufferMgr.java:143-147 | unpinning the slot a hit pinned gives back exactly the pool before the hit |
| PoolLemmas.PinNewResult | simpledb/buffer/BasicBufferMgr.java:115-137 | `pinNew` fails iff `available()` is 0; otherwise the new block sits in the lowest unpinned slot with one pin, that slot's old key is replaced, all else is kept, and the counter is one lower |
| PoolLemmas.PinNewKeepsValid | simpledb/buffer/BasicBufferMgr.java:118-136 | `pinNew`, with its unconditional decrement, preserves the invariant |
| PoolLemmas.UnpinKeepsValid | simpledb/buffer/BasicBufferMgr.java:143-147 | `unpin` of a pinned slot preserves the invariant |
| PoolLemmas.FlushAllKeepsValid | simpledb/buffer/BasicBufferMgr.java:53-67 | `flushAll` preserves the invariant |
| PoolLemmas.FlushAllIdempotent | simpledb/buffer/BasicBufferMgr.java:60-66 | flushing the same transaction twice equals flushing it once |
| PoolLemmas.FlushPoolScan | simpledb/buffer/BasicBufferMgr.java:55-57 | the whole-pool flush (kept in a comment in the source) leaves no slot modified by `tx` and changes no map, counter or pool size |
| PoolLemmas.FlushAllMatchesPoolScan | simpledb/buffer/BasicBufferMgr.java:55-66 | when unassigned slots are clean, flushing the map's values equals flushing the whole pool |
| PoolRuns.Step | simpledb/buffer/BasicBufferMgr.java:53-147 | any one call, or a transaction marking a pinned page modified, keeps a valid pool valid and its size; it keeps every pinned slot assigned, and then also keeps unassigned slots clean |
| PoolRuns.Run | simpledb/buffer/BasicBufferMgr.java:53-147 | any sequence of such calls keeps a valid pool valid and its size; it keeps every pinned slot assigned, and then also keeps unassigned slots clean |
| PoolRuns.AvailableAfterAnyRun | simpledb/buffer/BasicBufferMgr.java:42 | after any sequence of calls on a fresh pool of `n` slots, `available()` is `n` minus the number of pinned slots |
| PoolRuns.FlushAllMatchesPoolScanAfterAnyRun | simpledb/buffer/BasicBufferMgr.java:55-66 | on every reachable pool, including those with modified pages, the map-based flush and the whole-pool flush agree |
| PoolRuns.ModifiedPageIsFlushed | simpledb/buffer/BasicBufferMgr.java:53-67 | after pinning a block and marking it modified by `tx`, `flushAll(tx)` changes the pool and leaves that page clean, while flushing another transaction changes nothing |
| PoolRuns.FillThenExhaust | simpledb/buffer/BasicBufferMgr.java:78-102 | pinning `n` distinct blocks on `n` fresh slots puts block `j` in slot `j`, leaves 0 available, and refuses one more distinct block |
| PoolRuns.ReuseFreedSlot | simpledb/buffer/BasicBufferMgr.java:83-147 | on a full pool, unpinning slot `k` frees one slot, and pinning a new block reuses slot `k`, retiring its old key |
| PoolRuns.FreeThenReuse | simpledb/buffer/BasicBufferMgr.java:83-147 | the same, after filling a fresh pool by a run of `pin` calls |
| PoolRuns.ThreeSlotsFill | simpledb/buffer/BasicBufferMgr.java:78-102 | three slots: B1, B2, B3 land in slots 0, 1, 2, nothing is available, B4 is refused |
| PoolRuns.ThreeSlotsReuse | simpledb/buffer/BasicBufferMgr.java:83-147 | then unpinning slot 1 makes one slot available, and B4 reuses slot 1: the map becomes {B1↦0, B4↦1, B3↦2} with nothing available |

## Left out

- Disk and log I/O is not modelled: reading and writing pages, forcing the log, formatting a new page and appending a block. `Buffer`, `FileMgr`, `LogMgr` and `PageFormatter` are not part of this model; only their effect on a slot's block, pin count and modification mark is kept.
- I/O exceptions raised part-way through `pin`, `pinNew` or `flushAll` are not modelled; every call either fails before changing anything or completes.
- `pinNew` receives the appended block as its parameter `newBlk` and requires that no key already names it. The file manager's append is outside the model.
- `synchronized` and all concurrency are not modelled; each call is one atomic transition.
- The debug output and the `try`/`catch` around it (lines 62, 80, 117, 166-170, 186, 198, 205) have no effect on state and are dropped.
- `HashMap` internals and iteration order are not modelled. `GetExistingBlockForBuffer` returns the unique key mapped to the slot, which the map's injectivity guarantees.
- Unpin: calling `unpin` on an unpinned buffer is excluded by a precondition. The source would decrement the pin count below zero and bump `numAvailable` again.
- Init: a negative `numbuffs` (a Java exception) is excluded by the parameter type `nat`.
- Pin counts and `numAvailable` are Java `int`s; their 32-bit overflow is not modelled.
- Page contents and log sequence numbers are not modelled. `Buffer.setModified` is kept only as its effect on the modification mark (the `ModifyOp` step of a run); the log sequence number it records is dropped.
- `Run` skips calls the model excludes: an `unpin` of an unpinned slot, a `pinNew` whose block is already held, or a modification mark on a slot that is not pinned.
