# ResourcePool in Dafny

This project models `ResourcePool<TResource>`, a fixed-size pool of resource
slots shared by concurrent callers. It then proves properties of that model.

The pool keeps three collections:
- `_pool` is a LIFO stack of free slots.
- `_reserved` is a stack of slots withdrawn for good.
- `_takeSlotQueue` is a FIFO queue of take requests that are waiting.

A caller gets a `Slot` handle from `TakeSlot`. The caller then either disposes
the handle, which returns the slot to the pool, or calls `Reserve` on it,
which withdraws the slot permanently. Once the reserved count reaches the
pool's size, every waiting request fails with `PoolFullyReserved`, and so
does every later `TakeSlot`.

The model has two files:

- `pool_model.dfy`, module `PoolModel`: the pool as a state machine on values.
  - `PoolState` holds the size, the free stack, the reserved stack, the
    queue, a map from request number to `Resolution` (`Pending`,
    `Granted(slot)` or `Failed(PoolFullyReserved)`), and the number the next
    request will get.
  - Each lock body of the source is one function: `Add`, `Reserve` (with
    `FailAll` for its loop over the queue) and `TakeSlot`.
  - The constructor is `Build`: it calls `Add` on each new slot in turn.
  - `Run` applies any sequence of operations. `Legal` and `LegalRun` say
    which sequences callers may issue.
  - The invariant is `Inv`. `Structure` is the same invariant without the
    slot count; it holds while the constructor runs.
  - Stacks are sequences whose top is the last element. The head of the
    queue is element 0.
  - A request is a number, handed out in arrival order. It stands for the
    source's `TaskCompletionSource`.
- `resource_pool.dfy`, module `ResourcePools`: the source's classes.
  - Class `ResourcePool<R>` has the three collections as `seq` fields, plus
    the resolution map and the request counter.
  - Class `Slot<R>` has the back pointer `pool`, the mutable flag
    `shouldBeReturned` and the constant `resource`. This constant is also
    the source's read-only `Resource` accessor.
  - Each method's postcondition equates the new abstract state with the
    matching `PoolModel` function applied to the old state.
  - The ghost field `slots` records every slot the pool has created. A
    checked-out slot is one in `slots` that is in neither stack.

## Model

| member | source | states |
|---|---|---|
| `ResourcePools.ResourcePool.constructor` | ResourcePool/ResourcePool.cs:52-59 | The constructor creates max(size, 0) fresh, distinct slots, and the i-th slot wraps resource `make(i)`. Adding each one while nobody waits leaves them all on the free stack, in creation order, with nothing reserved and no request made. The new pool satisfies the invariant. |
| `ResourcePools.ResourcePool.Add` | ResourcePool/ResourcePool.cs:61-74 | Returning a checked-out slot changes the state exactly as `PoolModel.Add` says. It keeps the pool's structure and the handle flags. |
| `ResourcePools.ResourcePool.Reserve` | ResourcePool/ResourcePool.cs:76-90 | Reserving a checked-out slot whose flag is already cleared changes the state exactly as `PoolModel.Reserve` says. The invariant and the flags then agree again. |
| `ResourcePools.ResourcePool.FailAwaiters` | ResourcePool/ResourcePool.cs:84-87 | The `foreach` loop over the queue leaves the resolution map as `FailAll` of the queue: every queued awaiter has failed, in queue order. |
| `ResourcePools.ResourcePool.TakeSlot` | ResourcePool/ResourcePool.cs:92-110 | The locked decision changes the state as `PoolModel.TakeSlot` says and keeps the invariant. It returns the new request's number and its outcome when the lock is released (`Pending` means the caller must wait). |
| `ResourcePools.Slot.constructor` | ResourcePool/ResourcePool.cs:22-32 | A new handle points to its pool, wraps the given resource, and starts with the return flag set. |
| `ResourcePools.Slot.Reserve` | ResourcePool/ResourcePool.cs:37-41 | For a checked-out handle: the flag is cleared, then the pool's reserve transition runs. The pool stays valid. |
| `ResourcePools.Slot.Dispose` | ResourcePool/ResourcePool.cs:43-49 | For a handle that is not free: if the flag is set, which is exactly when the slot is not reserved, the slot is returned through `Add`. Disposing a reserved handle leaves the pool unchanged. |
| `PoolModel.Add` | ResourcePool/ResourcePool.cs:61-74 | Returning a slot never changes the size, the reserved stack or the request counter. Where the slot goes is stated by `AddServesOldestWaiter` and `AddWithoutWaitersIsTakenNext`. |
| `PoolModel.Reserve` | ResourcePool/ResourcePool.cs:76-90 | Reserving pushes the slot onto the reserved stack and leaves the size, the free stack, the queue and the request counter as they were. A request outside the queue keeps its resolution. |
| `PoolModel.TakeSlot` | ResourcePool/ResourcePool.cs:95-110 | A take request gets the next request number and is always given a resolution. The counter goes up by one, the size and the reserved stack do not change, and every earlier request keeps its resolution. The free stack can only lose slots from its top and the queue can only grow at its tail. |
| `PoolModel.FailAll` | ResourcePool/ResourcePool.cs:84-87 | The requests in the given queue now map to `Failed(PoolFullyReserved)`, and every other request keeps its resolution. |
| `PoolModel.Conservation` | ResourcePool/ResourcePool.cs:14-20 | Under the invariant: the numbers of free, reserved and checked-out slots add up to the number of slots the pool created. |
| `PoolModel.NotFullWhileCheckedOut` | ResourcePool/ResourcePool.cs:82-87 | While any caller holds a slot, the pool is below the reservation threshold, and every queued request is still pending. |
| `PoolModel.FullyReservedHoldsEverything` | ResourcePool/ResourcePool.cs:82-87 | Once the reserved count reaches the size, every slot is reserved. No slot is free and none is checked out. |
| `PoolModel.BuildFillsFree` | ResourcePool/ResourcePool.cs:52-59 | Adding n slots one by one to an empty pool puts exactly those slots on the free stack, in order. Nothing is reserved, queued or requested. |
| `PoolModel.BuildStructure` | ResourcePool/ResourcePool.cs:55-58 | At every point of construction the pool keeps its structure. |
| `PoolModel.BuildStep` | ResourcePool/ResourcePool.cs:55-58 | One iteration of the constructor: a slot not yet created is checked out with respect to the enlarged slot set, and adding it is the next step of `Build`. |
| `PoolModel.BuildEstablishesInv` | ResourcePool/ResourcePool.cs:52-59 | A pool built from `size` distinct slots holds them all as free slots, with empty reserved stack and queue, and satisfies the invariant. |
| `PoolModel.TakeSlotWhenFullyReserved` | ResourcePool/ResourcePool.cs:97-99 | When the reserved count is at least the size, the request fails with `PoolFullyReserved`. The size, free stack, reserved stack, queue and every other request are unchanged. |
| `PoolModel.TakeSlotPopsTop` | ResourcePool/ResourcePool.cs:101-104 | With nobody waiting and a slot free, the request gets the top of the free stack. Only that slot leaves the stack. The size, reserved stack and every other request are unchanged. |
| `PoolModel.TakeSlotEnqueues` | ResourcePool/ResourcePool.cs:106-108 | Otherwise, below the threshold, the request waits at the tail of the queue. The size, both stacks and every other request are unchanged. |
| `PoolModel.TakeSlotGrantsOnlyWithoutWaiters` | ResourcePool/ResourcePool.cs:101-102 | A request is handed a slot at once only if no earlier request is still waiting. No newcomer overtakes a waiter. |
| `PoolModel.TakeSlotThenAddRestores` | ResourcePool/ResourcePool.cs:101-104 | Taking a slot and returning it restores the free stack, the reserved stack and the queue. Pop and push are inverse operations (LIFO reuse). |
| `PoolModel.TakeSlotPreservesInv` | ResourcePool/ResourcePool.cs:95-110 | Every take request keeps the invariant. |
| `PoolModel.TakeSlotsPopFree` | ResourcePool/ResourcePool.cs:101-104 | With nobody waiting and below the threshold, n requests in a row get the n top free slots from the top down. They carry consecutive request numbers. |
| `PoolModel.FreshPoolServesEachSlotOnce` | ResourcePool/ResourcePool.cs:52-108 | A new pool with size > 0 serves `size` requests in a row with `size` different slots, the last one created first. The next request waits, alone in the queue. |
| `PoolModel.AddServesOldestWaiter` | ResourcePool/ResourcePool.cs:65-68 | Returning a held slot while requests wait grants it to the oldest pending request, which is the head of the queue. That request leaves the queue. The free stack and every other request are unchanged. |
| `PoolModel.AddWithoutWaitersIsTakenNext` | ResourcePool/ResourcePool.cs:69-72 | With nobody waiting, a returned slot goes on top of the free stack, and the next request gets exactly that slot. |
| `PoolModel.AddPreservesStructure` | ResourcePool/ResourcePool.cs:61-74 | Returning a checked-out slot keeps the pool's structure, also during construction. |
| `PoolModel.AddPreservesInv` | ResourcePool/ResourcePool.cs:61-74 | Returning a checked-out slot keeps the invariant. |
| `PoolModel.ServedInArrivalOrder` | ResourcePool/ResourcePool.cs:65-68 | When k slots are returned while at least k requests wait, the i-th returned slot goes to the i-th queued request. The queue loses exactly its first k entries, the free stack is untouched, and every other request is unchanged. |
| `PoolModel.ReserveAtThresholdFailsQueue` | ResourcePool/ResourcePool.cs:80-87 | A reservation that brings the reserved count to the size pushes the slot and fails every queued request. The failed requests stay in the queue, and requests outside the queue are unchanged. |
| `PoolModel.ReserveBelowThreshold` | ResourcePool/ResourcePool.cs:80-82 | Below the threshold, a reservation only pushes the slot on the reserved stack. No request is touched. |
| `PoolModel.ReservePreservesInv` | ResourcePool/ResourcePool.cs:76-90 | Reserving a checked-out slot keeps the invariant. |
| `PoolModel.StepPreservesInv` | ResourcePool/ResourcePool.cs:61-110 | Every legal operation keeps the invariant. |
| `PoolModel.RunPreservesInv` | ResourcePool/ResourcePool.cs:61-110 | After any legal run, the invariant holds and slots are conserved. Also, whenever a slot is free, no request is pending. |
| `PoolModel.ReservedOnlyGrows` | ResourcePool/ResourcePool.cs:76-90 | In any run, the old reserved stack is a prefix of the new one and the size does not change. A reservation is never undone. |
| `PoolModel.FullyReservedIsTerminal` | ResourcePool/ResourcePool.cs:97-99 | Once fully reserved, after any run whatever, a new request fails at once and is not queued. |
| `PoolModel.StepKeepsDecided` | ResourcePool/ResourcePool.cs:65-108 | A legal operation never changes a request that has been granted or failed. |
| `PoolModel.DecidedStaysDecided` | ResourcePool/ResourcePool.cs:61-110 | In any legal run, a decided request keeps its decision: a granted slot or a reported failure is never replaced. |
| `PoolModel.StepCompletesOnlyWaiting` | ResourcePool/ResourcePool.cs:61-110 | `Completes` lists the awaiters a lock body completes: the dequeued head in `Add`, every queued awaiter at the threshold in `Reserve`, and the new awaiter when `TakeSlot` decides it at once. In a legal step, each of these was pending or new, and each is decided afterwards. Every other request keeps its resolution. |
| `PoolModel.CompletedAtMostOnce` | ResourcePool/ResourcePool.cs:61-110 | In any legal run each awaiter is completed at most once, and an awaiter decided before the run is never completed again. So no `SetResult` or `SetException` reaches an awaiter that is already completed. |

## Left out

- The `async` method and its `await` on the task (lines 92 and 112) are not modelled. A request is a number, and its result is the entry in the resolution map, which later operations fill in.
- The `lock` statements (lines 63, 78 and 95) are not modelled, nor any interleaving. Each lock body is a single atomic step.
- `new TResource()` (line 31) calls foreign code. The pool's constructor instead takes a function `make`, and the i-th slot's resource is `make(i)`.
- .NET exception objects (`PoolFullyReservedException`, lines 7-9) become the tagged value `Failed(PoolFullyReserved)`.
- .NET throws when `SetResult` or `SetException` is called on an awaiter that is already completed. That throw is not modelled. `CompletedAtMostOnce` proves that no legal run gets there. It counts completions through `Completes`, which lists the awaiters that each lock body passes to `SetResult` or `SetException`. Because resolutions are values, completing an already failed awaiter with the same failure leaves the map unchanged; the count in `Completes` is what rules that case out.
- Repeated `Reserve` or `Dispose` on one handle is excluded by preconditions. The source has no guard. `Slot.Reserve` needs a checked-out slot, and `Slot.Dispose` needs a slot that is not free.
- Use of a handle after its slot has been passed to a waiter is not modelled. The model tracks which slots are checked out, not which caller holds each one, so a late `Dispose` from the previous holder looks the same as one from the new holder.
- `size` and the collection counts are `Int32` in the source; here they are unbounded. `_pool` and `_reserved` never hold more than `size` slots (`Conservation`), so their counts cannot wrap. `_takeSlotQueue` (lines 19 and 108) and the request counter have no bound in the model. In .NET the queue is bounded only by memory, because a `Queue` cannot hold `Int32.MaxValue` entries.
- `Slot`'s constructor is public (line 28), so a caller can create a `Slot` for a pool that the pool never made. The model admits only the pool's own slots: `Slot.Reserve` and `Slot.Dispose` require `this in pool.slots`. In the source, disposing such a foreign slot pushes it onto `_pool` beyond `size` or hands it to a waiter. Reserving one can reach the threshold while real slots are still checked out. That fails the queued awaiters, and a later `Add` of a real slot then calls `SetResult` on a failed awaiter, which throws.
