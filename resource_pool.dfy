/** ResourcePool<TResource> and its Slot handle as objects.  Each method is one
    lock body of the pool and is specified by the matching transition of
    PoolModel applied to the pool's abstract state.
 */
module ResourcePools {
  import opened PoolModel

  class ResourcePool<R> {
    const size: int
    var free: seq<Slot<R>>              // _pool, top is the last element
    var reserved: seq<Slot<R>>          // _reserved, top is the last element
    var queue: seq<nat>                 // _takeSlotQueue, head is element 0
    var resolution: map<nat, Resolution<Slot<R>>>  // what each awaiter was completed with
    var nextRequest: nat                // number of the next awaiter created
    ghost var slots: set<Slot<R>>       // every Slot this pool has created

    function State(): PoolState<Slot<R>>
      reads this
    {
      PoolState(size, free, reserved, queue, resolution, nextRequest)
    }

    /** Every slot points back to this pool, and (outside `except`) its
        return flag is set exactly when it has not been reserved. */
    ghost predicate HandlesAgree(except: set<Slot<R>>)
      reads this, slots
    {
      forall t :: t in slots ==>
        t.pool == this && (t !in except ==> (t.shouldBeReturned <==> t !in reserved))
    }

    ghost predicate Valid()
      reads this, slots
    {
      Inv(State(), slots) && HandlesAgree({})
    }

    /** Creates `size` slots and adds them one by one; the i-th slot wraps
        the resource `make(i)`. */
    constructor (size: int, make: nat -> R)
      ensures Valid() && this.size == size
      ensures reserved == [] && queue == [] && resolution == map[] && nextRequest == 0
      ensures |free| == Capacity(size) && Distinct(free) && Elems(free) == slots
      ensures forall k :: 0 <= k < |free| ==> fresh(free[k]) && free[k].resource == make(k)
    {
      this.size := size;
      free, reserved, queue, resolution, nextRequest := [], [], [], map[], 0;
      slots := {};
      new;
      ghost var created: seq<Slot<R>> := [];
      var i := 0;
      while i < size
        invariant 0 <= i <= Capacity(size) && |created| == i
        invariant Distinct(created) && Elems(created) == slots
        invariant forall k :: 0 <= k < i ==> fresh(created[k]) && created[k].resource == make(k)
        invariant State() == Build(size, created) && HandlesAgree({})
      {
        var s := new Slot(this, make(i));
        BuildStep(size, created, s);
        slots := slots + {s};
        Add(s);
        created := created + [s];
        i := i + 1;
      }
      BuildEstablishesInv(size, created);
      BuildFillsFree(size, created);
    }

    /** Returns a slot: to the oldest waiting request, or onto the free
        stack when nobody waits. */
    method Add(s: Slot<R>)
      requires Structure(State(), slots) && HandlesAgree({})
      requires IsCheckedOut(State(), slots, s)
      modifies this
      ensures State() == PoolModel.Add(old(State()), s)
      ensures slots == old(slots) && Structure(State(), slots) && HandlesAgree({})
    {
      AddPreservesStructure(State(), slots, s);
      if |queue| > 0 {
        resolution := resolution[queue[0] := Granted(s)];
        queue := queue[1..];
      } else {
        free := free + [s];
      }
    }

    /** Withdraws a slot the caller holds, whose return flag the caller has
        already cleared; at the threshold every awaiter in the queue is
        failed, the queue itself is left as it is. */
    method Reserve(s: Slot<R>)
      requires Inv(State(), slots) && HandlesAgree({s})
      requires IsCheckedOut(State(), slots, s) && !s.shouldBeReturned
      modifies this
      ensures State() == PoolModel.Reserve(old(State()), s)
      ensures slots == old(slots) && Valid()
    {
      ReservePreservesInv(State(), slots, s);
      var pushed := reserved + [s];
      var failed := resolution;
      if |pushed| >= size {
        failed := FailAwaiters(queue, resolution);
      }
      assert forall t :: t in pushed <==> t in reserved || t == s;
      reserved, resolution := pushed, failed;
    }

    /** The loop over the queue in Reserve: completes every awaiter in the
        queue with the failure, in queue order. */
    static method FailAwaiters(awaiters: seq<nat>, res: map<nat, Resolution<Slot<R>>>)
      returns (failed: map<nat, Resolution<Slot<R>>>)
      ensures failed == FailAll(res, awaiters)
    {
      failed := res;
      var i := 0;
      while i < |awaiters|
        invariant 0 <= i <= |awaiters|
        invariant failed == FailAll(res, awaiters[..i])
      {
        assert awaiters[..i + 1][..i] == awaiters[..i];
        failed := failed[awaiters[i] := Failed(PoolFullyReserved)];
        i := i + 1;
      }
      assert awaiters[..i] == awaiters;
    }

    /** The decision under the lock: fail at once when fully reserved, hand
        over the top free slot when nobody waits, queue the request
        otherwise.  `request` names the awaiter and `outcome` is what it
        holds when the lock is released (Pending: the caller awaits). */
    method TakeSlot() returns (request: nat, outcome: Resolution<Slot<R>>)
      requires Valid()
      modifies this
      ensures State() == PoolModel.TakeSlot(old(State()))
      ensures slots == old(slots) && Valid()
      ensures request == old(nextRequest) && request in resolution && outcome == resolution[request]
    {
      TakeSlotPreservesInv(State(), slots);
      request := nextRequest;
      if |reserved| >= size {
        outcome := Failed(PoolFullyReserved);
      } else if |queue| == 0 && |free| > 0 {
        outcome := Granted(free[|free| - 1]);
        free := free[..|free| - 1];
      } else {
        queue := queue + [request];
        outcome := Pending;
      }
      resolution := resolution[request := outcome];
      nextRequest := nextRequest + 1;
    }
  }

  /** The handle given to callers: a resource fixed at creation and the flag
      deciding whether disposing the handle returns the slot. */
  class Slot<R> {
    const pool: ResourcePool<R>
    var shouldBeReturned: bool
    const resource: R

    constructor (pool: ResourcePool<R>, resource: R)
      ensures this.pool == pool && this.resource == resource && shouldBeReturned
    {
      this.pool := pool;
      this.resource := resource;
      shouldBeReturned := true;
    }

    /** Withdraws the slot for good: the flag is cleared first, so a later
        Dispose does nothing. */
    method Reserve()
      requires pool.Valid() && IsCheckedOut(pool.State(), pool.slots, this)
      modifies this, pool
      ensures !shouldBeReturned
      ensures pool.State() == PoolModel.Reserve(old(pool.State()), this)
      ensures pool.slots == old(pool.slots) && pool.Valid()
    {
      shouldBeReturned := false;
      pool.Reserve(this);
    }

    /** Returns the slot to the pool if it has not been reserved; disposing
        a reserved handle changes nothing. */
    method Dispose()
      requires pool.Valid() && this in pool.slots && this !in pool.free
      modifies pool
      ensures old(shouldBeReturned) ==> pool.State() == PoolModel.Add(old(pool.State()), this)
      ensures !old(shouldBeReturned) ==> pool.State() == old(pool.State())
      ensures old(shouldBeReturned) <==> this !in old(pool.reserved)
      ensures pool.slots == old(pool.slots) && pool.Valid()
    {
      if shouldBeReturned {
        pool.Add(this);
      }
    }
  }
}
