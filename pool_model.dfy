/** The state machine behind ResourcePool<TResource>: every lock-protected body
    (Add, Reserve, the decision part of TakeSlot) is one atomic transition on a
    PoolState.  Slots are values of the type parameter S; the classes in
    resource_pool.dfy instantiate S with their Slot objects.

    Stacks are sequences whose top is the LAST element; the queue of waiting
    requests is a sequence whose head is element 0.  A request is a number,
    given out in arrival order, and what it has come to is kept in the map
    `resolution`.
 */
module PoolModel {

  /** The only error the pool reports. */
  datatype PoolError = PoolFullyReserved

  /** What a take request has come to. */
  datatype Resolution<S> = Pending | Granted(slot: S) | Failed(error: PoolError)

  datatype PoolState<S> = PoolState(
    size: int,                            // the size given at construction
    free: seq<S>,                         // stack of free slots
    reserved: seq<S>,                     // stack of slots withdrawn for good
    queue: seq<nat>,                      // waiting requests, oldest first
    resolution: map<nat, Resolution<S>>,  // every request made so far
    nextRequest: nat)                     // the number the next request gets

  /** How many slots a pool of the given size holds: the constructor's loop
      runs zero times for a size that is not positive. */
  function Capacity(size: int): nat
  {
    if size < 0 then 0 else size
  }

  function Empty<S>(size: int): PoolState<S>
  {
    PoolState(size, [], [], [], map[], 0)
  }

  // ---------------------------------------------------------------------
  // The three transitions

  /** Returning a slot: the oldest waiting request gets it; with nobody
      waiting it goes on top of the free stack. */
  function Add<S>(st: PoolState<S>, s: S): (r: PoolState<S>)
    ensures r.size == st.size && r.reserved == st.reserved && r.nextRequest == st.nextRequest
  {
    if |st.queue| > 0 then
      st.(queue := st.queue[1..], resolution := st.resolution[st.queue[0] := Granted(s)])
    else
      st.(free := st.free + [s])
  }

  /** Marks every request of `q` as failed; nothing else changes. */
  function FailAll<S>(res: map<nat, Resolution<S>>, q: seq<nat>): (r: map<nat, Resolution<S>>)
    ensures r.Keys == res.Keys + Elems(q)
    ensures forall id :: id in r ==> r[id] == if id in q then Failed(PoolFullyReserved) else res[id]
  {
    if q == [] then res
    else FailAll(res, q[..|q| - 1])[q[|q| - 1] := Failed(PoolFullyReserved)]
  }

  /** Withdrawing a slot for good.  When this brings the reserved count to
      the size, every request in the queue is failed; the failed requests
      stay in the queue. */
  function Reserve<S>(st: PoolState<S>, s: S): (r: PoolState<S>)
    ensures r.size == st.size && r.free == st.free && r.queue == st.queue && r.nextRequest == st.nextRequest
    ensures r.reserved == st.reserved + [s]
    ensures forall id :: id in st.resolution && id !in st.queue ==> id in r.resolution && r.resolution[id] == st.resolution[id]
  {
    var pushed := st.(reserved := st.reserved + [s]);
    if |pushed.reserved| >= st.size then
      pushed.(resolution := FailAll(st.resolution, st.queue))
    else
      pushed
  }

  /** A new take request, numbered st.nextRequest, decided at once: it fails
      when the pool is fully reserved, takes the top of the free stack when
      nobody waits, and joins the tail of the queue otherwise. */
  function TakeSlot<S>(st: PoolState<S>): (r: PoolState<S>)
    ensures r.size == st.size && r.reserved == st.reserved && r.nextRequest == st.nextRequest + 1
    ensures st.nextRequest in r.resolution
    ensures forall id :: id in st.resolution && id != st.nextRequest ==> id in r.resolution && r.resolution[id] == st.resolution[id]
    ensures r.free <= st.free && st.queue <= r.queue
  {
    var id := st.nextRequest;
    if |st.reserved| >= st.size then
      st.(resolution := st.resolution[id := Failed(PoolFullyReserved)], nextRequest := id + 1)
    else if |st.queue| == 0 && |st.free| > 0 then
      st.(free := st.free[..|st.free| - 1],
          resolution := st.resolution[id := Granted(st.free[|st.free| - 1])],
          nextRequest := id + 1)
    else
      st.(queue := st.queue + [id], resolution := st.resolution[id := Pending], nextRequest := id + 1)
  }

  /** The constructor: `Add` of each new slot in turn, starting empty. */
  function Build<S>(size: int, ss: seq<S>): (r: PoolState<S>)
  {
    if ss == [] then Empty(size) else Add(Build(size, ss[..|ss| - 1]), ss[|ss| - 1])
  }

  // ---------------------------------------------------------------------
  // Runs of operations, as callers issue them against one pool

  datatype Op<S> = TakeSlotOp | AddOp(slot: S) | ReserveOp(slot: S)

  function Step<S>(st: PoolState<S>, op: Op<S>): PoolState<S>
  {
    match op
    case TakeSlotOp => TakeSlot(st)
    case AddOp(s) => Add(st, s)
    case ReserveOp(s) => Reserve(st, s)
  }

  function Run<S>(st: PoolState<S>, ops: seq<Op<S>>): PoolState<S>
    decreases |ops|
  {
    if ops == [] then st else Run(Step(st, ops[0]), ops[1..])
  }

  /** `n` take requests, one after the other. */
  function TakeSlots<S>(st: PoolState<S>, n: nat): PoolState<S>
  {
    if n == 0 then st else TakeSlot(TakeSlots(st, n - 1))
  }

  /** The given slots returned one after the other. */
  function AddAll<S>(st: PoolState<S>, ss: seq<S>): PoolState<S>
    decreases |ss|
  {
    if ss == [] then st else AddAll(Add(st, ss[0]), ss[1..])
  }

  // ---------------------------------------------------------------------
  // The invariant

  ghost function Elems<T>(s: seq<T>): set<T>
  {
    set x | x in s
  }

  ghost predicate Distinct<T>(s: seq<T>)
  {
    forall i, j :: 0 <= i < j < |s| ==> s[i] != s[j]
  }

  /** In a caller's hands: one of the pool's slots, neither free nor reserved. */
  ghost predicate IsCheckedOut<S>(st: PoolState<S>, slots: set<S>, s: S)
  {
    s in slots && s !in st.free && s !in st.reserved
  }

  ghost function CheckedOut<S>(st: PoolState<S>, slots: set<S>): set<S>
  {
    set s | s in slots && IsCheckedOut(st, slots, s)
  }

  /** Everything the pool keeps true, except how many slots there are. */
  ghost predicate Structure<S>(st: PoolState<S>, slots: set<S>)
  {
    // every slot is in at most one of the two stacks, and at most once
    && Distinct(st.free) && Distinct(st.reserved)
    && (forall s :: s in st.free ==> s in slots && s !in st.reserved)
    && (forall s :: s in st.reserved ==> s in slots)
    // a free slot means nobody is waiting
    && (|st.free| > 0 ==> st.queue == [])
    // the queue is in arrival order and holds requests already made
    && (forall i, j :: 0 <= i < j < |st.queue| ==> st.queue[i] < st.queue[j])
    && (forall k :: 0 <= k < |st.queue| ==> st.queue[k] < st.nextRequest)
    && (forall id: nat :: id in st.resolution <==> id < st.nextRequest)
    // queued requests wait until the pool becomes fully reserved, and are
    // failed from then on
    && (forall k :: 0 <= k < |st.queue| ==>
          if |st.reserved| < st.size then st.resolution[st.queue[k]].Pending?
          else st.resolution[st.queue[k]].Failed?)
    // a request that still waits is in the queue
    && (forall id :: id in st.resolution && st.resolution[id].Pending? ==> id in st.queue)
  }

  ghost predicate Inv<S>(st: PoolState<S>, slots: set<S>)
  {
    Structure(st, slots) && |slots| == Capacity(st.size)
  }

  /** What callers may do: take at any time, return or reserve only a slot
      they hold. */
  ghost predicate Legal<S>(st: PoolState<S>, slots: set<S>, op: Op<S>)
  {
    match op
    case TakeSlotOp => true
    case AddOp(s) => IsCheckedOut(st, slots, s)
    case ReserveOp(s) => IsCheckedOut(st, slots, s)
  }

  ghost predicate LegalRun<S>(st: PoolState<S>, slots: set<S>, ops: seq<Op<S>>)
    decreases |ops|
  {
    ops == [] || (Legal(st, slots, ops[0]) && LegalRun(Step(st, ops[0]), slots, ops[1..]))
  }

  // ---------------------------------------------------------------------
  // Counting slots

  lemma {:induction false} DistinctCardinality<T>(s: seq<T>)
    requires Distinct(s)
    ensures |Elems(s)| == |s|
  {
    if s != [] {
      var init := s[..|s| - 1];
      assert Elems(s) == Elems(init) + {s[|s| - 1]};
      assert s[|s| - 1] !in Elems(init);
      DistinctCardinality(init);
    }
  }

  /** Slot conservation: free, reserved and checked-out slots together make
      up the whole pool. */
  lemma Conservation<S>(st: PoolState<S>, slots: set<S>)
    requires Inv(st, slots)
    ensures |st.free| + |st.reserved| + |CheckedOut(st, slots)| == Capacity(st.size)
  {
    DistinctCardinality(st.free);
    DistinctCardinality(st.reserved);
    var f, r := Elems(st.free), Elems(st.reserved);
    assert f * r == {};
    assert f + r <= slots;
    assert CheckedOut(st, slots) == slots - (f + r);
    assert |f + r| == |f| + |r|;
    assert |slots - (f + r)| == |slots| - |f + r|;
  }

  /** While some caller holds a slot, the pool is not fully reserved, so
      every queued request still waits. */
  lemma NotFullWhileCheckedOut<S>(st: PoolState<S>, slots: set<S>, s: S)
    requires Inv(st, slots) && IsCheckedOut(st, slots, s)
    ensures |st.reserved| < st.size
    ensures forall k :: 0 <= k < |st.queue| ==> st.resolution[st.queue[k]].Pending?
  {
    Conservation(st, slots);
    assert s in CheckedOut(st, slots);
  }

  /** Once fully reserved, a pool has nothing left to hand out. */
  lemma FullyReservedHoldsEverything<S>(st: PoolState<S>, slots: set<S>)
    requires Inv(st, slots) && |st.reserved| >= st.size
    ensures st.free == [] && CheckedOut(st, slots) == {}
    ensures Elems(st.reserved) == slots
  {
    Conservation(st, slots);
    forall s | s in slots
      ensures s in Elems(st.reserved)
    {
      assert s !in CheckedOut(st, slots);
    }
  }

  // ---------------------------------------------------------------------
  // Construction

  lemma {:induction false} BuildFillsFree<S>(size: int, ss: seq<S>)
    ensures Build(size, ss) == PoolState(size, ss, [], [], map[], 0)
  {
    if ss != [] {
      BuildFillsFree(size, ss[..|ss| - 1]);
    }
  }

  /** Part way through construction the pool already keeps its structure. */
  lemma BuildStructure<S>(size: int, ss: seq<S>)
    requires Distinct(ss)
    ensures Structure(Build(size, ss), Elems(ss))
  {
    BuildFillsFree(size, ss);
  }

  /** One iteration of the constructor's loop: a new slot joins the pool's
      slots and is added while nobody waits, which pushes it on the free
      stack. */
  lemma BuildStep<S>(size: int, ss: seq<S>, s: S)
    requires Distinct(ss) && s !in ss
    ensures Structure(Build(size, ss), Elems(ss) + {s})
    ensures IsCheckedOut(Build(size, ss), Elems(ss) + {s}, s)
    ensures Build(size, ss + [s]) == Add(Build(size, ss), s)
    ensures Distinct(ss + [s]) && Elems(ss + [s]) == Elems(ss) + {s}
  {
    BuildFillsFree(size, ss);
    assert (ss + [s])[..|ss|] == ss;
  }

  /** A new pool holds `size` distinct free slots, nothing reserved and
      nobody waiting, and keeps the invariant. */
  lemma BuildEstablishesInv<S>(size: int, ss: seq<S>)
    requires Distinct(ss) && |ss| == Capacity(size)
    ensures Build(size, ss).free == ss && Build(size, ss).reserved == [] && Build(size, ss).queue == []
    ensures Inv(Build(size, ss), Elems(ss))
  {
    BuildFillsFree(size, ss);
    BuildStructure(size, ss);
    DistinctCardinality(ss);
  }

  // ---------------------------------------------------------------------
  // TakeSlot

  /** A fully reserved pool fails the request at once and keeps its slots
      and queue as they were. */
  lemma TakeSlotWhenFullyReserved<S>(st: PoolState<S>)
    requires |st.reserved| >= st.size
    ensures var r := TakeSlot(st);
      r.resolution[st.nextRequest] == Failed(PoolFullyReserved)
      && r.free == st.free && r.reserved == st.reserved && r.queue == st.queue && r.size == st.size
      && (forall id :: id in st.resolution && id != st.nextRequest ==> id in r.resolution && r.resolution[id] == st.resolution[id])
  {
  }

  /** With nobody waiting, a request gets the most recently returned free
      slot, and only that slot leaves the free stack. */
  lemma TakeSlotPopsTop<S>(st: PoolState<S>)
    requires |st.reserved| < st.size && st.queue == [] && |st.free| > 0
    ensures var r := TakeSlot(st);
      r.resolution[st.nextRequest] == Granted(st.free[|st.free| - 1])
      && r.free + [st.free[|st.free| - 1]] == st.free
      && r.reserved == st.reserved && r.queue == [] && r.size == st.size
      && (forall id :: id in st.resolution && id != st.nextRequest ==> id in r.resolution && r.resolution[id] == st.resolution[id])
  {
  }

  /** Otherwise the request joins the tail of the queue and waits. */
  lemma TakeSlotEnqueues<S>(st: PoolState<S>)
    requires |st.reserved| < st.size && (|st.queue| > 0 || st.free == [])
    ensures var r := TakeSlot(st);
      r.resolution[st.nextRequest] == Pending
      && r.queue == st.queue + [st.nextRequest]
      && r.free == st.free && r.reserved == st.reserved && r.size == st.size
      && (forall id :: id in st.resolution && id != st.nextRequest ==> id in r.resolution && r.resolution[id] == st.resolution[id])
  {
  }

  /** A request is handed a slot directly only when nobody else waits. */
  lemma TakeSlotGrantsOnlyWithoutWaiters<S>(st: PoolState<S>, slots: set<S>)
    requires Inv(st, slots)
    requires TakeSlot(st).resolution[st.nextRequest].Granted?
    ensures forall id :: id in st.resolution ==> !st.resolution[id].Pending?
  {
    assert st.queue == [];
  }

  /** Returning the slot just taken restores the pool's stacks: LIFO reuse. */
  lemma TakeSlotThenAddRestores<S>(st: PoolState<S>)
    requires |st.reserved| < st.size && st.queue == [] && |st.free| > 0
    ensures var r := Add(TakeSlot(st), st.free[|st.free| - 1]);
      r.free == st.free && r.reserved == st.reserved && r.queue == st.queue
  {
  }

  lemma TakeSlotPreservesInv<S>(st: PoolState<S>, slots: set<S>)
    requires Inv(st, slots)
    ensures Inv(TakeSlot(st), slots)
  {
    var r := TakeSlot(st);
    if |st.reserved| < st.size && |st.queue| == 0 && |st.free| > 0 {
      assert forall s :: s in r.free ==> s in st.free;
    }
  }

  /** Requests taken one after another from a pool with nobody waiting get
      the free slots from the top of the stack down. */
  lemma {:induction false} TakeSlotsPopFree<S>(st: PoolState<S>, n: nat)
    requires |st.reserved| < st.size && st.queue == [] && n <= |st.free|
    ensures var r := TakeSlots(st, n);
      r.free == st.free[..|st.free| - n] && r.queue == [] && r.reserved == st.reserved
      && r.size == st.size && r.nextRequest == st.nextRequest + n
      && forall id: nat :: st.nextRequest <= id < st.nextRequest + n ==>
           id in r.resolution
           && r.resolution[id] == Granted(st.free[|st.free| - 1 - (id - st.nextRequest)])
  {
    if n > 0 {
      TakeSlotsPopFree(st, n - 1);
      var prev := TakeSlots(st, n - 1);
      assert TakeSlots(st, n) == TakeSlot(prev);
      var top := prev.free[|prev.free| - 1];
      assert top == st.free[|st.free| - n];
      assert prev.free[..|prev.free| - 1] == st.free[..|st.free| - n];
    }
  }

  /** A new pool of `size > 0` slots serves `size` requests in a row with
      `size` different slots (the last one added first), and the next
      request waits. */
  lemma FreshPoolServesEachSlotOnce<S>(size: int, ss: seq<S>)
    requires size > 0 && Distinct(ss) && |ss| == size
    ensures var drained := TakeSlots(Build(size, ss), size);
      (forall k: nat :: k < size ==> k in drained.resolution && drained.resolution[k] == Granted(ss[size - 1 - k]))
      && drained.free == []
      && size in TakeSlot(drained).resolution && TakeSlot(drained).resolution[size] == Pending
      && TakeSlot(drained).queue == [size]
  {
    BuildFillsFree(size, ss);
    TakeSlotsPopFree(Build(size, ss), size);
    var drained := TakeSlots(Build(size, ss), size);
    assert drained.nextRequest == size && drained.reserved == [] && drained.queue == [];
  }

  // ---------------------------------------------------------------------
  // Add

  /** A returned slot goes to the request that has waited longest; nothing
      else changes, and the free stack is bypassed. */
  lemma AddServesOldestWaiter<S>(st: PoolState<S>, slots: set<S>, s: S)
    requires Inv(st, slots) && IsCheckedOut(st, slots, s) && |st.queue| > 0
    ensures var r := Add(st, s); var head := st.queue[0];
      st.resolution[head].Pending?
      && (forall id :: id in st.resolution && st.resolution[id].Pending? ==> head <= id)
      && r.resolution[head] == Granted(s)
      && (forall id :: id in st.resolution && id != head ==> id in r.resolution && r.resolution[id] == st.resolution[id])
      && r.free == st.free && r.reserved == st.reserved && r.queue == st.queue[1..]
  {
    NotFullWhileCheckedOut(st, slots, s);
    forall id | id in st.resolution && st.resolution[id].Pending?
      ensures st.queue[0] <= id
    {
      var k :| 0 <= k < |st.queue| && st.queue[k] == id;
      assert k == 0 || st.queue[0] < st.queue[k];
    }
  }

  /** With nobody waiting, a returned slot goes on top of the free stack, so
      the next request gets exactly that slot. */
  lemma AddWithoutWaitersIsTakenNext<S>(st: PoolState<S>, s: S)
    requires st.queue == [] && |st.reserved| < st.size
    ensures Add(st, s).free == st.free + [s]
    ensures TakeSlot(Add(st, s)).resolution[st.nextRequest] == Granted(s)
    ensures TakeSlot(Add(st, s)).free == st.free
  {
  }

  lemma AddPreservesStructure<S>(st: PoolState<S>, slots: set<S>, s: S)
    requires Structure(st, slots) && IsCheckedOut(st, slots, s)
    ensures Structure(Add(st, s), slots)
  {
    var r := Add(st, s);
    if |st.queue| > 0 {
      assert forall k :: 0 <= k < |r.queue| ==> r.queue[k] == st.queue[k + 1];
      forall id | id in r.resolution && r.resolution[id].Pending?
        ensures id in r.queue
      {
        assert id != st.queue[0];
        var k :| 0 <= k < |st.queue| && st.queue[k] == id;
        assert r.queue[k - 1] == id;
      }
    } else {
      assert forall x :: x in r.free ==> x in st.free || x == s;
    }
  }

  lemma AddPreservesInv<S>(st: PoolState<S>, slots: set<S>, s: S)
    requires Inv(st, slots) && IsCheckedOut(st, slots, s)
    ensures Inv(Add(st, s), slots)
  {
    AddPreservesStructure(st, slots, s);
  }

  /** Waiters are served in arrival order: the i-th returned slot goes to the
      i-th request in the queue, and the free stack does not change. */
  lemma {:induction false} ServedInArrivalOrder<S>(st: PoolState<S>, ss: seq<S>)
    requires |ss| <= |st.queue| && Distinct(st.queue)
    decreases |ss|
    ensures var r := AddAll(st, ss);
      r.queue == st.queue[|ss|..] && r.free == st.free && r.reserved == st.reserved
      && (forall k :: 0 <= k < |ss| ==> st.queue[k] in r.resolution && r.resolution[st.queue[k]] == Granted(ss[k]))
      && (forall id :: id in st.resolution && id !in st.queue[..|ss|] ==> id in r.resolution && r.resolution[id] == st.resolution[id])
  {
    if ss != [] {
      var next := Add(st, ss[0]);
      assert next.queue == st.queue[1..];
      ServedInArrivalOrder(next, ss[1..]);
      forall k | 0 <= k < |ss|
        ensures st.queue[k] in AddAll(st, ss).resolution && AddAll(st, ss).resolution[st.queue[k]] == Granted(ss[k])
      {
        if k == 0 {
          assert st.queue[0] !in next.queue[..|ss| - 1];
        } else {
          assert st.queue[k] == next.queue[k - 1];
        }
      }
      forall id | id in st.resolution && id !in st.queue[..|ss|]
        ensures id in AddAll(st, ss).resolution && AddAll(st, ss).resolution[id] == st.resolution[id]
      {
        assert id != st.queue[0];
        assert id !in next.queue[..|ss| - 1];
      }
    }
  }

  // ---------------------------------------------------------------------
  // Reserve

  /** Reaching the size fails every queued request and leaves every other
      request as it was. */
  lemma ReserveAtThresholdFailsQueue<S>(st: PoolState<S>, s: S)
    requires |st.reserved| + 1 >= st.size
    ensures var r := Reserve(st, s);
      r.reserved == st.reserved + [s] && r.free == st.free && r.queue == st.queue
      && (forall k :: 0 <= k < |st.queue| ==> r.resolution[st.queue[k]] == Failed(PoolFullyReserved))
      && (forall id :: id in st.resolution && id !in st.queue ==> r.resolution[id] == st.resolution[id])
  {
  }

  /** Below the size, reserving moves the slot and touches no request. */
  lemma ReserveBelowThreshold<S>(st: PoolState<S>, s: S)
    requires |st.reserved| + 1 < st.size
    ensures var r := Reserve(st, s);
      r.reserved == st.reserved + [s] && r.free == st.free && r.queue == st.queue
      && r.resolution == st.resolution
  {
  }

  lemma ReservePreservesInv<S>(st: PoolState<S>, slots: set<S>, s: S)
    requires Inv(st, slots) && IsCheckedOut(st, slots, s)
    ensures Inv(Reserve(st, s), slots)
  {
    NotFullWhileCheckedOut(st, slots, s);
    var r := Reserve(st, s);
    assert forall x :: x in r.reserved ==> x in st.reserved || x == s;
    if |r.reserved| >= st.size {
      forall id | id in r.resolution && r.resolution[id].Pending?
        ensures id in r.queue
      {
        assert id in st.resolution && st.resolution[id].Pending?;
      }
    }
  }

  // ---------------------------------------------------------------------
  // Whole runs

  lemma StepPreservesInv<S>(st: PoolState<S>, slots: set<S>, op: Op<S>)
    requires Inv(st, slots) && Legal(st, slots, op)
    ensures Inv(Step(st, op), slots)
  {
    match op
    case TakeSlotOp => TakeSlotPreservesInv(st, slots);
    case AddOp(s) => AddPreservesInv(st, slots, s);
    case ReserveOp(s) => ReservePreservesInv(st, slots, s);
  }

  /** Any run in which callers return and reserve only slots they hold keeps
      the invariant, and hence slot conservation; and whenever a slot is
      free, no request is waiting. */
  lemma {:induction false} RunPreservesInv<S>(st: PoolState<S>, slots: set<S>, ops: seq<Op<S>>)
    requires Inv(st, slots) && LegalRun(st, slots, ops)
    ensures var r := Run(st, ops);
      && Inv(r, slots)
      && |r.free| + |r.reserved| + |CheckedOut(r, slots)| == Capacity(st.size)
      && (|r.free| > 0 ==> forall id :: id in r.resolution ==> !r.resolution[id].Pending?)
    decreases |ops|
  {
    if ops == [] {
      Conservation(st, slots);
    } else {
      StepPreservesInv(st, slots, ops[0]);
      RunPreservesInv(Step(st, ops[0]), slots, ops[1..]);
    }
  }

  /** No operation takes a slot out of the reserved stack: what was reserved
      stays reserved, in the same order, under the same size. */
  lemma {:induction false} ReservedOnlyGrows<S>(st: PoolState<S>, ops: seq<Op<S>>)
    ensures Run(st, ops).size == st.size
    ensures st.reserved <= Run(st, ops).reserved
    decreases |ops|
  {
    if ops != [] {
      var next := Step(st, ops[0]);
      assert st.reserved <= next.reserved;
      ReservedOnlyGrows(next, ops[1..]);
    }
  }

  /** Full reservation is terminal: after any run at all, a new request fails
      at once. */
  lemma FullyReservedIsTerminal<S>(st: PoolState<S>, ops: seq<Op<S>>)
    requires |st.reserved| >= st.size
    ensures var later := Run(st, ops);
      TakeSlot(later).resolution[later.nextRequest] == Failed(PoolFullyReserved)
      && TakeSlot(later).queue == later.queue
  {
    ReservedOnlyGrows(st, ops);
  }

  /** The awaiters a lock body completes: `SetResult` on the dequeued head
      (Add), `SetException` on every queued awaiter at the threshold
      (Reserve), and `SetResult` or `SetException` on the new awaiter when
      TakeSlot decides it at once. */
  ghost function Completes<S>(st: PoolState<S>, op: Op<S>): set<nat>
  {
    match op
    case TakeSlotOp =>
      if |st.reserved| >= st.size || (|st.queue| == 0 && |st.free| > 0) then {st.nextRequest} else {}
    case AddOp(_) => if |st.queue| > 0 then {st.queue[0]} else {}
    case ReserveOp(_) => if |st.reserved| + 1 >= st.size then Elems(st.queue) else {}
  }

  /** In a legal step every awaiter that is completed was still waiting (or
      is the new one), so no awaiter is completed twice; the completed ones
      are decided afterwards, and every other request keeps its resolution. */
  lemma StepCompletesOnlyWaiting<S>(st: PoolState<S>, slots: set<S>, op: Op<S>)
    requires Inv(st, slots) && Legal(st, slots, op)
    ensures forall id :: id in Completes(st, op) ==> id !in st.resolution || st.resolution[id].Pending?
    ensures forall id :: id in Completes(st, op) ==> id in Step(st, op).resolution && !Step(st, op).resolution[id].Pending?
    ensures forall id :: id in st.resolution && id !in Completes(st, op) ==>
              id in Step(st, op).resolution && Step(st, op).resolution[id] == st.resolution[id]
  {
    match op
    case TakeSlotOp =>
    case AddOp(s) =>
      NotFullWhileCheckedOut(st, slots, s);
    case ReserveOp(s) =>
      NotFullWhileCheckedOut(st, slots, s);
      forall id | id in Completes(st, op)
        ensures st.resolution[id].Pending?
      {
        var k :| 0 <= k < |st.queue| && st.queue[k] == id;
      }
  }

  /** In a legal step, a request that has been decided keeps its decision. */
  lemma StepKeepsDecided<S>(st: PoolState<S>, slots: set<S>, op: Op<S>, id: nat)
    requires Inv(st, slots) && Legal(st, slots, op)
    requires id in st.resolution && !st.resolution[id].Pending?
    ensures id in Step(st, op).resolution && Step(st, op).resolution[id] == st.resolution[id]
  {
    match op
    case TakeSlotOp =>
    case AddOp(s) =>
      NotFullWhileCheckedOut(st, slots, s);
    case ReserveOp(s) =>
      NotFullWhileCheckedOut(st, slots, s);
  }

  /** A slot handed over or a failure reported is never replaced in any
      legal run. */
  lemma {:induction false} DecidedStaysDecided<S>(st: PoolState<S>, slots: set<S>, ops: seq<Op<S>>, id: nat)
    requires Inv(st, slots) && LegalRun(st, slots, ops)
    requires id in st.resolution && !st.resolution[id].Pending?
    ensures id in Run(st, ops).resolution && Run(st, ops).resolution[id] == st.resolution[id]
    decreases |ops|
  {
    if ops != [] {
      StepKeepsDecided(st, slots, ops[0], id);
      StepPreservesInv(st, slots, ops[0]);
      DecidedStaysDecided(Step(st, ops[0]), slots, ops[1..], id);
    }
  }

  /** How often each awaiter is completed over a run. */
  ghost function CompletedBy<S>(st: PoolState<S>, ops: seq<Op<S>>): multiset<nat>
    decreases |ops|
  {
    if ops == [] then multiset{}
    else multiset(Completes(st, ops[0])) + CompletedBy(Step(st, ops[0]), ops[1..])
  }

  /** In any legal run no awaiter is completed twice, so the source's
      `SetResult` and `SetException` never meet an awaiter that is already
      completed; an awaiter decided before the run is not completed at all. */
  lemma {:induction false} CompletedAtMostOnce<S>(st: PoolState<S>, slots: set<S>, ops: seq<Op<S>>, id: nat)
    requires Inv(st, slots) && LegalRun(st, slots, ops)
    ensures CompletedBy(st, ops)[id] <= 1
    ensures id in st.resolution && !st.resolution[id].Pending? ==> CompletedBy(st, ops)[id] == 0
    decreases |ops|
  {
    if ops != [] {
      var next := Step(st, ops[0]);
      StepCompletesOnlyWaiting(st, slots, ops[0]);
      StepPreservesInv(st, slots, ops[0]);
      CompletedAtMostOnce(next, slots, ops[1..], id);
    }
  }
}
