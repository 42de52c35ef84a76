/** The ring that carries callbacks from other threads to the UI thread. */
module DispatchRing {
  const SIZE: nat := 32

  /** `cb` 0 is the null callback. */
  datatype Item = Item(cb: nat, data: int)

  // ---- a bounded queue of 31 items -----------------------------------------

  datatype State = State(pending: seq<Item>, executed: seq<Item>, accepted: seq<Item>, dropped: nat)

  const START := State([], [], [], 0)

  predicate Full(s: State) {
    |s.pending| >= SIZE - 1
  }

  function Offer(s: State, item: Item): State {
    if item.cb == 0 then s
    else if Full(s) then s.(dropped := s.dropped + 1)
    else s.(pending := s.pending + [item], accepted := s.accepted + [item])
  }

  function OfferAll(s: State, items: seq<Item>): State
    decreases |items|
  {
    if items == [] then s else OfferAll(Offer(s, items[0]), items[1..])
  }

  function RunFirst(s: State): State
    requires s.pending != []
  {
    s.(pending := s.pending[1..], executed := s.executed + [s.pending[0]])
  }

  /** What is enqueued while the k-th callback of a drain runs, by it or by other threads. */
  type Arrivals = seq<seq<Item>>

  function During(arrivals: Arrivals, k: nat): seq<Item> {
    if k < |arrivals| then arrivals[k] else []
  }

  function Drain(s: State, arrivals: Arrivals, k: nat): State
    requires k <= SIZE
    decreases SIZE - k
  {
    if k == SIZE || s.pending == [] then s
    else Drain(OfferAll(RunFirst(s), During(arrivals, k)), arrivals, k + 1)
  }

  function Slot(head: nat, i: nat): (r: nat)
    ensures r < SIZE
  {
    (head + i) % SIZE
  }

  /** The next slot meets the head exactly at 31 items; until then slots do not collide. */
  lemma Slots(head: nat, n: nat)
    requires head < SIZE && n < SIZE
    ensures (Slot(head, n) + 1) % SIZE == Slot(head, n + 1)
    ensures Slot(head, n + 1) == head <==> n == SIZE - 1
    ensures forall i :: 0 <= i < n ==> Slot(head, i) != Slot(head, n)
  {}

  lemma SlotsAfterTake(head: nat, next: nat, n: nat)
    requires head < SIZE && 0 < n < SIZE && next == (head + 1) % SIZE
    ensures Slot(head, 0) == head
    ensures Slot(next, n - 1) == Slot(head, n)
    ensures forall i: nat :: i < n - 1 ==> Slot(next, i) == Slot(head, i + 1)
  {}

  // ---- the ring ------------------------------------------------------------

  class Ring {
    const queue: array<Item>
    var head: nat
    var tail: nat
    var dropped: nat
    ghost var state: State

    ghost predicate Valid()
      reads this, queue
    {
      && queue.Length == SIZE && head < SIZE && tail < SIZE
      && dropped == state.dropped
      && |state.pending| <= SIZE - 1
      && tail == Slot(head, |state.pending|)
      && forall i :: 0 <= i < |state.pending| ==> queue[Slot(head, i)] == state.pending[i]
    }

    constructor ()
      ensures Valid() && state == START && fresh(queue)
    {
      queue := new Item[SIZE](i => Item(0, 0));
      head, tail, dropped, state := 0, 0, 0, START;
    }

    method Async(item: Item) returns (ok: bool)
      requires Valid()
      modifies this, queue
      ensures Valid() && state == Offer(old(state), item)
      ensures ok <==> item.cb != 0 && |old(state).pending| < 31
      ensures state.pending == old(state).pending + (if ok then [item] else [])
      ensures state.dropped == old(state).dropped + (if item.cb != 0 && !ok then 1 else 0)
    {
      if item.cb == 0 {
        return false;
      }
      hide Slot;
      Slots(head, |state.pending|);
      var nextTail := (tail + 1) % SIZE;
      if nextTail == head {
        dropped := dropped + 1;
        state := Offer(state, item);
        return false;
      }
      queue[tail] := item;
      tail := nextTail;
      state := Offer(state, item);
      return true;
    }

    method AsyncAll(items: seq<Item>)
      requires Valid()
      modifies this, queue
      ensures Valid() && state == OfferAll(old(state), items)
    {
      var i := 0;
      assert items[0..] == items;
      while i < |items|
        invariant 0 <= i <= |items| && Valid()
        invariant OfferAll(state, items[i..]) == OfferAll(old(state), items)
      {
        assert items[i..][1..] == items[i + 1..];
        var ok := Async(items[i]);
        i := i + 1;
      }
    }

    method TakeFirst() returns (item: Item)
      requires Valid() && state.pending != []
      modifies this
      ensures Valid() && state == RunFirst(old(state)) && item == old(state.pending)[0]
    {
      hide Slot;
      SlotsAfterTake(head, (head + 1) % SIZE, |state.pending|);
      item := queue[head];
      head := (head + 1) % SIZE;
      state := RunFirst(state);
    }

    method DrainQueue(arrivals: Arrivals)
      requires Valid()
      modifies this, queue
      ensures Valid() && state == Drain(old(state), arrivals, 0)
    {
      hide Drain, OfferAll, RunFirst;
      var budget, k := SIZE, 0;
      while budget > 0
        invariant 0 <= budget && k == SIZE - budget && Valid()
        invariant Drain(state, arrivals, k) == Drain(old(state), arrivals, 0)
      {
        DrainStep(state, arrivals, k);
        budget := budget - 1;
        if head == tail {
          return;
        }
        var item := TakeFirst();
        AsyncAll(During(arrivals, k));
        k := k + 1;
      }
      DrainStep(state, arrivals, k);
    }
  }

  lemma DrainStep(s: State, arrivals: Arrivals, k: nat)
    requires k <= SIZE
    ensures Drain(s, arrivals, k) == if k == SIZE || s.pending == [] then s
      else Drain(OfferAll(RunFirst(s), During(arrivals, k)), arrivals, k + 1)
  {}

  // ---- every run of enqueues and drains ------------------------------------

  datatype Op = Enqueue(item: Item) | DrainNow(arrivals: Arrivals)

  function Perform(s: State, op: Op): State {
    match op
    case Enqueue(item) => Offer(s, item)
    case DrainNow(arrivals) => Drain(s, arrivals, 0)
  }

  function After(s: State, ops: seq<Op>): State
    decreases |ops|
  {
    if ops == [] then s else After(Perform(s, ops[0]), ops[1..])
  }

  /** Executed items followed by pending ones are the accepted ones, in order. */
  predicate Inv(s: State) {
    s.accepted == s.executed + s.pending && |s.pending| <= SIZE - 1
  }

  /** Nothing executed or accepted is ever taken back. */
  predicate Extends(s: State, t: State) {
    s.executed <= t.executed && s.accepted <= t.accepted && s.dropped <= t.dropped
  }

  lemma {:induction false} OfferAllKeeps(s: State, items: seq<Item>)
    requires Inv(s)
    ensures var t := OfferAll(s, items);
      Inv(t) && Extends(s, t) && t.executed == s.executed
    decreases |items|
  {
    if items != [] {
      var t := Offer(s, items[0]);
      assert Inv(t) && Extends(s, t);
      OfferAllKeeps(t, items[1..]);
    }
  }

  /** A drain stops with the queue empty or after exactly 32 callbacks. */
  lemma {:induction false} DrainKeeps(s: State, arrivals: Arrivals, k: nat)
    requires Inv(s) && k <= 32
    ensures var t := Drain(s, arrivals, k);
      && Inv(t) && Extends(s, t)
      && |t.executed| - |s.executed| <= 32 - k
      && (t.pending == [] || |t.executed| - |s.executed| == 32 - k)
    decreases SIZE - k
  {
    if k < SIZE && s.pending != [] {
      hide OfferAll;
      var r := RunFirst(s);
      assert s.executed + s.pending == (s.executed + [s.pending[0]]) + s.pending[1..];
      OfferAllKeeps(r, During(arrivals, k));
      DrainKeeps(OfferAll(r, During(arrivals, k)), arrivals, k + 1);
    }
  }

  lemma PerformKeeps(s: State, op: Op)
    requires Inv(s)
    ensures Inv(Perform(s, op)) && Extends(s, Perform(s, op))
  {
    hide Drain;
    if op.DrainNow? {
      DrainKeeps(s, op.arrivals, 0);
    }
  }

  lemma {:induction false} RunKeeps(s: State, ops: seq<Op>)
    requires Inv(s)
    ensures Inv(After(s, ops)) && Extends(s, After(s, ops))
    decreases |ops|
  {
    if ops != [] {
      hide Inv, Perform;
      PerformKeeps(s, ops[0]);
      RunKeeps(Perform(s, ops[0]), ops[1..]);
    }
  }

  /** One drain runs everything that was pending when it began, whatever is enqueued meanwhile,
      and at most 32 callbacks. */
  lemma DrainRunsAllPending(s: State, arrivals: Arrivals)
    requires Inv(s)
    ensures var t := Drain(s, arrivals, 0);
      s.executed + s.pending <= t.executed && |t.executed| <= |s.executed| + 32
  {
    hide Drain;
    DrainKeeps(s, arrivals, 0);
    var t := Drain(s, arrivals, 0);
    assert s.accepted <= t.executed + t.pending;
    assert |t.executed| >= |s.accepted|;
  }

  /** From the start, over any run: nothing is lost, duplicated or reordered. */
  lemma EveryRunIsFifo(ops: seq<Op>)
    ensures var s := After(START, ops); s.accepted == s.executed + s.pending && |s.pending| <= 31
  {
    RunKeeps(START, ops);
  }
}
