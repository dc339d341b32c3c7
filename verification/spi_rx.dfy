/**
  The SPI receiver's double-buffered DMA hand-off. The DMA stream alternates
  between two memory targets, M0AR and M1AR; the CT bit says which one it is
  writing. When a target fills, the completion callback queues it as full
  (unless it is that slot's overflow buffer) and retargets the slot to the
  next empty pool buffer, or to the overflow buffer when none is free.
 */
module SpiRx {
  import opened Wrappers
  import opened Buffers

  /** DMA targets, the CT bit (true: the stream is writing M1) and the pool queues. */
  datatype Receiver = Receiver(queues: Queues, m0: BufId, m1: BufId, ct: bool)

  function Target(r: Receiver, slot: Slot): BufId
  {
    match slot
    case M0 => r.m0
    case M1 => r.m1
  }

  function Retarget(r: Receiver, slot: Slot, b: BufId): (r': Receiver)
    ensures Target(r', slot) == b && r'.queues == r.queues && r'.ct == r.ct
    ensures slot == M0 ==> r'.m1 == r.m1
    ensures slot == M1 ==> r'.m0 == r.m0
  {
    match slot
    case M0 => r.(m0 := b)
    case M1 => r.(m1 := b)
  }

  /**
    Start-up in `spi_rx`: `init` fills the empty queue, then the two DMA
    targets are taken from it; running short is a fatal assertion (None).
    The DMA starts on M0, so CT is clear.
   */
  function StartUp(n: nat): (r: Option<Receiver>)
    ensures r.Some? <==> n >= 2
    ensures r.Some? ==> r.value.m0 == Pool(0) && r.value.m1 == Pool(1) && !r.value.ct
    ensures r.Some? ==> r.value.queues.empty == AllPool(n)[2..] && r.value.queues.full == []
  {
    var (q1, b0) := GetEmptyBuffer(InitialQueues(n));
    var (q2, b1) := GetEmptyBuffer(q1);
    if b0.None? || b1.None? then None
    else Some(Receiver(q2, b0.value, b1.value, false))
  }

  /**
    `HAL_SPI_RxCpltCallback` (slot M0, which asserts CT set) and
    `HAL_SPI_M1RxCpltCallback` (slot M1, which asserts CT clear). None stands
    for a fatal assertion: the wrong CT bit, or a full mail pool in
    `set_buffer_full`.
   */
  function Complete(r: Receiver, slot: Slot): (r': Option<Receiver>)
    requires r.queues.initialised
    ensures r'.Some? ==> r.ct == (slot == M0)
    ensures r'.Some? && slot == M0 ==> r'.value.m1 == r.m1
    ensures r'.Some? && slot == M1 ==> r'.value.m0 == r.m0
    ensures r'.Some? ==> r'.value.ct == r.ct && r'.value.queues.capacity == r.queues.capacity
    ensures r'.Some? ==> r'.value.queues.initialised
    ensures r'.Some? ==> (r'.value.queues.full ==
      r.queues.full + (if Target(r, slot) != Overflow(slot) then [Target(r, slot)] else []))
    ensures r'.Some? ==> (Target(r'.value, slot) ==
      (if r.queues.empty == [] then Overflow(slot) else r.queues.empty[0]))
    ensures r'.Some? ==> r'.value.queues.empty == (if r.queues.empty == [] then [] else r.queues.empty[1..])
  {
    if r.ct != (slot == M0) then None
    else
      var done := Target(r, slot);
      if done != Overflow(slot) && |r.queues.full| >= r.queues.capacity then None
      else
        var q1 := if done != Overflow(slot) then SetBufferFull(r.queues, done) else r.queues;
        var (q2, next) := GetEmptyBuffer(q1);
        Some(Retarget(r.(queues := q2), slot, if next.Some? then next.value else Overflow(slot)))
  }

  /** The slot the stream is writing: M1 when CT is set, M0 otherwise. */
  function Writing(r: Receiver): Slot
  {
    if r.ct then M1 else M0
  }

  function Opposite(slot: Slot): Slot
  {
    match slot
    case M0 => M1
    case M1 => M0
  }

  /**
    The DMA finishes the target it is writing, switches CT, and raises that
    slot's callback. The callback's CT assertion always holds here; the step
    fails only when a pool buffer finishes while the mail pool is full.
   */
  function Step(r: Receiver): (r': Option<Receiver>)
    requires r.queues.initialised
    ensures r'.None? <==>
      Target(r, Writing(r)) != Overflow(Writing(r)) && |r.queues.full| >= r.queues.capacity
    ensures r'.Some? ==> r'.value.ct == !r.ct
    ensures r'.Some? ==> (Target(r'.value, Opposite(Writing(r'.value))) ==
      (if r.queues.empty == [] then Overflow(Writing(r)) else r.queues.empty[0]))
    ensures r'.Some? ==> Target(r'.value, Writing(r'.value)) == Target(r, Opposite(Writing(r)))
    ensures r'.Some? ==> (r'.value.queues.full ==
      r.queues.full + (if Target(r, Writing(r)) != Overflow(Writing(r)) then [Target(r, Writing(r))] else []))
  {
    if !r.ct then Complete(r.(ct := true), M0) else Complete(r.(ct := false), M1)
  }

  // ---------------------------------------------------------------------
  // Conservation

  /** The pool buffers a slot holds: its target unless that is the overflow buffer. */
  function Held(b: BufId): multiset<BufId>
  {
    if b.Pool? then multiset{b} else multiset{}
  }

  /** Every pool buffer sits in exactly one of: empty queue, full queue, M0 target, M1 target. */
  function Locations(r: Receiver): multiset<BufId>
  {
    multiset(r.queues.empty) + multiset(r.queues.full) + Held(r.m0) + Held(r.m1)
  }

  /**
    The receiver's invariant: the queues are initialised, each slot targets a
    pool buffer or its own overflow buffer, and the pool buffers are spread
    over the four locations with none lost and none repeated.
   */
  predicate Inv(r: Receiver)
  {
    && r.queues.initialised
    && (r.m0.Pool? || r.m0 == Overflow(M0))
    && (r.m1.Pool? || r.m1 == Overflow(M1))
    && Locations(r) == PoolSet(r.queues.capacity)
  }

  /** The pool buffers 0 .. n-1, each once. */
  function PoolSet(n: nat): (m: multiset<BufId>)
    ensures |m| == n
  {
    if n == 0 then multiset{} else PoolSet(n - 1) + multiset{Pool(n - 1)}
  }

  lemma {:induction false} PoolSetCounts(n: nat, b: BufId)
    ensures PoolSet(n)[b] == (if b.Pool? && b.index < n then 1 else 0)
  {
    if n > 0 {
      PoolSetCounts(n - 1, b);
    }
  }

  /** The empty queue `init` builds holds exactly the pool. */
  lemma {:induction false} AllPoolIsPoolSet(n: nat)
    ensures multiset(AllPool(n)) == PoolSet(n)
  {
    if n > 0 {
      AllPoolIsPoolSet(n - 1);
      assert AllPool(n) == AllPool(n - 1) + [Pool(n - 1)];
    }
  }

  /** Under the invariant each pool buffer is in exactly one place, and no overflow buffer is queued. */
  lemma {:induction false} InvPlacesEachBufferOnce(r: Receiver, b: BufId)
    requires Inv(r)
    ensures b.Pool? && b.index < r.queues.capacity ==> Locations(r)[b] == 1
    ensures b.Overflow? ==> b !in r.queues.full && b !in r.queues.empty
  {
    PoolSetCounts(r.queues.capacity, b);
    if b.Overflow? {
      assert Locations(r)[b] == 0;
      assert multiset(r.queues.full)[b] == 0;
    }
  }

  lemma {:induction false} StartUpEstablishesInv(n: nat)
    requires n >= 2
    ensures Inv(StartUp(n).value)
  {
    var r := StartUp(n).value;
    var rest := AllPool(n)[2..];
    assert AllPool(n) == [Pool(0), Pool(1)] + rest;
    assert multiset(AllPool(n)) == multiset(rest) + multiset{Pool(0)} + multiset{Pool(1)};
    AllPoolIsPoolSet(n);
    assert Locations(r) == multiset(rest) + multiset{} + Held(Pool(0)) + Held(Pool(1));
  }

  /**
    The bookkeeping of one completion: the finished target joins the full
    queue (if it is a pool buffer) and the head of the empty queue becomes the
    new target (or nothing pool-held, when the queue is empty).
   */
  lemma HandOff(e: seq<BufId>, f: seq<BufId>, done: BufId, next: BufId, e': seq<BufId>)
    requires (e == [] && e' == [] && !next.Pool?) || (e != [] && e[0].Pool? && next == e[0] && e' == e[1..])
    ensures multiset(e') + multiset(f + (if done.Pool? then [done] else [])) + Held(next)
         == multiset(e) + multiset(f) + Held(done)
  {
    assert multiset(f + (if done.Pool? then [done] else [])) == multiset(f) + Held(done);
    if e != [] {
      assert e == [e[0]] + e';
    }
  }

  /** Under the invariant a completion finds room on the full queue. */
  lemma {:induction false} CompleteSucceeds(r: Receiver, slot: Slot)
    requires Inv(r) && r.ct == (slot == M0)
    ensures Complete(r, slot).Some?
  {
    var n := r.queues.capacity;
    if Target(r, slot).Pool? {
      assert |Locations(r)| == n;
      assert |r.queues.full| < n;
    }
  }

  /** A completion moves buffers between locations without creating or losing any. */
  lemma {:induction false} CompleteKeepsLocations(r: Receiver, slot: Slot)
    requires r.queues.initialised && Complete(r, slot).Some?
    requires Target(r, slot).Pool? || Target(r, slot) == Overflow(slot)
    requires r.queues.empty != [] ==> r.queues.empty[0].Pool?
    ensures Locations(Complete(r, slot).value) == Locations(r)
  {
    var r' := Complete(r, slot).value;
    var done := Target(r, slot);
    assert (done != Overflow(slot)) == done.Pool?;
    HandOff(r.queues.empty, r.queues.full, done, Target(r', slot), r'.queues.empty);
    if slot == M0 {
      assert Locations(r) == multiset(r.queues.empty) + multiset(r.queues.full) + Held(done) + Held(r.m1);
      assert Locations(r') == multiset(r'.queues.empty) + multiset(r'.queues.full) + Held(r'.m0) + Held(r.m1);
    } else {
      assert Locations(r) == multiset(r.queues.empty) + multiset(r.queues.full) + Held(r.m0) + Held(done);
      assert Locations(r') == multiset(r'.queues.empty) + multiset(r'.queues.full) + Held(r.m0) + Held(r'.m1);
    }
  }

  /**
    A callback raised with the right CT bit never hits an assertion and keeps
    the invariant: in particular `set_buffer_full` always finds room.
   */
  lemma {:induction false} CompletePreservesInv(r: Receiver, slot: Slot)
    requires Inv(r) && r.ct == (slot == M0)
    ensures Complete(r, slot).Some? && Inv(Complete(r, slot).value)
  {
    CompleteSucceeds(r, slot);
    if r.queues.empty != [] {
      var head := r.queues.empty[0];
      PoolSetCounts(r.queues.capacity, head);
      assert head in multiset(r.queues.empty);
      assert head in Locations(r);
    }
    CompleteKeepsLocations(r, slot);
  }

  lemma {:induction false} StepPreservesInv(r: Receiver)
    requires Inv(r)
    ensures Step(r).Some? && Inv(Step(r).value)
    ensures Step(r).value.queues.capacity == r.queues.capacity
  {
    if !r.ct {
      CompletePreservesInv(r.(ct := true), M0);
    } else {
      CompletePreservesInv(r.(ct := false), M1);
    }
  }

  /**
    The receiver as it runs: start-up, then `k` DMA completions. Start-up
    fails (None) with fewer than two buffers; after that no completion hits a
    fatal assertion, and every pool buffer stays in exactly one place while no
    overflow buffer is ever queued.
   */
  method Simulate(n: nat, k: nat) returns (r: Option<Receiver>)
    ensures r.Some? <==> n >= 2
    ensures r.Some? ==> Inv(r.value) && r.value.queues.capacity == n
    ensures r.Some? ==> forall b: BufId :: b.Pool? && b.index < n ==> Locations(r.value)[b] == 1
    ensures r.Some? ==> forall b: BufId :: b.Overflow? ==> b !in r.value.queues.full && b !in r.value.queues.empty
  {
    r := StartUp(n);
    if r.None? {
      return;
    }
    StartUpEstablishesInv(n);
    var i := 0;
    while i < k
      invariant r.Some? && Inv(r.value) && r.value.queues.capacity == n
    {
      StepPreservesInv(r.value);
      r := Step(r.value);
      i := i + 1;
    }
    forall b: BufId
      ensures b.Pool? && b.index < n ==> Locations(r.value)[b] == 1
      ensures b.Overflow? ==> b !in r.value.queues.full && b !in r.value.queues.empty
    {
      InvPlacesEachBufferOnce(r.value, b);
    }
  }
}
