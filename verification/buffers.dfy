/**
  The buffer pool shared by the SPI receiver and the USB side: N buffers of
  512 bytes whose addresses travel through two bounded FIFO mail queues,
  "empty" and "full". The queues carry buffer identities, never contents.
 */
module Buffers {
  import opened Wrappers

  /** The two DMA memory slots of the SPI receiver (M0AR and M1AR). */
  datatype Slot = M0 | M1

  /**
    A buffer address as it travels through the queues: one of the N pool
    buffers, or the overflow buffer the SPI receiver keeps for a slot.
   */
  datatype BufId = Pool(index: nat) | Overflow(slot: Slot)

  /** Size of every buffer in bytes (`buffers::size`). */
  const BufferSize := 512

  /**
    Both mail queues. `capacity` is the pool size N, which bounds each queue;
    `initialised` is the debug-build flag every operation asserts.
   */
  datatype Queues = Queues(capacity: nat, empty: seq<BufId>, full: seq<BufId>, initialised: bool)

  /** The queues before `init`: nothing queued yet. */
  function Uninitialised(n: nat): (q: Queues)
    ensures q.capacity == n && !q.initialised && q.empty == [] && q.full == []
  {
    Queues(n, [], [], false)
  }

  /** The pool's buffers in index order. */
  function AllPool(n: nat): (ids: seq<BufId>)
    ensures |ids| == n
    ensures forall i :: 0 <= i < n ==> ids[i] == Pool(i)
  {
    seq(n, (i: nat) => Pool(i))
  }

  /** `get_empty_buffer`: the head of the empty queue, or None (a null pointer) without blocking. */
  function GetEmptyBuffer(q: Queues): (r: (Queues, Option<BufId>))
    requires q.initialised
    ensures q.empty == [] ==> r == (q, None)
    ensures q.empty != [] ==> r.1 == Some(q.empty[0]) && [q.empty[0]] + r.0.empty == q.empty
    ensures r.0.full == q.full && r.0.capacity == q.capacity && r.0.initialised
  {
    if q.empty == [] then (q, None)
    else (q.(empty := q.empty[1..]), Some(q.empty[0]))
  }

  /** `set_buffer_empty`: append at the tail; a full mail pool is a fatal assertion, hence the precondition. */
  function SetBufferEmpty(q: Queues, b: BufId): (r: Queues)
    requires q.initialised && |q.empty| < q.capacity
    ensures r.empty == q.empty + [b] && r.full == q.full
    ensures r.capacity == q.capacity && r.initialised
  {
    q.(empty := q.empty + [b])
  }

  /** `get_full_buffer`: blocks until a full buffer exists, so it is only called on a non-empty queue. */
  function GetFullBuffer(q: Queues): (r: (Queues, BufId))
    requires q.initialised && q.full != []
    ensures [r.1] + r.0.full == q.full && r.0.empty == q.empty
    ensures r.0.capacity == q.capacity && r.0.initialised
  {
    (q.(full := q.full[1..]), q.full[0])
  }

  /** `set_buffer_full`: append at the tail of the full queue. */
  function SetBufferFull(q: Queues, b: BufId): (r: Queues)
    requires q.initialised && |q.full| < q.capacity
    ensures r.full == q.full + [b] && r.empty == q.empty
    ensures r.capacity == q.capacity && r.initialised
  {
    q.(full := q.full + [b])
  }

  /** What `init` produces: every pool buffer on the empty queue in index order, nothing full. */
  function InitialQueues(n: nat): (q: Queues)
    ensures q.initialised && q.capacity == n
    ensures q.empty == AllPool(n) && q.full == []
  {
    Queues(n, AllPool(n), [], true)
  }

  /** `init`: set the flag, then hand each buffer to `set_buffer_empty` in turn. */
  method Init(n: nat) returns (q: Queues)
    ensures q == InitialQueues(n)
  {
    q := Uninitialised(n).(initialised := true);
    var i := 0;
    while i < n
      invariant 0 <= i <= n
      invariant q == Queues(n, AllPool(i), [], true)
    {
      q := SetBufferEmpty(q, Pool(i));
      i := i + 1;
    }
  }

  // ---------------------------------------------------------------------
  // FIFO behaviour

  /** Queue each id of `bs` as full, in order. */
  function SetAllFull(q: Queues, bs: seq<BufId>): (r: Queues)
    requires q.initialised && |q.full| + |bs| <= q.capacity
    ensures r.initialised && r.capacity == q.capacity && r.empty == q.empty
    ensures |r.full| == |q.full| + |bs|
    decreases |bs|
  {
    if bs == [] then q else SetAllFull(SetBufferFull(q, bs[0]), bs[1..])
  }

  /** Take every full buffer, returning them in the order taken. */
  function DrainFull(q: Queues): (taken: seq<BufId>)
    requires q.initialised
    ensures |taken| == |q.full|
    decreases |q.full|
  {
    if q.full == [] then []
    else
      var (q', b) := GetFullBuffer(q);
      [b] + DrainFull(q')
  }

  /** The full queue is first-in first-out: what is queued comes back out in the same order, after what was there. */
  lemma {:induction false} FullQueueFifo(q: Queues, bs: seq<BufId>)
    requires q.initialised && |q.full| + |bs| <= q.capacity
    ensures DrainFull(SetAllFull(q, bs)) == q.full + bs
    decreases |bs|
  {
    if bs == [] {
      DrainReturnsQueue(q);
    } else {
      var q1 := SetBufferFull(q, bs[0]);
      FullQueueFifo(q1, bs[1..]);
      assert q1.full + bs[1..] == q.full + bs;
    }
  }

  /** Draining returns exactly the queue's contents, head first. */
  lemma {:induction false} DrainReturnsQueue(q: Queues)
    requires q.initialised
    ensures DrainFull(q) == q.full
    decreases |q.full|
  {
    if q.full != [] {
      DrainReturnsQueue(GetFullBuffer(q).0);
    }
  }

  /** The empty queue is first-in first-out too: a buffer given back is taken last. */
  lemma EmptyQueueFifo(q: Queues, b: BufId)
    requires q.initialised && |q.empty| < q.capacity && q.empty != []
    ensures GetEmptyBuffer(SetBufferEmpty(q, b)).1 == Some(q.empty[0])
    ensures GetEmptyBuffer(SetBufferEmpty(q, b)).0.empty == q.empty[1..] + [b]
  {
  }

  /** After `init`, the buffers come out of the empty queue in index order. */
  lemma {:induction false} InitialOrder(n: nat, k: nat)
    requires k <= n
    ensures TakeEmpty(InitialQueues(n), k) == AllPool(k)
  {
    TakeEmptyPrefix(InitialQueues(n), k);
  }

  /** Take `k` buffers off the empty queue, or fewer if it runs dry. */
  function TakeEmpty(q: Queues, k: nat): (taken: seq<BufId>)
    requires q.initialised
    ensures |taken| <= k
    decreases k
  {
    if k == 0 then []
    else
      var (q', b) := GetEmptyBuffer(q);
      match b
      case None => []
      case Some(id) => [id] + TakeEmpty(q', k - 1)
  }

  lemma {:induction false} TakeEmptyPrefix(q: Queues, k: nat)
    requires q.initialised && k <= |q.empty|
    ensures TakeEmpty(q, k) == q.empty[..k]
    decreases k
  {
    if k > 0 {
      var q' := GetEmptyBuffer(q).0;
      TakeEmptyPrefix(q', k - 1);
      assert q.empty[..k] == [q.empty[0]] + q'.empty[..k - 1];
    }
  }

  /** Moving a buffer from the empty queue to the full queue keeps the set of queued ids as it was. */
  lemma MoveKeepsContents(q: Queues)
    requires q.initialised && q.empty != [] && |q.full| < q.capacity
    ensures var (q1, b) := GetEmptyBuffer(q);
      var q2 := SetBufferFull(q1, b.value);
      multiset(q2.empty) + multiset(q2.full) == multiset(q.empty) + multiset(q.full)
  {
    var (q1, b) := GetEmptyBuffer(q);
    assert q.empty == [b.value] + q1.empty;
  }
}
