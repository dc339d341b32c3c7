/**
  The SPI master: two 256-byte transmit buffers filled with "spi " repeated,
  sent by a circular double-buffered DMA stream, and a small controller that
  starts and stops the stream and can run it for a given number of buffers.
 */
module SpiMaster {
  import opened Bytes
  import opened Wrappers
  import RxPattern

  /** `tx_buffer_size`. */
  const TxBufferSize := 256

  /** `init_bytes`: the four characters the buffers repeat, the ones the receiver expects. */
  function InitBytes(): (b: seq<Byte>)
    ensures |b| == 4 && b == RxPattern.ExpectedBytes()
  {
    Ascii("spi ")
  }

  /**
    The controller's globals. `running` is the `dma_running` flag; `dmaActive`
    says whether the DMA stream is actually transmitting, which the completion
    callback can end behind the flag's back. `queuedToggles` counts
    `toggle_dma` calls posted to the event queue and not yet dispatched.
   */
  datatype Master = Master(
    dmaSize: U16,
    running: bool,
    dmaActive: bool,
    enabled: bool,
    count: nat,
    target: U32,
    queuedToggles: nat)

  function InitialMaster(): Master
  {
    Master(4, false, false, false, 0, 0, 0)
  }

  // ---------------------------------------------------------------------
  // Transmit buffers

  /** The content both buffers get: byte i is character i mod 4 of "spi ". */
  function TxPattern(): (p: seq<Byte>)
    ensures |p| == TxBufferSize
    ensures forall i :: 0 <= i < TxBufferSize ==> p[i] == InitBytes()[i % 4]
  {
    seq(TxBufferSize, i requires 0 <= i < TxBufferSize => InitBytes()[i % 4])
  }

  /** `tx_buffer_init`: walk both buffers with a second index that wraps at 4. */
  method TxBufferInit() returns (m0: seq<Byte>, m1: seq<Byte>)
    ensures |m0| == |m1| == TxBufferSize
    ensures forall i :: 0 <= i < TxBufferSize ==> m0[i] == m1[i] == InitBytes()[i % 4]
  {
    var init := InitBytes();
    m0, m1 := [], [];
    var index := 0;
    var i := 0;
    while i < TxBufferSize
      invariant 0 <= i <= TxBufferSize && index == i % 4
      invariant |m0| == |m1| == i
      invariant forall j :: 0 <= j < i ==> m0[j] == m1[j] == init[j % 4]
    {
      m0 := m0 + [init[index]];
      m1 := m1 + [init[index]];
      index := (index + 1) % |init|;
      i := i + 1;
    }
  }

  /** Every aligned word of the buffers is "spi ", the word the receiver looks for. */
  lemma TxWordsAreExpected(k: nat)
    requires 4 * k + 4 <= TxBufferSize
    ensures TxPattern()[4 * k..4 * k + 4] == RxPattern.ExpectedBytes()
    ensures RxPattern.WordOfBytes(TxPattern()[4 * k..4 * k + 4]) == RxPattern.ExpectedWord()
  {
    var w := TxPattern()[4 * k..4 * k + 4];
    forall j | 0 <= j < 4
      ensures w[j] == RxPattern.ExpectedBytes()[j]
    {
      assert (4 * k + j) % 4 == j;
    }
  }

  // ---------------------------------------------------------------------
  // Run control

  /** `set_dma_size`: a size beyond the buffer is a fatal assertion (None). */
  function SetDmaSize(m: Master, size: U16): (r: Option<Master>)
    ensures r.Some? <==> size <= TxBufferSize
    ensures r.Some? ==> r.value.dmaSize == size && r.value.(dmaSize := m.dmaSize) == m
  {
    if size <= TxBufferSize then Some(m.(dmaSize := size)) else None
  }

  /** `toggle_dma`: start the circular transfer when the flag is clear, stop it when set. */
  function ToggleDma(m: Master): (r: Master)
    ensures r.running == !m.running && r.dmaActive == r.running
    ensures r.(running := m.running, dmaActive := m.dmaActive) == m
  {
    if !m.running then m.(dmaActive := true, running := true)
    else m.(dmaActive := false, running := false)
  }

  /** `run_dma_for`: refused while running; otherwise reset the count, arm the counter and start. */
  function RunDmaFor(m: Master, n: U32): (r: Master)
    ensures m.running ==> r == m
    ensures !m.running ==> r.running && r.dmaActive && r.enabled && r.count == 0 && r.target == n
    ensures r.dmaSize == m.dmaSize && r.queuedToggles == m.queuedToggles
  {
    if m.running then m
    else ToggleDma(m.(count := 0, target := n, enabled := true))
  }

  /**
    `HAL_SPI_TxCpltCallback` and `HAL_SPI_M1TxCpltCallback`, which are
    identical: when counting, count the buffer; on reaching the target stop the
    stream at once, disarm, and post a `toggle_dma` to clear the flag later.
   */
  function TxComplete(m: Master): (r: Master)
    ensures !m.enabled ==> r == m
    ensures m.enabled ==> r.count == m.count + 1 && r.running == m.running && r.target == m.target
    ensures m.enabled && r.count < m.target ==> r == m.(count := r.count)
    ensures m.enabled && r.count >= m.target ==>
      r == m.(count := r.count, dmaActive := false, enabled := false, queuedToggles := m.queuedToggles + 1)
  {
    if !m.enabled then m
    else
      var c := m.count + 1;
      if c >= m.target then m.(count := c, dmaActive := false, enabled := false, queuedToggles := m.queuedToggles + 1)
      else m.(count := c)
  }

  /** The event queue runs one posted `toggle_dma`; None when nothing is posted. */
  function DispatchToggle(m: Master): (r: Option<Master>)
    ensures r.Some? <==> m.queuedToggles > 0
    ensures r.Some? ==> r.value.queuedToggles == m.queuedToggles - 1 && r.value.running == !m.running
  {
    if m.queuedToggles == 0 then None else Some(ToggleDma(m).(queuedToggles := m.queuedToggles - 1))
  }

  /** `k` buffer completions in a row. */
  function Completions(m: Master, k: nat): Master
    decreases k
  {
    if k == 0 then m else Completions(TxComplete(m), k - 1)
  }

  /** The number of completions after which counting stops: the target, but at least one. */
  function Limit(target: U32): (l: nat)
    ensures l >= 1 && l >= target && (target >= 1 ==> l == target)
  {
    if target == 0 then 1 else target
  }

  /** Once disarmed, completions change nothing. */
  lemma {:induction false} DisarmedIgnoresCompletions(m: Master, k: nat)
    requires !m.enabled
    ensures Completions(m, k) == m
    decreases k
  {
    if k > 0 {
      DisarmedIgnoresCompletions(TxComplete(m), k - 1);
    }
  }

  /**
    While armed below its limit, each completion counts one buffer; the one
    that reaches the limit stops the stream, disarms and posts one toggle.
   */
  lemma {:induction false} CountUp(m: Master, k: nat)
    requires m.enabled && m.count < Limit(m.target)
    ensures var r := Completions(m, k);
      m.count + k < Limit(m.target) ==> r == m.(count := m.count + k)
    ensures var r := Completions(m, k);
      m.count + k >= Limit(m.target) ==>
        r == m.(count := Limit(m.target), dmaActive := false, enabled := false, queuedToggles := m.queuedToggles + 1)
    decreases k
  {
    if k > 0 {
      var m1 := TxComplete(m);
      if m.count + 1 < Limit(m.target) {
        CountUp(m1, k - 1);
      } else {
        DisarmedIgnoresCompletions(m1, k - 1);
      }
    }
  }

  /**
    `run_dma_for(n)` from a stopped stream counts exactly max(n, 1) buffers:
    before that many completions it is still armed and transmitting, after
    them it is disarmed with the stream stopped, and dispatching the posted
    toggle clears the running flag, so `run_dma_for` is accepted again.
   */
  lemma RunDmaForCounts(m: Master, n: U32, k: nat)
    requires !m.running
    ensures var r := Completions(RunDmaFor(m, n), k);
      k < Limit(n) ==> r.enabled && r.dmaActive && r.running && r.count == k
    ensures var r := Completions(RunDmaFor(m, n), k);
      k >= Limit(n) ==> !r.enabled && !r.dmaActive && r.count == Limit(n) && r.queuedToggles == m.queuedToggles + 1
    ensures var r := Completions(RunDmaFor(m, n), k);
      k >= Limit(n) ==> DispatchToggle(r).Some? && !DispatchToggle(r).value.running
  {
    CountUp(RunDmaFor(m, n), k);
  }

  /** Buffer completions never change the DMA size. */
  lemma {:induction false} CompletionsKeepSize(m: Master, k: nat)
    ensures Completions(m, k).dmaSize == m.dmaSize
    decreases k
  {
    if k > 0 {
      CompletionsKeepSize(TxComplete(m), k - 1);
    }
  }

  /**
    A size `set_dma_size` accepts fits the transmit buffers, and it is the
    length every later start of the stream uses: `toggle_dma` and
    `run_dma_for` start `HAL_SPI_Transmit_MultiBufferDMA` with it, and any
    number of buffer completions keeps it.
   */
  lemma SetDmaSizeGovernsStream(m: Master, size: U16, n: U32, k: nat)
    requires SetDmaSize(m, size).Some?
    ensures var m1 := SetDmaSize(m, size).value;
      m1.dmaSize == size <= TxBufferSize
      && ToggleDma(m1).dmaSize == size
      && Completions(RunDmaFor(m1, n), k).dmaSize == size
  {
    CompletionsKeepSize(RunDmaFor(SetDmaSize(m, size).value, n), k);
  }
}
