/** The descriptor rings of src/ethernetif.c by value: what the driver does to them, what the
    DMA engine does to them, and the bounded queues they amount to. */
module EthRing {
  import opened Words
  import opened Errors

  type Frame = seq<byte>

  // ETH_TX_BUF_SIZE and ETH_RX_BUF_SIZE, the mask of TBS1, and the frame check sequence.
  const BUF_SIZE: nat := 1524
  const TBS1: nat := 0x2000
  const CRC: nat := 4

  /** DESC3 chains the descriptors in a circle. */
  function Next(i: nat, n: nat): nat { if i + 1 < n then i + 1 else 0 }

  /** The descriptor k places after i. */
  function At(i: nat, k: nat, n: nat): nat
    requires i < n && k <= n
  {
    if i + k < n then i + k else i + k - n
  }

  lemma AtStep(i: nat, k: nat, n: nat)
    requires i < n && k < n
    ensures Next(At(i, k, n), n) == At(i, k + 1, n)
    ensures At(Next(i, n), k, n) == At(i, k + 1, n)
  {
  }

  // ----- transmission -----

  /** A Tx descriptor with its buffer: the OWN bit, DESC1, the bytes at DESC2. */
  datatype TxSlot = TxSlot(own: bool, len: nat, data: seq<byte>)

  /** CurTxDesc, and the descriptor the DMA engine looks at. */
  datatype Tx = Tx(slots: seq<TxSlot>, cur: nat, dma: nat)

  predicate TxShape(t: Tx) {
    && t.cur < |t.slots| && t.dma < |t.slots|
    && forall i :: 0 <= i < |t.slots| ==> |t.slots[i].data| == BUF_SIZE
  }

  /** What low_level_output comes to: a result, or a write past the end of the buffer. */
  datatype Outcome = Returned(err: int, t: Tx) | Overran

  /** low_level_output of the frame f. Its length is not checked. */
  function Output(t: Tx, f: Frame): Outcome
    requires TxShape(t)
  {
    var d := t.slots[t.cur];
    if d.own then Returned(ERR_USE, t)
    else if |f| > BUF_SIZE then Overran
    else
      Returned(ERR_OK,
        Tx(t.slots[t.cur := TxSlot(true, |f| % TBS1, f + d.data[|f|..])], Next(t.cur, |t.slots|), t.dma))
  }

  /** The DMA engine sends what its descriptor says, when it owns it. */
  function Transmit(t: Tx): (Option<Frame>, Tx)
    requires TxShape(t)
  {
    var d := t.slots[t.dma];
    if !d.own then (None, t)
    else
      (Some(if d.len <= |d.data| then d.data[..d.len] else d.data),
       Tx(t.slots[t.dma := d.(own := false)], t.cur, Next(t.dma, |t.slots|)))
  }

  /** The ring holds the frames of q, oldest at the DMA's descriptor, and CurTxDesc is where
      they end: the descriptors owned by the DMA are one interval of the circle. */
  ghost predicate TxHolds(t: Tx, q: seq<Frame>) {
    && TxShape(t) && |q| <= |t.slots| && t.cur == At(t.dma, |q|, |t.slots|)
    && (forall k {:trigger At(t.dma, k, |t.slots|)} :: 0 <= k < |t.slots| ==>
      (t.slots[At(t.dma, k, |t.slots|)].own <==> k < |q|))
    && (forall k {:trigger q[k]} :: 0 <= k < |q| ==> Carried(t.slots[At(t.dma, k, |t.slots|)], q[k]))
  }

  predicate Carried(d: TxSlot, f: Frame) { d.len == |f| <= |d.data| && d.data[..d.len] == f }

  function TxInit(n: nat, garbage: seq<seq<byte>>): Tx
    requires |garbage| == n
  {
    Tx(seq(n, i requires 0 <= i < n => TxSlot(false, 0, garbage[i])), 0, 0)
  }

  /** The driver adds to the end of the queue, and reports ERR_USE exactly when it is full. It
      writes past the buffer exactly when it is not, and the frame is longer than that. */
  lemma OutputQueues(t: Tx, q: seq<Frame>, f: Frame)
    requires TxHolds(t, q)
    ensures Output(t, f).Overran? <==> |q| < |t.slots| && |f| > BUF_SIZE
    ensures Output(t, f).Returned? ==> var Returned(r, t') := Output(t, f);
      && (r == ERR_USE <==> |q| == |t.slots|) && (r == ERR_USE || r == ERR_OK)
      && TxHolds(t', if r == ERR_OK then q + [f] else q)
  {
    var n := |t.slots|;
    if |q| < n { assert !t.slots[At(t.dma, |q|, n)].own; }
    if |q| < n && |f| <= BUF_SIZE {
      var t' := Output(t, f).t;
      AtStep(t.dma, |q|, n);
      forall k | 0 <= k < n ensures t'.slots[At(t.dma, k, n)].own <==> k < |q| + 1 {
        assert t.slots[At(t.dma, k, n)].own <==> k < |q|;
      }
      forall k | 0 <= k < |q| + 1 ensures Carried(t'.slots[At(t.dma, k, n)], (q + [f])[k]) {
        if k < |q| { assert Carried(t.slots[At(t.dma, k, n)], q[k]); }
      }
    }
    if |q| == n { assert t.slots[At(t.dma, 0, n)].own; }
  }

  /** The DMA engine takes from the front of the queue. */
  lemma TransmitDequeues(t: Tx, q: seq<Frame>)
    requires TxHolds(t, q)
    ensures var (r, t') := Transmit(t);
      if q == [] then r == None && t' == t else r == Some(q[0]) && TxHolds(t', q[1..])
  {
    var n := |t.slots|;
    var t' := Transmit(t).1;
    assert t.slots[At(t.dma, 0, n)].own <==> 0 < |q|;
    if q != [] {
      forall k | 0 <= k < n ensures t'.slots[At(t'.dma, k, n)].own <==> k < |q| - 1 {
        AtStep(t.dma, k, n);
        if k + 1 < n { assert t.slots[At(t.dma, k + 1, n)].own <==> k + 1 < |q|; }
      }
      forall k | 0 <= k < |q| - 1 ensures Carried(t'.slots[At(t'.dma, k, n)], q[1..][k]) {
        AtStep(t.dma, k, n);
        assert Carried(t.slots[At(t.dma, k + 1, n)], q[k + 1]);
      }
      AtStep(t.dma, |q| - 1, n);
    }
  }

  lemma TxInitHolds(n: nat, garbage: seq<seq<byte>>)
    requires n > 0 && |garbage| == n && forall g :: g in garbage ==> |g| == BUF_SIZE
    ensures TxHolds(TxInit(n, garbage), [])
  {
  }

  // ----- reception -----

  /** What the DMA engine puts into one descriptor: a whole frame, check sequence included,
      or a segment or frame in error, which the driver is to throw away. */
  datatype Arrival = Good(f: Frame) | Bad(es: bool, ls: bool, noise: seq<byte>)

  predicate Legal(a: Arrival) {
    match a
    case Good(f) => CRC <= |f| <= BUF_SIZE
    case Bad(es, ls, noise) => (es || !ls) && |noise| == BUF_SIZE
  }

  /** An Rx descriptor with its buffer: OWN, ES, LS and FL of DESC0, the bytes at DESC2. */
  datatype RxSlot = RxSlot(own: bool, es: bool, ls: bool, fl: nat, data: seq<byte>)

  datatype Rx = Rx(slots: seq<RxSlot>, cur: nat, dma: nat)

  predicate RxShape(r: Rx) {
    && r.cur < |r.slots| && r.dma < |r.slots|
    && forall i :: 0 <= i < |r.slots| ==> |r.slots[i].data| == BUF_SIZE
  }

  function Filled(d: RxSlot, a: Arrival): RxSlot
    requires |d.data| == BUF_SIZE && Legal(a)
  {
    match a
    case Good(f) => RxSlot(false, false, true, |f|, f + d.data[|f|..])
    case Bad(es, ls, noise) => RxSlot(false, es, ls, 0, noise)
  }

  /** The DMA engine fills its descriptor, when it owns it; else the arrival is missed. */
  function Arrive(r: Rx, a: Arrival): (bool, Rx)
    requires RxShape(r) && Legal(a)
  {
    var d := r.slots[r.dma];
    if !d.own then (false, r)
    else
      (true, Rx(r.slots[r.dma := Filled(d, a)], r.cur, Next(r.dma, |r.slots|)))
  }

  /** What low_level_input finds: nothing, something to throw away, or the bytes of a frame. */
  datatype Found = Nothing | Junk | Bytes(f: Frame)

  /** len, a u16_t: the frame length less the check sequence. */
  function FrameLength(fl: nat): nat { (fl - CRC) % U16 }

  function Look(d: RxSlot): Found {
    if d.own then Nothing
    else if !d.es && d.ls then Bytes(if FrameLength(d.fl) <= |d.data| then d.data[..FrameLength(d.fl)] else d.data)
    else Junk
  }

  /** low_level_input, apart from the pbuf: look, give the descriptor back, step on. */
  function Input(r: Rx): (Found, Rx)
    requires RxShape(r)
  {
    var d := r.slots[r.cur];
    if d.own then (Nothing, r)
    else (Look(d), Rx(r.slots[r.cur := d.(own := true)], Next(r.cur, |r.slots|), r.dma))
  }

  /** Stored is what the descriptor's buffer and flags say of an arrival. */
  predicate Stored(d: RxSlot, a: Arrival) {
    match a
    case Good(f) => !d.es && d.ls && d.fl == |f| && CRC <= |f| <= |d.data| && d.data[..|f|] == f
    case Bad(es, ls, noise) => d.es || !d.ls
  }

  /** The arrivals of q wait for the driver, oldest at CurRxDesc; the DMA engine owns the rest. */
  ghost predicate RxHolds(r: Rx, q: seq<Arrival>) {
    && RxShape(r) && |q| <= |r.slots| && r.dma == At(r.cur, |q|, |r.slots|)
    && (forall k {:trigger At(r.cur, k, |r.slots|)} :: 0 <= k < |r.slots| ==>
      (r.slots[At(r.cur, k, |r.slots|)].own <==> k >= |q|))
    && (forall k {:trigger q[k]} :: 0 <= k < |q| ==> Stored(r.slots[At(r.cur, k, |r.slots|)], q[k]))
  }

  /** What becomes of an arrival: its bytes without the check sequence, or nothing. */
  function Delivery(a: Arrival): Found
    requires Legal(a)
  {
    match a
    case Good(f) => Bytes(f[..|f| - CRC])
    case Bad(_, _, _) => Junk
  }

  /** The DMA engine adds to the queue unless every descriptor is waiting for the driver. */
  lemma ArriveQueues(r: Rx, q: seq<Arrival>, a: Arrival)
    requires RxHolds(r, q) && Legal(a)
    ensures var (taken, r') := Arrive(r, a);
      (taken <==> |q| < |r.slots|) && RxHolds(r', if taken then q + [a] else q)
  {
    var n := |r.slots|;
    var r' := Arrive(r, a).1;
    if |q| < n {
      assert r.slots[At(r.cur, |q|, n)].own;
      AtStep(r.cur, |q|, n);
      forall k | 0 <= k < n ensures r'.slots[At(r.cur, k, n)].own <==> k >= |q| + 1 {
        assert r.slots[At(r.cur, k, n)].own <==> k >= |q|;
      }
      forall k | 0 <= k < |q| + 1 ensures Stored(r'.slots[At(r.cur, k, n)], (q + [a])[k]) {
        if k < |q| { assert Stored(r.slots[At(r.cur, k, n)], q[k]); }
      }
    } else {
      assert !r.slots[At(r.cur, 0, n)].own;
    }
  }

  ghost predicate AllLegal(s: seq<Arrival>) { forall k :: 0 <= k < |s| ==> Legal(s[k]) }

  /** The driver takes the oldest arrival, with exactly its bytes, and gives the descriptor back. */
  lemma InputDequeues(r: Rx, q: seq<Arrival>)
    requires RxHolds(r, q) && AllLegal(q)
    ensures var (found, r') := Input(r);
      if q == [] then found == Nothing && r' == r
      else found == Delivery(q[0]) && RxHolds(r', q[1..])
  {
    var n := |r.slots|;
    var r' := Input(r).1;
    assert r.slots[At(r.cur, 0, n)].own <==> 0 >= |q|;
    if q != [] {
      assert Stored(r.slots[At(r.cur, 0, n)], q[0]) && Legal(q[0]);
      LookAt(r.slots[r.cur], q[0]);
      forall k | 0 <= k < n ensures r'.slots[At(r'.cur, k, n)].own <==> k >= |q| - 1 {
        AtStep(r.cur, k, n);
        if k + 1 < n { assert r.slots[At(r.cur, k + 1, n)].own <==> k + 1 >= |q|; }
      }
      forall k | 0 <= k < |q| - 1 ensures Stored(r'.slots[At(r'.cur, k, n)], q[1..][k]) {
        AtStep(r.cur, k, n);
        assert Stored(r.slots[At(r.cur, k + 1, n)], q[k + 1]);
      }
      AtStep(r.cur, |q| - 1, n);
    }
  }

  lemma LookAt(d: RxSlot, a: Arrival)
    requires !d.own && Stored(d, a) && Legal(a)
    ensures Look(d) == Delivery(a)
  {
    if a.Good? { assert FrameLength(d.fl) == |a.f| - CRC && d.data[..|a.f|][..|a.f|-CRC] == d.data[..|a.f|-CRC]; }
  }

  function RxInit(n: nat, garbage: seq<seq<byte>>): Rx
    requires |garbage| == n
  {
    Rx(seq(n, i requires 0 <= i < n => RxSlot(true, false, false, 0, garbage[i])), 0, 0)
  }

  lemma RxInitHolds(n: nat, garbage: seq<seq<byte>>)
    requires n > 0 && |garbage| == n && forall g :: g in garbage ==> |g| == BUF_SIZE
    ensures RxHolds(RxInit(n, garbage), [])
  {
  }
}
