/** low_level_output of src/ethernetif.c one access at a time, with the DMA engine at work
    between any two of them. */
module EthTxSteps {
  import opened Words
  import opened EthRing
  import opened PbufBytes

  /** Where low_level_output is: not called; past its test of OWN, with k records of c copied;
      with DESC1 written; with DESC0 written, but CurTxDesc as it was; or past the end of its
      buffer, after which nothing is claimed. */
  datatype TxPlace =
    | Idle
    | Copying(c: seq<seq<byte>>, k: nat)
    | Sized(c: seq<seq<byte>>)
    | Handed
    | PastBuffer(c: seq<seq<byte>>)

  datatype TxState = TxState(t: Tx, at: TxPlace)

  /** The accesses it makes, in its order. */
  datatype TxMove = TestOwn(c: seq<seq<byte>>) | CopyRecord | WriteSize | SetOwn | StepOn

  ghost predicate TxCan(st: TxState, m: TxMove) {
    match m
    case TestOwn(c) => st.at.Idle?
    case CopyRecord => st.at.Copying? && st.at.k < |st.at.c|
    case WriteSize => st.at.Copying? && st.at.k == |st.at.c|
    case SetOwn => st.at.Sized?
    case StepOn => st.at.Handed?
  }

  ghost function TxDo(st: TxState, m: TxMove): TxState
    requires TxShape(st.t) && TxCan(st, m)
  {
    var t, d := st.t, st.t.slots[st.t.cur];
    match m
    case TestOwn(c) => if d.own then st else st.(at := Copying(c, 0))
    case CopyRecord =>
      var (c, k) := (st.at.c, st.at.k);
      if Start(c, k) + |c[k]| > |d.data| then st.(at := PastBuffer(c))
      else TxState(t.(slots := t.slots[t.cur := d.(data := Patch(d.data, Start(c, k), c[k]))]), Copying(c, k + 1))
    case WriteSize => TxState(t.(slots := t.slots[t.cur := d.(len := |Concat(st.at.c)| % TBS1)]), Sized(st.at.c))
    case SetOwn => TxState(t.(slots := t.slots[t.cur := d.(own := true)]), Handed)
    case StepOn => TxState(t.(cur := Next(t.cur, |t.slots|)), Idle)
  }

  /** The driver makes its next access, or the DMA engine looks at its descriptor. */
  datatype TxEvent = Driver(m: TxMove) | Fetch

  /** The ring, the frames the driver gave to the DMA engine, and those that went out. */
  datatype TxTrace = TxTrace(st: TxState, given: seq<Frame>, sent: seq<Frame>)

  ghost predicate TxEnabled(s: TxTrace, e: TxEvent) {
    TxShape(s.st.t) && !s.st.at.PastBuffer? && (e.Driver? ==> TxCan(s.st, e.m))
  }

  ghost function TxStep(s: TxTrace, e: TxEvent): TxTrace
    requires TxEnabled(s, e)
  {
    match e
    case Driver(m) =>
      TxTrace(TxDo(s.st, m), if m.SetOwn? then s.given + [Concat(s.st.at.c)] else s.given, s.sent)
    case Fetch =>
      var (f, t') := Transmit(s.st.t);
      TxTrace(s.st.(t := t'), s.given, match f case None => s.sent case Some(f) => s.sent + [f])
  }

  /** The ring holds the frames of q and the driver is where it is: the descriptor it works on
      belongs to it, and has what was copied so far; once the descriptor is handed over, only
      the cursor is behind. */
  ghost predicate TxMid(st: TxState, q: seq<Frame>) {
    match st.at
    case Idle => TxHolds(st.t, q)
    case Copying(c, k) =>
      && TxHolds(st.t, q) && |q| < |st.t.slots| && k <= |c|
      && Start(c, k) <= BUF_SIZE && st.t.slots[st.t.cur].data[..Start(c, k)] == Concat(c[..k])
    case Sized(c) => TxHolds(st.t, q) && |q| < |st.t.slots| && Carried(st.t.slots[st.t.cur], Concat(c)) &&
      |Concat(c)| <= BUF_SIZE
    case Handed => TxShape(st.t) && TxHolds(st.t.(cur := Next(st.t.cur, |st.t.slots|)), q)
    case PastBuffer(c) => TxHolds(st.t, q) && |q| < |st.t.slots| && |Concat(c)| > BUF_SIZE
  }

  lemma TxMidShape(st: TxState, q: seq<Frame>)
    requires TxMid(st, q)
    ensures TxShape(st.t) && |q| <= |st.t.slots|
  {
  }

  /** The current descriptor belongs to the driver exactly when the ring is not full. */
  lemma CurOwned(t: Tx, q: seq<Frame>)
    requires TxHolds(t, q)
    ensures t.slots[t.cur].own <==> |q| == |t.slots|
  {
    var n := |t.slots|;
    if |q| < n { assert !t.slots[At(t.dma, |q|, n)].own; } else { assert t.slots[At(t.dma, 0, n)].own; }
  }

  /** Writing to a descriptor that the ring does not use, but for OWN. */
  lemma TxAside(t: Tx, q: seq<Frame>, d: TxSlot)
    requires TxHolds(t, q) && |q| < |t.slots| && !d.own && |d.data| == BUF_SIZE
    ensures TxHolds(t.(slots := t.slots[t.cur := d]), q)
  {
    var n, t' := |t.slots|, t.(slots := t.slots[t.cur := d]);
    forall k | 0 <= k < n ensures t'.slots[At(t.dma, k, n)].own <==> k < |q| {
      assert t.slots[At(t.dma, k, n)].own <==> k < |q|;
    }
    forall k | 0 <= k < |q| ensures Carried(t'.slots[At(t.dma, k, n)], q[k]) {
      assert Carried(t.slots[At(t.dma, k, n)], q[k]);
    }
  }

  /** Handing it over with a frame in it. */
  lemma TxHandOver(t: Tx, q: seq<Frame>, f: Frame)
    requires TxHolds(t, q) && |q| < |t.slots| && Carried(t.slots[t.cur], f)
    ensures TxHolds(Tx(t.slots[t.cur := t.slots[t.cur].(own := true)], Next(t.cur, |t.slots|), t.dma), q + [f])
  {
    var n := |t.slots|;
    var t' := Tx(t.slots[t.cur := t.slots[t.cur].(own := true)], Next(t.cur, n), t.dma);
    AtStep(t.dma, |q|, n);
    forall k | 0 <= k < n ensures t'.slots[At(t.dma, k, n)].own <==> k < |q| + 1 {
      assert t.slots[At(t.dma, k, n)].own <==> k < |q|;
    }
    forall k | 0 <= k < |q| + 1 ensures Carried(t'.slots[At(t.dma, k, n)], (q + [f])[k]) {
      if k < |q| { assert Carried(t.slots[At(t.dma, k, n)], q[k]); }
    }
  }

  /** What the driver's next access does to the queue: only setting OWN adds a frame. */
  ghost function TxAfter(st: TxState, q: seq<Frame>, m: TxMove): seq<Frame>
    requires TxCan(st, m)
  {
    if m.SetOwn? then q + [Concat(st.at.c)] else q
  }

  lemma CopyKeeps(data: seq<byte>, c: seq<seq<byte>>, k: nat)
    requires k < |c| && Start(c, k) <= |data| && data[..Start(c, k)] == Concat(c[..k])
    ensures Start(c, k + 1) == Start(c, k) + |c[k]| <= |Concat(c)|
    ensures Start(c, k + 1) <= |data| ==> Patch(data, Start(c, k), c[k])[..Start(c, k + 1)] == Concat(c[..k+1])
  {
    StartStep(c, k);
    StartMonotone(c, k + 1, |c|);
    StartEnds(c);
    ConcatSplit(c[..k], [c[k]]);
    assert c[..k+1] == c[..k] + [c[k]] && Concat([c[k]]) == c[k] + Concat([]);
  }

  lemma DriverKeeps(st: TxState, q: seq<Frame>, m: TxMove)
    requires TxMid(st, q) && TxCan(st, m)
    ensures TxMid(TxDo(st, m), TxAfter(st, q, m))
  {
    hide TxHolds, Concat, Start;
    match m {
      case TestOwn(c) =>
        CurOwned(st.t, q);
        CopyStart(st.t, q, c);
      case CopyRecord =>
        CurOwned(st.t, q);
        TxMidShape(st, q);
        CopyKeeps(st.t.slots[st.t.cur].data, st.at.c, st.at.k);
        if TxDo(st, m).at.Copying? { TxAside(st.t, q, TxDo(st, m).t.slots[st.t.cur]); }
      case WriteSize =>
        CurOwned(st.t, q);
        TxMidShape(st, q);
        CopyEnd(st.at.c);
        TxAside(st.t, q, TxDo(st, m).t.slots[st.t.cur]);
      case SetOwn =>
        TxMidShape(st, q);
        TxHandOver(st.t, q, Concat(st.at.c));
      case StepOn =>
    }
  }

  lemma CopyStart(t: Tx, q: seq<Frame>, c: seq<seq<byte>>)
    requires TxHolds(t, q)
    ensures TxShape(t) && |q| <= |t.slots| && Start(c, 0) == 0 && c[..0] == [] && Concat([]) == []
  {
    StartEnds(c);
  }

  lemma CopyEnd(c: seq<seq<byte>>)
    ensures Start(c, |c|) == |Concat(c)| && c[..|c|] == c
  {
    StartEnds(c);
  }

  lemma FetchKeeps(st: TxState, q: seq<Frame>)
    requires TxMid(st, q)
    ensures var (f, t') := Transmit(st.t);
      if q == [] then f == None && t' == st.t else f == Some(q[0]) && TxMid(st.(t := t'), q[1..])
  {
    var n := |st.t.slots|;
    if st.at.Handed? {
      TransmitDequeues(st.t.(cur := Next(st.t.cur, n)), q);
    } else {
      TransmitDequeues(st.t, q);
      CurOwned(st.t, q);
    }
  }

  ghost predicate TxEnabledRun(s: TxTrace, es: seq<TxEvent>)
    decreases |es|
  {
    es != [] ==> TxEnabled(s, es[0]) && TxEnabledRun(TxStep(s, es[0]), es[1..])
  }

  ghost function TxRun(s: TxTrace, es: seq<TxEvent>): TxTrace
    requires TxEnabledRun(s, es)
    decreases |es|
  {
    if es == [] then s else TxRun(TxStep(s, es[0]), es[1..])
  }

  /** The frames given to the DMA engine are those that went out and those of q, which wait. */
  ghost predicate TxOk(s: TxTrace, q: seq<Frame>) { TxMid(s.st, q) && s.given == s.sent + q }

  lemma TxOne(s: TxTrace, q: seq<Frame>, e: TxEvent) returns (q': seq<Frame>)
    requires TxOk(s, q) && TxEnabled(s, e)
    ensures TxOk(TxStep(s, e), q') && |TxStep(s, e).st.t.slots| == |s.st.t.slots|
  {
    hide TxMid, TxDo, Transmit;
    TxSameSize(s, e);
    q' := q;
    match e {
      case Driver(m) =>
        DriverKeeps(s.st, q, m);
        q' := TxAfter(s.st, q, m);
        if m.SetOwn? { assert s.sent + q + [Concat(s.st.at.c)] == s.sent + q'; }
      case Fetch =>
        FetchKeeps(s.st, q);
        if q != [] {
          q' := q[1..];
          assert s.sent + q == s.sent + [q[0]] + q';
        }
    }
  }

  lemma TxSameSize(s: TxTrace, e: TxEvent)
    requires TxEnabled(s, e)
    ensures |TxStep(s, e).st.t.slots| == |s.st.t.slots|
  {
  }

  /** Driver and DMA engine in any interleaving of their accesses: frames leave in the order
      they were handed over, with exactly their bytes, none is lost or repeated, and at most as
      many as there are descriptors wait. */
  lemma {:induction false} TxInOrder(s: TxTrace, q: seq<Frame>, es: seq<TxEvent>) returns (q': seq<Frame>)
    requires TxOk(s, q) && TxEnabledRun(s, es)
    ensures TxOk(TxRun(s, es), q') && |q'| <= |s.st.t.slots|
    decreases |es|
  {
    TxMidShape(s.st, q);
    q' := q;
    if es != [] {
      q' := TxOne(s, q, es[0]);
      q' := TxInOrder(TxStep(s, es[0]), q', es[1..]);
    }
  }

  /** Each side leaves alone what the other one owns. */
  ghost predicate TxApart(t: Tx, t': Tx, driver: bool) {
    |t'.slots| == |t.slots| && forall i :: 0 <= i < |t.slots| && t.slots[i].own == driver ==> t'.slots[i] == t.slots[i]
  }

  ghost predicate TxAllApart(s: TxTrace, es: seq<TxEvent>)
    requires TxEnabledRun(s, es)
    decreases |es|
  {
    es != [] ==> TxApart(s.st.t, TxStep(s, es[0]).st.t, es[0].Driver?) && TxAllApart(TxStep(s, es[0]), es[1..])
  }

  lemma TxOneApart(s: TxTrace, q: seq<Frame>, e: TxEvent)
    requires TxMid(s.st, q) && TxEnabled(s, e)
    ensures TxApart(s.st.t, TxStep(s, e).st.t, e.Driver?)
  {
    hide TxHolds, Concat, Start, Patch;
    if !s.st.at.Handed? { CurOwned(s.st.t, q); }
  }

  /** In every interleaving no access of the driver changes a descriptor or a buffer that the
      DMA engine owns, nor the other way round. */
  lemma {:induction false} TxSpares(s: TxTrace, q: seq<Frame>, es: seq<TxEvent>)
    requires TxOk(s, q) && TxEnabledRun(s, es)
    ensures TxAllApart(s, es)
    decreases |es|
  {
    if es != [] {
      TxOneApart(s, q, es[0]);
      var q' := TxOne(s, q, es[0]);
      TxSpares(TxStep(s, es[0]), q', es[1..]);
    }
  }

  /** low_level_output gives up at once, with ERR_USE, exactly when every descriptor waits for
      the DMA engine. */
  lemma BusyExactly(st: TxState, q: seq<Frame>, c: seq<seq<byte>>)
    requires TxMid(st, q) && TxCan(st, TestOwn(c))
    ensures TxDo(st, TestOwn(c)).at.Idle? <==> |q| == |st.t.slots|
  {
    CurOwned(st.t, q);
  }

  /** So for any number of descriptors and every run from low_level_init on. */
  lemma TxFromStart(n: nat, garbage: seq<seq<byte>>, es: seq<TxEvent>) returns (q: seq<Frame>)
    requires n > 0 && |garbage| == n && forall g :: g in garbage ==> |g| == BUF_SIZE
    requires TxEnabledRun(TxTrace(TxState(TxInit(n, garbage), Idle), [], []), es)
    ensures var start := TxTrace(TxState(TxInit(n, garbage), Idle), [], []);
      TxAllApart(start, es) && TxRun(start, es).given == TxRun(start, es).sent + q && |q| <= n
  {
    var start := TxTrace(TxState(TxInit(n, garbage), Idle), [], []);
    TxInitHolds(n, garbage);
    TxSpares(start, [], es);
    q := TxInOrder(start, [], es);
  }
}
