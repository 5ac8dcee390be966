/** low_level_input of src/ethernetif.c one access at a time, with the DMA engine at work
    between any two of them. */
module EthRxSteps {
  import opened Words
  import opened EthRing
  import PbufAlloc

  /** Where low_level_input is: not called; about to ask pbuf_alloc for len bytes, when free
      pool elements are left; with k records of the chain filled, whose sizes are parts, and
      got in them; through with the buffer, with or without a chain; with DESC0 written, but
      CurRxDesc as it was. free is what was left in the pool, or zero when nothing was asked. */
  datatype RxPlace =
    | Idle
    | Asking(len: nat)
    | Reading(parts: seq<nat>, k: nat, got: Frame, free: nat)
    | Leaving(p: Option<Frame>, free: nat)
    | Returned(p: Option<Frame>)

  datatype RxState = RxState(r: Rx, at: RxPlace)

  datatype RxMove = TestOwn | Allocate(parts: seq<nat>, free: nat) | ReadRecord | SetOwn | StepOn

  function Total(parts: seq<nat>): nat { if parts == [] then 0 else Total(parts[..|parts|-1]) + parts[|parts|-1] }

  ghost predicate RxCan(st: RxState, m: RxMove) {
    match m
    case TestOwn => st.at.Idle?
    case Allocate(parts, _) => st.at.Asking? && Total(parts) == st.at.len
    case ReadRecord => st.at.Reading? && st.at.k < |st.at.parts|
    case SetOwn => st.at.Leaving? || (st.at.Reading? && st.at.k == |st.at.parts|)
    case StepOn => st.at.Returned?
  }

  /** Whether pbuf_alloc finds pool elements for a frame of len bytes. */
  predicate HasRoom(len: nat, free: nat) { PbufAlloc.Elements(PbufAlloc.Raw, len) <= free }

  /** memcpy out of a buffer. */
  function ReadOut(data: seq<byte>, at: nat, n: nat): seq<byte> { if at + n <= |data| then data[at..at+n] else [] }

  ghost function RxDo(st: RxState, m: RxMove): RxState
    requires RxShape(st.r) && RxCan(st, m)
  {
    var r, d := st.r, st.r.slots[st.r.cur];
    match m
    case TestOwn =>
      if d.own then st
      else if !d.es && d.ls then st.(at := Asking(FrameLength(d.fl)))
      else st.(at := Leaving(None, 0))
    case Allocate(parts, free) =>
      st.(at := if HasRoom(st.at.len, free) then Reading(parts, 0, [], free) else Leaving(None, free))
    case ReadRecord =>
      st.(at := st.at.(k := st.at.k + 1, got := st.at.got + ReadOut(d.data, |st.at.got|, st.at.parts[st.at.k])))
    case SetOwn => RxState(r.(slots := r.slots[r.cur := d.(own := true)]), RxPlace.Returned(Chain(st.at)))
    case StepOn => RxState(r.(cur := Next(r.cur, |r.slots|)), Idle)
  }

  /** The chain low_level_input will return. */
  function Chain(at: RxPlace): Option<Frame> {
    match at
    case Reading(_, _, got, _) => Some(got)
    case Leaving(p, _) => p
    case Returned(p) => p
    case Idle => None
    case Asking(_) => None
  }

  datatype RxEvent = Driver(m: RxMove) | Land(a: Arrival)

  /** The ring, the arrivals the DMA engine took, how many pool elements were left at each one
      the driver dealt with, and the frames handed to the stack. */
  datatype RxTrace = RxTrace(st: RxState, taken: seq<Arrival>, frees: seq<nat>, delivered: seq<Frame>)

  ghost predicate RxEnabled(s: RxTrace, e: RxEvent) {
    RxShape(s.st.r) && match e case Driver(m) => RxCan(s.st, m) case Land(a) => Legal(a)
  }

  function FreeAt(at: RxPlace): nat {
    if at.Reading? then at.free else if at.Leaving? then at.free else 0
  }

  function AsFrames(p: Option<Frame>): seq<Frame> { match p case None => [] case Some(f) => [f] }

  ghost function RxStep(s: RxTrace, e: RxEvent): RxTrace
    requires RxEnabled(s, e)
  {
    match e
    case Driver(m) =>
      RxTrace(RxDo(s.st, m), s.taken, if m.SetOwn? then s.frees + [FreeAt(s.st.at)] else s.frees,
        if m.StepOn? then s.delivered + AsFrames(s.st.at.p) else s.delivered)
    case Land(a) =>
      var (taken, r') := Arrive(s.st.r, a);
      s.(st := s.st.(r := r'), taken := if taken then s.taken + [a] else s.taken)
  }

  /** What the stack should see of an arrival: a good frame without its check sequence, if
      there were pool elements for it. */
  function HandedUp(a: Arrival, free: nat): seq<Frame>
    requires Legal(a)
  {
    if a.Good? && HasRoom(|a.f| - CRC, free) then [a.f[..|a.f| - CRC]] else []
  }

  function Expected(done: seq<Arrival>, frees: seq<nat>): seq<Frame>
    requires |done| == |frees| && AllLegal(done)
  {
    if done == [] then []
    else Expected(done[..|done|-1], frees[..|frees|-1]) + HandedUp(done[|done|-1], frees[|frees|-1])
  }

  /** The arrivals of q wait in the ring, and the driver is where it is with the oldest. */
  ghost predicate RxMid(st: RxState, q: seq<Arrival>) {
    match st.at
    case Idle => RxHolds(st.r, q)
    case Asking(len) => RxHolds(st.r, q) && q != [] && q[0].Good? && Legal(q[0]) && len == |q[0].f| - CRC
    case Reading(parts, k, got, free) =>
      && RxHolds(st.r, q) && q != [] && q[0].Good? && Legal(q[0]) && HasRoom(|q[0].f| - CRC, free)
      && k <= |parts| && Total(parts[..k]) <= Total(parts) == |q[0].f| - CRC && got == q[0].f[..Total(parts[..k])]
    case Leaving(p, free) => RxHolds(st.r, q) && q != [] && Legal(q[0]) && AsFrames(p) == HandedUp(q[0], free)
    case Returned(p) => RxShape(st.r) && RxHolds(st.r.(cur := Next(st.r.cur, |st.r.slots|)), q)
  }

  /** The driver has dealt with the oldest arrivals, and the others wait in the ring. */
  ghost predicate RxOk(s: RxTrace, q: seq<Arrival>) {
    && RxMid(s.st, q) && AllLegal(s.taken)
    && |s.frees| + |q| == |s.taken| && q == s.taken[|s.frees|..]
    && s.delivered + (if s.st.at.Returned? then AsFrames(s.st.at.p) else []) == Expected(s.taken[..|s.frees|], s.frees)
  }

  lemma RxMidShape(st: RxState, q: seq<Arrival>)
    requires RxMid(st, q)
    ensures RxShape(st.r) && |q| <= |st.r.slots|
  {
  }

  /** The current descriptor is the driver's exactly when something waits, and holds the oldest. */
  lemma CurWaits(r: Rx, q: seq<Arrival>)
    requires RxHolds(r, q)
    ensures r.slots[r.cur].own <==> q == []
    ensures q != [] ==> Stored(r.slots[r.cur], q[0])
  {
    assert r.slots[At(r.cur, 0, |r.slots|)].own <==> 0 >= |q|;
    if q != [] { assert Stored(r.slots[At(r.cur, 0, |r.slots|)], q[0]); }
  }

  lemma RxGiveBack(r: Rx, q: seq<Arrival>)
    requires RxHolds(r, q) && q != []
    ensures RxHolds(Rx(r.slots[r.cur := r.slots[r.cur].(own := true)], Next(r.cur, |r.slots|), r.dma), q[1..])
  {
    CurWaits(r, q);
    var n := |r.slots|;
    var r' := Rx(r.slots[r.cur := r.slots[r.cur].(own := true)], Next(r.cur, n), r.dma);
    forall k | 0 <= k < n ensures r'.slots[At(r'.cur, k, n)].own <==> k >= |q| - 1 {
      AtStep(r.cur, k, n);
      if k + 1 < n { assert r.slots[At(r.cur, k + 1, n)].own <==> k + 1 >= |q|; }
    }
    forall k | 0 <= k < |q| - 1 ensures Stored(r'.slots[At(r'.cur, k, n)], q[1..][k]) {
      AtStep(r.cur, k, n);
      assert Stored(r.slots[At(r.cur, k + 1, n)], q[k + 1]);
    }
    AtStep(r.cur, |q| - 1, n);
  }

  lemma {:induction false} TotalTo(parts: seq<nat>, k: nat)
    requires k < |parts|
    ensures Total(parts[..k+1]) == Total(parts[..k]) + parts[k] <= Total(parts)
    decreases |parts|
  {
    assert parts[..k+1][..k] == parts[..k];
    if k + 1 < |parts| {
      TotalTo(parts[..|parts|-1], k);
      assert parts[..|parts|-1][..k+1] == parts[..k+1] && parts[..|parts|-1][..k] == parts[..k];
    } else {
      assert parts[..k+1] == parts;
    }
  }

  /** What the driver's next access does to the queue: setting OWN takes the oldest out. */
  function RxAfter(q: seq<Arrival>, m: RxMove): seq<Arrival> { if m.SetOwn? && q != [] then q[1..] else q }

  lemma DriverKeeps(st: RxState, q: seq<Arrival>, m: RxMove)
    requires RxMid(st, q) && AllLegal(q) && RxCan(st, m)
    ensures RxMid(RxDo(st, m), RxAfter(q, m))
    ensures m.SetOwn? ==> q != [] && Legal(q[0]) && AsFrames(RxDo(st, m).at.p) == HandedUp(q[0], FreeAt(st.at))
  {
    hide RxHolds, ReadOut, HasRoom, Total;
    match m {
      case TestOwn =>
        CurWaits(st.r, q);
        if q != [] { assert Legal(q[0]); }
      case Allocate(parts, free) => NothingRead(parts);
      case ReadRecord =>
        CurWaits(st.r, q);
        RxMidShape(st, q);
        TotalTo(st.at.parts, st.at.k);
        ReadMore(st.r.slots[st.r.cur].data, q[0].f, Total(st.at.parts[..st.at.k]), st.at.parts[st.at.k],
          |q[0].f| - CRC);
      case SetOwn =>
        RxMidShape(st, q);
        RxGiveBack(st.r, q);
        if st.at.Reading? { assert st.at.parts[..st.at.k] == st.at.parts; }
      case StepOn =>
    }
  }

  lemma NothingRead(parts: seq<nat>)
    ensures parts[..0] == [] && Total([]) == 0
  {
  }

  /** The next n bytes of the frame, read where the last ones ended. */
  lemma ReadMore(data: seq<byte>, f: Frame, l: nat, n: nat, len: nat)
    requires |f| <= |data| && data[..|f|] == f && l + n <= len <= |f|
    ensures f[..l] + ReadOut(data, |f[..l]|, n) == f[..l+n]
  {
    InnerSlice(data, 0, |f|, l, l + n);
    assert data[0..|f|] == f;
    assert f[..l+n] == f[..l] + f[l..l+n];
  }

  lemma LandKeeps(st: RxState, q: seq<Arrival>, a: Arrival)
    requires RxMid(st, q) && Legal(a)
    ensures var (taken, r') := Arrive(st.r, a);
      (taken <==> |q| < |st.r.slots|) && RxMid(st.(r := r'), if taken then q + [a] else q)
  {
    hide Expected, Total;
    if st.at.Returned? {
      ArriveQueues(st.r.(cur := Next(st.r.cur, |st.r.slots|)), q, a);
    } else {
      ArriveQueues(st.r, q, a);
    }
  }

  lemma RxOne(s: RxTrace, q: seq<Arrival>, e: RxEvent) returns (q': seq<Arrival>)
    requires RxOk(s, q) && RxEnabled(s, e)
    ensures RxOk(RxStep(s, e), q') && |RxStep(s, e).st.r.slots| == |s.st.r.slots|
  {
    RxSameSize(s, e);
    match e {
      case Driver(m) => q' := RxDriver(s, q, m);
      case Land(a) => q' := RxLand(s, q, a);
    }
  }

  lemma RxSameSize(s: RxTrace, e: RxEvent)
    requires RxEnabled(s, e)
    ensures |RxStep(s, e).st.r.slots| == |s.st.r.slots|
  {
  }

  lemma RxLand(s: RxTrace, q: seq<Arrival>, a: Arrival) returns (q': seq<Arrival>)
    requires RxOk(s, q) && RxEnabled(s, Land(a))
    ensures RxOk(RxStep(s, Land(a)), q')
  {
    hide Arrive, Expected, RxMid;
    LandKeeps(s.st, q, a);
    q' := q;
    if Arrive(s.st.r, a).0 {
      q' := q + [a];
      assert (s.taken + [a])[..|s.frees|] == s.taken[..|s.frees|];
    }
  }

  lemma RxDriver(s: RxTrace, q: seq<Arrival>, m: RxMove) returns (q': seq<Arrival>)
    requires RxOk(s, q) && RxEnabled(s, Driver(m))
    ensures RxOk(RxStep(s, Driver(m)), q')
  {
    hide Expected, HandedUp, RxMid, RxShape;
    DriverKeeps(s.st, q, m);
    q' := RxAfter(q, m);
    if m.SetOwn? {
      assert q[0] == s.taken[|s.frees|];
      ExpectedNext(s.taken, s.frees, FreeAt(s.st.at));
    }
  }

  lemma ExpectedNext(taken: seq<Arrival>, frees: seq<nat>, free: nat)
    requires |frees| < |taken| && AllLegal(taken)
    ensures Expected(taken[..|frees| + 1], frees + [free]) ==
      Expected(taken[..|frees|], frees) + HandedUp(taken[|frees|], free)
  {
    hide Legal, HandedUp;
    var n := |frees|;
    assert taken[..n+1][..n] == taken[..n] && (frees + [free])[..n] == frees;
  }

  ghost predicate RxEnabledRun(s: RxTrace, es: seq<RxEvent>)
    decreases |es|
  {
    es != [] ==> RxEnabled(s, es[0]) && RxEnabledRun(RxStep(s, es[0]), es[1..])
  }

  ghost function RxRun(s: RxTrace, es: seq<RxEvent>): RxTrace
    requires RxEnabledRun(s, es)
    decreases |es|
  {
    if es == [] then s else RxRun(RxStep(s, es[0]), es[1..])
  }

  /** Driver and DMA engine in any interleaving of their accesses: every frame taken in is
      handed up once, in order, with exactly its bytes less the check sequence, but for those
      the pool had no elements for. */
  lemma {:induction false} RxInOrder(s: RxTrace, q: seq<Arrival>, es: seq<RxEvent>) returns (q': seq<Arrival>)
    requires RxOk(s, q) && RxEnabledRun(s, es)
    ensures RxOk(RxRun(s, es), q') && |q'| <= |s.st.r.slots|
    decreases |es|
  {
    RxMidShape(s.st, q);
    q' := q;
    if es != [] {
      q' := RxOne(s, q, es[0]);
      q' := RxInOrder(RxStep(s, es[0]), q', es[1..]);
    }
  }

  /** Each side leaves alone what the other one owns; and the driver reads only its own buffer. */
  ghost predicate RxApart(st: RxState, st': RxState, e: RxEvent) {
    && |st'.r.slots| == |st.r.slots|
    && (forall i :: 0 <= i < |st.r.slots| && st.r.slots[i].own == e.Driver? ==> st'.r.slots[i] == st.r.slots[i])
    && (e.Driver? && (e.m.ReadRecord? || e.m.SetOwn?) ==> st.r.cur < |st.r.slots| && !st.r.slots[st.r.cur].own)
  }

  ghost predicate RxAllApart(s: RxTrace, es: seq<RxEvent>)
    requires RxEnabledRun(s, es)
    decreases |es|
  {
    es != [] ==> RxApart(s.st, RxStep(s, es[0]).st, es[0]) && RxAllApart(RxStep(s, es[0]), es[1..])
  }

  lemma RxOneApart(s: RxTrace, q: seq<Arrival>, e: RxEvent)
    requires RxMid(s.st, q) && RxEnabled(s, e)
    ensures RxApart(s.st, RxStep(s, e).st, e)
  {
    hide RxHolds, Total, ReadOut;
    if !s.st.at.Returned? { CurWaits(s.st.r, q); }
  }

  /** In every interleaving no access of the driver touches a descriptor or a buffer that the
      DMA engine owns, nor the other way round. */
  lemma {:induction false} RxSpares(s: RxTrace, q: seq<Arrival>, es: seq<RxEvent>)
    requires RxOk(s, q) && RxEnabledRun(s, es)
    ensures RxAllApart(s, es)
    decreases |es|
  {
    if es != [] {
      RxOneApart(s, q, es[0]);
      var q' := RxOne(s, q, es[0]);
      RxSpares(RxStep(s, es[0]), q', es[1..]);
    }
  }

  /** So for any number of descriptors and every run from low_level_init on. */
  lemma RxFromStart(n: nat, garbage: seq<seq<byte>>, es: seq<RxEvent>) returns (q: seq<Arrival>)
    requires n > 0 && |garbage| == n && forall g :: g in garbage ==> |g| == BUF_SIZE
    requires RxEnabledRun(RxTrace(RxState(RxInit(n, garbage), Idle), [], [], []), es)
    ensures var start := RxTrace(RxState(RxInit(n, garbage), Idle), [], [], []);
      RxAllApart(start, es) && RxOk(RxRun(start, es), q) && |q| <= n
  {
    var start := RxTrace(RxState(RxInit(n, garbage), Idle), [], [], []);
    RxInitHolds(n, garbage);
    RxSpares(start, [], es);
    q := RxInOrder(start, [], es);
  }
}
