/** The receive window of src/lwip/core/tcp.c: tcp_update_rcv_ann_wnd and tcp_recved, with the
    receiving and sending of segments as the other steps of a connection. */
module TcpWindow {
  import opened Words

  const TCP_WND: nat := 5840
  const TCP_WND_UPDATE_THRESHOLD: nat := TCP_WND / 4
  const HALF: nat := 0x8000_0000

  /** TCP_SEQ_GEQ and TCP_SEQ_GT: the sign of the difference as an s32_t. */
  predicate SeqGeq(a: nat, b: nat) { SubU32(a, b) < HALF }
  predicate SeqGt(a: nat, b: nat) { 0 < SubU32(a, b) < HALF }

  /** The fields of a connection: rcv_nxt and rcv_ann_right_edge are u32_t, the others u16_t. */
  datatype Pcb = Pcb(nxt: nat, wnd: nat, ann: nat, edge: nat, mss: nat)

  function Watermark(p: Pcb): int { Min(TCP_WND / 2, p.mss) }

  /** tcp_update_rcv_ann_wnd: the extra window an update would advertise, and the new state. */
  function Update(p: Pcb): (nat, Pcb) {
    var newEdge := AddU32(p.nxt, p.wnd);
    if SeqGeq(newEdge, AddU32(p.edge, Watermark(p))) then (SubU32(newEdge, p.edge), p.(ann := p.wnd))
    else if SeqGt(p.nxt, p.edge) then (0, p.(ann := 0))
    else (0, p.(ann := SubU32(p.edge, p.nxt) % U16))
  }

  /** A segment goes out. */
  function Send(p: Pcb): Pcb { p.(edge := AddU32(p.nxt, p.ann)) }

  /** len bytes of sequence space arrive in order, within the window. */
  function Receive(p: Pcb, len: nat): Pcb
    requires len <= p.wnd
  {
    Update(p.(nxt := AddU32(p.nxt, len), wnd := p.wnd - len)).1
  }

  /** A u32_t assigned to an int. */
  function AsInt(n: nat): int { if n < HALF then n else n - U32 }

  /** tcp_recved; sent says whether the segment tcp_ack_now asks for goes out. */
  function Recved(p: Pcb, len: nat, sent: bool): Pcb {
    var wnd := AddU16(p.wnd, len);
    var (inflation, q) := Update(p.(wnd := Min(wnd, TCP_WND)));
    if AsInt(inflation) >= TCP_WND_UPDATE_THRESHOLD && sent then Send(q) else q
  }

  // ----- in numbers that do not wrap -----

  /** p is the state of a connection that has received up to nxt and has advertised up to
      edge, counted without wrapping round. */
  ghost predicate Tracks(p: Pcb, nxt: nat, edge: nat) {
    && p.nxt == nxt % U32 && p.edge == edge % U32 && p.mss < U16 && p.wnd <= TCP_WND
  }

  /** What is advertised next covers what was advertised before, and is available. */
  ghost predicate WindowOk(p: Pcb, nxt: nat, edge: nat) {
    edge <= nxt + p.ann && p.ann <= p.wnd
  }

  /** Sums and differences of wrapped numbers. */
  lemma AddWraps(a: int, b: int)
    ensures AddU32(a % U32, b) == (a + b) % U32
  {
  }

  lemma SubWraps(a: int, b: int)
    ensures 0 <= a - b < U32 ==> SubU32(a % U32, b % U32) == a - b
    ensures 0 - U32 <= a - b < 0 ==> SubU32(a % U32, b % U32) == a - b + U32
  {
  }

  /** The comparison of wrapped numbers is right exactly when they are less than 2^31 apart. */
  lemma SeqGeqExact(a: int, b: int)
    requires 0 - U32 < a - b < U32
    ensures (SeqGeq(a % U32, b % U32) <==> a >= b) <==> 0 - HALF <= a - b < HALF
  {
    SubWraps(a, b);
  }

  /** What is left of the window advertised, as the other branch of the update has it. */
  function StillAdvertised(nxt: nat, edge: nat): nat {
    if 0 < nxt - edge < HALF then 0 else if nxt <= edge then edge - nxt else (edge - nxt + U32) % U16
  }

  /** What tcp_update_rcv_ann_wnd computes, in numbers that do not wrap. */
  lemma UpdateMeaning(p: Pcb, nxt: nat, edge: nat)
    requires Tracks(p, nxt, edge) && edge <= nxt + p.wnd < edge + U32
    ensures var (inflation, q) := Update(p);
      var d := nxt + p.wnd - edge;
      && Tracks(q, nxt, edge) && q == p.(ann := q.ann)
      && (if Watermark(p) <= d < Watermark(p) + HALF then q.ann == p.wnd && inflation == d
          else inflation == 0 && q.ann == StillAdvertised(nxt, edge))
  {
    var d := nxt + p.wnd - edge;
    var m := Watermark(p);
    AddWraps(nxt, p.wnd);
    AddWraps(edge, m);
    SubWraps(nxt + p.wnd, edge + m);
    SubWraps(nxt + p.wnd, edge);
    SubWraps(nxt, edge);
    SubWraps(edge, nxt);
    UpdateCases(p, d, m, nxt, edge);
  }

  lemma UpdateCases(p: Pcb, d: nat, m: nat, nxt: nat, edge: nat)
    requires d == nxt + p.wnd - edge && d < U32 && m == Watermark(p) && p.wnd <= TCP_WND && p.mss < U16
    requires var newEdge := AddU32(p.nxt, p.wnd);
      && SubU32(newEdge, AddU32(p.edge, m)) == (if d >= m then d - m else d - m + U32)
      && SubU32(newEdge, p.edge) == d
      && SubU32(p.nxt, p.edge) == (if nxt >= edge then nxt - edge else nxt - edge + U32)
      && SubU32(p.edge, p.nxt) == (if edge >= nxt then edge - nxt else edge - nxt + U32)
    ensures var (inflation, q) := Update(p);
      if m <= d < m + HALF then q.ann == p.wnd && inflation == d
      else inflation == 0 && q.ann == StillAdvertised(nxt, edge)
  {
    hide SubU32, AddU32;
  }

  /** The update keeps the window exactly when the comparison it rests on is right, or the
      garbage it stores otherwise happens to be small. */
  lemma UpdateExact(p: Pcb, nxt: nat, edge: nat)
    requires Tracks(p, nxt, edge) && edge <= nxt + p.wnd < edge + U32
    ensures WindowOk(Update(p).1, nxt, edge) <==>
      nxt - edge < HALF || nxt + p.wnd - edge - Watermark(p) < HALF || (edge - nxt + U32) % U16 <= p.wnd
  {
    UpdateMeaning(p, nxt, edge);
  }

  /** When 2^31 bytes and more go unacknowledged, it advertises a window that is not there. */
  lemma UpdateFails()
    ensures var p := Pcb(HALF + 536, 0, 0, 0, 536);
      Tracks(p, HALF + 536, 0) && Update(p).1.ann == 65000 && p.wnd == 0
  {
  }

  // ----- what is advertised, said without Update -----

  /** The window announced with wnd bytes of room from nxt on, of which the peer knows up to edge:
      all of it once a segment's worth, or half of 5840, is unknown to it; else what it knows. */
  ghost predicate Announces(q: Pcb, nxt: nat, wnd: nat, edge: nat) {
    && q.wnd == wnd
    && (nxt + wnd - edge >= q.mss || nxt + wnd - edge >= 2920 ==> q.ann == wnd)
    && (nxt + wnd - edge < q.mss && nxt + wnd - edge < 2920 ==> q.ann == if nxt <= edge then edge - nxt else 0)
  }

  /** A segment in order takes its length from the room, and leaves the right edge told to the peer. */
  lemma ReceiveExactly(p: Pcb, nxt: nat, edge: nat, len: nat)
    requires Tracks(p, nxt, edge) && len <= p.wnd && edge <= nxt + p.wnd < edge + HALF
    ensures var q := Receive(p, len);
      Announces(q, nxt + len, p.wnd - len, edge) && q.edge == p.edge && q.mss == p.mss && Tracks(q, nxt + len, edge)
  {
    hide Update;
    AddWraps(nxt, len);
    UpdateMeaning(p.(nxt := AddU32(p.nxt, len), wnd := p.wnd - len), nxt + len, edge);
  }

  /** tcp_recved gives the bytes back, up to 5840 in all. The peer is told at once exactly when that
      moves the right edge by a segment or 2920 bytes, and by 1460 bytes at least: then it is told all
      the room there is. */
  lemma RecvedExactly(p: Pcb, nxt: nat, edge: nat, len: nat, sent: bool)
    requires Tracks(p, nxt, edge) && p.wnd + len < U16 && edge <= nxt + p.wnd && nxt + p.wnd + len < edge + HALF
    ensures var (q, wnd) := (Recved(p, len, sent), Min(p.wnd + len, 5840));
      var d := nxt + wnd - edge;
      && Announces(q, nxt, wnd, edge) && q.nxt == p.nxt && q.mss == p.mss
      && q.edge == if sent && d >= 1460 && (d >= p.mss || d >= 2920) then (nxt + wnd) % U32 else p.edge
  {
    hide Update;
    var q := p.(wnd := Min(AddU16(p.wnd, len), TCP_WND));
    UpdateMeaning(q, nxt, edge);
    AddWraps(nxt, Update(q).1.ann);
  }

  /** So a peer that is told so is never left without a window while there are 2920 bytes of room:
      after tcp_recved it knows all the room there is but 2919 bytes at most. */
  lemma NeverStalls(p: Pcb, nxt: nat, edge: nat, len: nat)
    requires Tracks(p, nxt, edge) && p.wnd + len < U16 && edge <= nxt + p.wnd && nxt + p.wnd + len < edge + HALF
    ensures var told := NextEdge(p, nxt, edge, Consume(len, true));
      Recved(p, len, true).edge == told % U32 && nxt + Min(p.wnd + len, 5840) - 2919 <= told
  {
    hide Update;
    RecvedExactly(p, nxt, edge, len, true);
    var q := p.(wnd := Min(AddU16(p.wnd, len), TCP_WND));
    UpdateMeaning(q, nxt, edge);
  }

  // ----- runs -----

  datatype Step = Arrive(len: nat) | Consume(len: nat, sent: bool) | Transmit

  /** What the source asks of the stack around it: segments are trimmed to the window, and
      an application gives back no more than the sixteen bits can count. */
  predicate Legal(p: Pcb, s: Step) {
    match s
    case Arrive(len) => len <= p.wnd
    case Consume(len, _) => p.wnd + len < U16
    case Transmit => true
  }

  function Perform(p: Pcb, s: Step): Pcb
    requires Legal(p, s)
  {
    match s
    case Arrive(len) => Receive(p, len)
    case Consume(len, sent) => Recved(p, len, sent)
    case Transmit => Send(p)
  }

  /** The same steps in numbers that do not wrap: how far data has been received, and how far
      room has been advertised. */
  function NextNxt(nxt: nat, s: Step): nat { if s.Arrive? then nxt + s.len else nxt }

  function NextEdge(p: Pcb, nxt: nat, edge: nat, s: Step): nat
    requires Legal(p, s)
  {
    match s
    case Arrive(_) => edge
    case Consume(len, sent) =>
      var (inflation, q) := Update(p.(wnd := Min(AddU16(p.wnd, len), TCP_WND)));
      if AsInt(inflation) >= TCP_WND_UPDATE_THRESHOLD && sent then nxt + q.ann else edge
    case Transmit => nxt + p.ann
  }

  /** All that holds between the steps. slack is how much room is there beyond what has been
      advertised. */
  ghost predicate Ok(p: Pcb, nxt: nat, edge: nat) {
    Tracks(p, nxt, edge) && WindowOk(p, nxt, edge)
  }

  /** A step keeps the window: the edge does not move left and stays within the room there is,
      as long as less than 2^31 bytes of room are unadvertised after it. */
  lemma StepKeeps(p: Pcb, nxt: nat, edge: nat, s: Step)
    requires Ok(p, nxt, edge) && Legal(p, s)
    requires nxt + p.wnd - edge + (if s.Consume? then s.len else 0) < HALF
    ensures Ok(Perform(p, s), NextNxt(nxt, s), NextEdge(p, nxt, edge, s))
    ensures edge <= NextEdge(p, nxt, edge, s) <= NextNxt(nxt, s) + Perform(p, s).wnd
  {
    hide Update;
    match s {
      case Arrive(len) =>
        AddWraps(nxt, len);
        UpdateMeaning(p.(nxt := AddU32(p.nxt, len), wnd := p.wnd - len), nxt + len, edge);
      case Consume(len, sent) =>
        var q := p.(wnd := Min(AddU16(p.wnd, len), TCP_WND));
        UpdateMeaning(q, nxt, edge);
        AddWraps(nxt, Update(q).1.ann);
      case Transmit =>
        AddWraps(nxt, p.ann);
    }
  }

  /** When the updates that tcp_recved asks for do go out, no more than a whole window of room
      is ever unadvertised, so the condition above always holds. */
  lemma SlackBounded(p: Pcb, nxt: nat, edge: nat, s: Step)
    requires Ok(p, nxt, edge) && Legal(p, s) && (s.Consume? ==> s.sent)
    requires nxt + p.wnd - edge <= TCP_WND
    ensures NextNxt(nxt, s) + Perform(p, s).wnd - NextEdge(p, nxt, edge, s) <= TCP_WND
  {
    hide Update;
    if s.Consume? {
      var q := p.(wnd := Min(AddU16(p.wnd, s.len), TCP_WND));
      UpdateMeaning(q, nxt, edge);
    } else if s.Arrive? {
      AddWraps(nxt, s.len);
      UpdateMeaning(p.(nxt := AddU32(p.nxt, s.len), wnd := p.wnd - s.len), nxt + s.len, edge);
    }
  }

  datatype Point = Point(p: Pcb, nxt: nat, edge: nat)

  function After(at: Point, s: Step): Point
    requires Legal(at.p, s)
  {
    Point(Perform(at.p, s), NextNxt(at.nxt, s), NextEdge(at.p, at.nxt, at.edge, s))
  }

  ghost predicate LegalRun(at: Point, ss: seq<Step>)
    decreases |ss|
  {
    ss != [] ==> Legal(at.p, ss[0]) && LegalRun(After(at, ss[0]), ss[1..])
  }

  ghost function Run(at: Point, ss: seq<Step>): Point
    requires LegalRun(at, ss)
    decreases |ss|
  {
    if ss == [] then at else Run(After(at, ss[0]), ss[1..])
  }

  /** How much room there is beyond what has been advertised. */
  function Slack(at: Point): int { at.nxt + at.p.wnd - at.edge }

  /** Before every step less than 2^31 bytes of room, with what the step adds, are unadvertised. */
  ghost predicate Roomy(at: Point, ss: seq<Step>)
    requires LegalRun(at, ss)
    decreases |ss|
  {
    ss != [] ==>
      Slack(at) + (if ss[0].Consume? then ss[0].len else 0) < HALF && Roomy(After(at, ss[0]), ss[1..])
  }

  /** Over any such run, whether or not the acknowledgements asked for go out, the advertised
      right edge never moves left and never passes the room there is; the window never exceeds
      TCP_WND. */
  lemma {:induction false} RunKeeps(at: Point, ss: seq<Step>)
    requires Ok(at.p, at.nxt, at.edge) && LegalRun(at, ss) && Roomy(at, ss)
    ensures var end := Run(at, ss);
      Ok(end.p, end.nxt, end.edge) && at.edge <= end.edge <= end.nxt + end.p.wnd && end.p.wnd <= TCP_WND
    decreases |ss|
  {
    if ss != [] {
      StepKeeps(at.p, at.nxt, at.edge, ss[0]);
      RunKeeps(After(at, ss[0]), ss[1..]);
    }
  }

  /** The sender sends nothing beyond the right edge it was told. */
  ghost predicate WithinEdge(at: Point, ss: seq<Step>)
    requires LegalRun(at, ss)
    decreases |ss|
  {
    ss != [] ==>
      (ss[0].Arrive? ==> at.nxt + ss[0].len <= at.edge) && WithinEdge(After(at, ss[0]), ss[1..])
  }

  /** Then the condition always holds. */
  lemma {:induction false} WithinEdgeRoomy(at: Point, ss: seq<Step>)
    requires Ok(at.p, at.nxt, at.edge) && at.nxt <= at.edge && LegalRun(at, ss) && WithinEdge(at, ss)
    ensures Roomy(at, ss)
    decreases |ss|
  {
    if ss != [] {
      StepKeeps(at.p, at.nxt, at.edge, ss[0]);
      WithinEdgeRoomy(After(at, ss[0]), ss[1..]);
    }
  }

  /** It also does when every acknowledgement asked for goes out, wherever the sender sends. */
  lemma {:induction false} SentRoomy(at: Point, ss: seq<Step>)
    requires Ok(at.p, at.nxt, at.edge) && Slack(at) <= TCP_WND && LegalRun(at, ss)
    requires forall s :: s in ss && s.Consume? ==> s.sent
    ensures Roomy(at, ss)
    decreases |ss|
  {
    if ss != [] {
      StepKeeps(at.p, at.nxt, at.edge, ss[0]);
      SlackBounded(at.p, at.nxt, at.edge, ss[0]);
      SentRoomy(After(at, ss[0]), ss[1..]);
    }
  }

  function Consumed(ss: seq<Step>): nat {
    if ss == [] then 0 else (if ss[0].Consume? then ss[0].len else 0) + Consumed(ss[1..])
  }

  /** And in any run whatever in which less than 2^31 bytes, with the room there is at the
      start, are given back. */
  lemma {:induction false} FewBytesRoomy(at: Point, ss: seq<Step>)
    requires Ok(at.p, at.nxt, at.edge) && LegalRun(at, ss) && Slack(at) + Consumed(ss) < HALF
    ensures Roomy(at, ss)
    decreases |ss|
  {
    if ss != [] {
      StepKeeps(at.p, at.nxt, at.edge, ss[0]);
      SlackGrows(at, ss[0]);
      FewBytesRoomy(After(at, ss[0]), ss[1..]);
    }
  }

  lemma SlackGrows(at: Point, s: Step)
    requires Ok(at.p, at.nxt, at.edge) && Legal(at.p, s)
    requires Slack(at) + (if s.Consume? then s.len else 0) < HALF
    ensures Slack(After(at, s)) <= Slack(at) + (if s.Consume? then s.len else 0)
  {
    hide Update;
    if s.Consume? {
      UpdateMeaning(at.p.(wnd := Min(AddU16(at.p.wnd, s.len), TCP_WND)), at.nxt, at.edge);
    } else if s.Arrive? {
      AddWraps(at.nxt, s.len);
      UpdateMeaning(at.p.(nxt := AddU32(at.p.nxt, s.len), wnd := at.p.wnd - s.len), at.nxt + s.len, at.edge);
    }
  }

  // ----- where the bound is passed -----

  /** A sender that fills the room there is, whatever it was told, and an application that
      takes everything from inside the receive callback, where nothing can be sent. */
  function Unsent(n: nat): seq<Step> {
    if n == 0 then [] else [Arrive(TCP_WND), Consume(TCP_WND, false)] + Unsent(n - 1)
  }

  const ROUNDS: nat := 367718

  /** The state after such rounds, n windows having been received and none advertised. */
  ghost predicate Silent(at: Point, n: nat) {
    Ok(at.p, at.nxt, at.edge) && at.nxt == n * TCP_WND && at.edge == 0 && at.p.wnd == TCP_WND && at.p.mss == 536
  }

  lemma SilentRound(at: Point, n: nat)
    requires Silent(at, n) && (n + 2) * TCP_WND < HALF
    ensures var mid := Point(Perform(at.p, Arrive(TCP_WND)), at.nxt + TCP_WND, 0);
      After(at, Arrive(TCP_WND)) == mid && Legal(mid.p, Consume(TCP_WND, false))
      && Silent(After(mid, Consume(TCP_WND, false)), n + 1)
  {
    StepKeeps(at.p, at.nxt, at.edge, Arrive(TCP_WND));
    var mid := After(at, Arrive(TCP_WND));
    hide Update;
    AddWraps(at.nxt, TCP_WND);
    UpdateMeaning(at.p.(nxt := AddU32(at.p.nxt, TCP_WND), wnd := 0), at.nxt + TCP_WND, 0);
    StepKeeps(mid.p, mid.nxt, mid.edge, Consume(TCP_WND, false));
    UpdateMeaning(mid.p.(wnd := TCP_WND), mid.nxt, 0);
  }

  lemma {:induction false} SilentRun(at: Point, n: nat, m: nat, tail: seq<Step>) returns (end: Point)
    requires Silent(at, n) && (n + m + 1) * TCP_WND < HALF
    ensures Silent(end, n + m)
    ensures LegalRun(end, tail) ==> LegalRun(at, Unsent(m) + tail) && Run(at, Unsent(m) + tail) == Run(end, tail)
    decreases m
  {
    var ss := Unsent(m) + tail;
    if m == 0 {
      assert ss == tail;
      end := at;
    } else {
      SilentRound(at, n);
      assert ss[0] == Arrive(TCP_WND) && ss[1..][0] == Consume(TCP_WND, false) && ss[1..][1..] == Unsent(m - 1) + tail;
      end := SilentRun(After(After(at, ss[0]), ss[1]), n + 1, m - 1, tail);
      hide Silent, Perform, Ok, Update;
      if LegalRun(end, tail) {
        assert LegalRun(After(at, ss[0]), ss[1..]);
      }
    }
  }

  lemma SilentLast(end: Point, p1: Point)
    requires Silent(end, ROUNDS) && p1 == After(end, Arrive(TCP_WND))
    ensures Legal(p1.p, Consume(TCP_WND, false))
    ensures var p2 := After(p1, Consume(TCP_WND, false));
      Legal(p2.p, Arrive(TCP_WND)) && var p3 := After(p2, Arrive(TCP_WND)); p3.p.ann == 64384 && p3.p.wnd == 0
  {
  }

  /** So the bound is needed: from the start of a connection, 2^31 bytes later, a window of
      64384 bytes is advertised where none is left. */
  lemma UnsentFails()
    ensures var start := Point(Connected(536), 0, 0);
      var ss := Unsent(ROUNDS) + [Arrive(TCP_WND), Consume(TCP_WND, false), Arrive(TCP_WND)];
      LegalRun(start, ss) && Run(start, ss).p.ann == 64384 && Run(start, ss).p.wnd == 0
  {
    var start := Point(Connected(536), 0, 0);
    var a, c := Arrive(TCP_WND), Consume(TCP_WND, false);
    var end := SilentRun(start, 0, ROUNDS, [a, c, a]);
    var p1 := After(end, a);
    StepKeeps(end.p, end.nxt, end.edge, a);
    SilentLast(end, p1);
    var p2 := After(p1, c);
    var p3 := After(p2, a);
    assert [a, c, a][1..] == [c, a] && [c, a][1..] == [a] && [a][1..] == [];
    assert LegalRun(p3, []) && LegalRun(p2, [a]) && LegalRun(p1, [c, a]);
    assert Run(p1, [c, a]) == Run(p2, [a]) == Run(p3, []);
  }

  /** tcp_connect's initial values. */
  function Connected(mss: nat): Pcb { Pcb(0, TCP_WND, TCP_WND, 0, mss) }

  /** All 5840 bytes of room are there, the first segment tells the peer, and nothing was told before. */
  lemma ConnectedOk(mss: nat)
    requires mss < U16
    ensures Ok(Connected(mss), 0, 0) && 0 + Connected(mss).wnd - 0 <= TCP_WND
    ensures Connected(mss) == Pcb(0, 5840, 5840, 0, mss) && Send(Connected(mss)).edge == 5840
  {
  }

  /** The window fields of struct tcp_pcb. */
  class TcpPcb {
    var rcvNxt: nat
    var rcvWnd: nat
    var rcvAnnWnd: nat
    var rcvAnnRightEdge: nat
    var mss: nat

    ghost function State(): Pcb
      reads this
    {
      Pcb(rcvNxt, rcvWnd, rcvAnnWnd, rcvAnnRightEdge, mss)
    }

    constructor (mss: nat)
      ensures State() == Connected(mss)
    {
      rcvNxt, rcvWnd, rcvAnnWnd, rcvAnnRightEdge, this.mss := 0, TCP_WND, TCP_WND, 0, mss;
    }

    method UpdateRcvAnnWnd() returns (inflation: nat)
      modifies `rcvAnnWnd
      ensures (inflation, State()) == Update(old(State()))
    {
      var newRightEdge := AddU32(rcvNxt, rcvWnd);
      if SeqGeq(newRightEdge, AddU32(rcvAnnRightEdge, Min(TCP_WND / 2, mss))) {
        rcvAnnWnd := rcvWnd;
        return SubU32(newRightEdge, rcvAnnRightEdge);
      } else {
        if SeqGt(rcvNxt, rcvAnnRightEdge) {
          rcvAnnWnd := 0;
        } else {
          rcvAnnWnd := SubU32(rcvAnnRightEdge, rcvNxt) % U16;
        }
        return 0;
      }
    }

    /** tcp_recved; sent says whether the segment tcp_ack_now asks for goes out. */
    method TcpRecved(len: nat, sent: bool)
      modifies this
      ensures State() == Recved(old(State()), len, sent)
    {
      rcvWnd := AddU16(rcvWnd, len);
      if rcvWnd > TCP_WND { rcvWnd := TCP_WND; }
      var inflation := UpdateRcvAnnWnd();
      var wndInflation := AsInt(inflation);
      if wndInflation >= TCP_WND_UPDATE_THRESHOLD && sent { TransmitSegment(); }
    }

    /** The window part of tcp_receive for tcplen bytes in order. */
    method TcpReceive(tcplen: nat)
      requires tcplen <= rcvWnd
      modifies this
      ensures State() == Receive(old(State()), tcplen)
    {
      rcvNxt := AddU32(rcvNxt, tcplen);
      rcvWnd := rcvWnd - tcplen;
      var wndInflation := UpdateRcvAnnWnd();
    }

    /** The window part of building a segment. */
    method TransmitSegment()
      modifies `rcvAnnRightEdge
      ensures State() == Send(old(State()))
    {
      rcvAnnRightEdge := AddU32(rcvNxt, rcvAnnWnd);
    }
  }
}
