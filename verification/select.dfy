/** The wake-up protocol of src/lwip/api/sockets.c: lwip_select, lwip_selscan and
    event_callback as steps, each one a stretch of code that holds selectsem. */
module SelectProtocol {
  datatype Event = RcvPlus | RcvMinus | SendPlus | SendMinus

  /** A socket: rcvevent, an s16_t; sendevent; and whether lastdata is kept. */
  datatype Sock = Sock(rcv: int, send: bool, left: bool)

  function IncS16(x: int): int { if x == 32767 then -32768 else x + 1 }
  function DecS16(x: int): int { if x == -32768 then 32767 else x - 1 }

  /** The switch in event_callback. */
  function Apply(k: Sock, e: Event): Sock {
    match e
    case RcvPlus => k.(rcv := IncS16(k.rcv))
    case RcvMinus => k.(rcv := DecS16(k.rcv))
    case SendPlus => k.(send := true)
    case SendMinus => k.(send := false)
  }

  /** struct lwip_select_cb, with the maxfdp1 of its call. */
  datatype Waiter = Waiter(id: nat, read: set<nat>, write: set<nat>, max: nat, signalled: bool)

  /** The sockets, select_cb_list from its head, and the event_callback calls in their
      scan loop with the socket each is for. */
  datatype State = State(socks: map<nat, Sock>, list: seq<Waiter>, loops: map<nat, nat>)

  // ----- lwip_selscan -----

  predicate Readable(socks: map<nat, Sock>, i: nat) { i in socks && (socks[i].left || socks[i].rcv > 0) }

  predicate Writable(socks: map<nat, Sock>, i: nat) { i in socks && socks[i].send }

  /** The descriptors below max of a set that are ready. */
  function ReadyReads(socks: map<nat, Sock>, max: nat, read: set<nat>): set<nat> {
    set i | i in read && i < max && Readable(socks, i)
  }

  function ReadyWrites(socks: map<nat, Sock>, max: nat, write: set<nat>): set<nat> {
    set i | i in write && i < max && Writable(socks, i)
  }

  function NReady(socks: map<nat, Sock>, max: nat, read: set<nat>, write: set<nat>): nat {
    |ReadyReads(socks, max, read)| + |ReadyWrites(socks, max, write)|
  }

  // ----- the steps -----

  /** event_callback's test of one waiter for its socket. It does not look at max. */
  predicate Hit(w: Waiter, s: nat, k: Sock) {
    !w.signalled && ((s in w.read && k.rcv > 0) || (s in w.write && k.send))
  }

  /** The first waiter it finds, or the length of the list. */
  function FirstHit(list: seq<Waiter>, s: nat, k: Sock): (i: nat)
    ensures i <= |list| && (forall j :: 0 <= j < i ==> !Hit(list[j], s, k)) && (i < |list| ==> Hit(list[i], s, k))
  {
    if list == [] then 0
    else if Hit(list[0], s, k) then 0
    else
      var i := FirstHit(list[1..], s, k);
      assert forall j :: 0 < j <= i ==> !Hit(list[j], s, k) by {
        forall j | 0 < j <= i ensures !Hit(list[j], s, k) {
          assert j < i + 1;
          assert j - 1 < i ==> list[1..][j-1] == list[j];
        }
      }
      i + 1
  }

  function Without(list: seq<Waiter>, id: nat): seq<Waiter> {
    if list == [] then []
    else if list[0].id == id then list[1..]
    else [list[0]] + Without(list[1..], id)
  }

  /** Scan-and-enqueue of lwip_select; poll is a zero timeout. A waiter leaving the list,
      woken or timed out. event_callback's update, and then each turn of its loop. What
      lwip_recvfrom keeps back of a buffer. */
  datatype Step =
    | Select(id: nat, read: set<nat>, write: set<nat>, max: nat, poll: bool)
    | Leave(id: nat)
    | Update(thread: nat, s: nat, e: Event)
    | Scan(thread: nat)
    | Keep(s: nat, left: bool)

  predicate Enabled(st: State, p: Step) {
    match p
    case Select(id, _, _, _, _) => forall w :: w in st.list ==> w.id != id
    case Leave(_) => true
    case Update(t, s, _) => t !in st.loops && s in st.socks
    case Scan(t) => t in st.loops && st.loops[t] in st.socks
    case Keep(s, _) => s in st.socks
  }

  function Perform(st: State, p: Step): State
    requires Enabled(st, p)
  {
    match p
    case Select(id, read, write, max, poll) =>
      if NReady(st.socks, max, read, write) == 0 && !poll
      then st.(list := [Waiter(id, read, write, max, false)] + st.list)
      else st
    case Leave(id) => st.(list := Without(st.list, id))
    case Update(t, s, e) => st.(socks := st.socks[s := Apply(st.socks[s], e)], loops := st.loops[t := s])
    case Scan(t) =>
      var s := st.loops[t];
      var i := FirstHit(st.list, s, st.socks[s]);
      if i < |st.list| then st.(list := st.list[i := st.list[i].(signalled := true)])
      else st.(loops := st.loops - {t})
    case Keep(s, left) => st.(socks := st.socks[s := st.socks[s].(left := left)])
  }

  // ----- what the steps do, said without them -----

  /** NETCONN_EVT_RCVPLUS and RCVMINUS count rcvevent up and down, wrapping at sixteen bits;
      SENDPLUS and SENDMINUS set and clear sendevent. Nothing else changes. */
  lemma UpdateExactly(st: State, t: nat, s: nat, e: Event)
    requires Enabled(st, Update(t, s, e))
    ensures var st' := Perform(st, Update(t, s, e));
      && st'.list == st.list && st'.loops == st.loops[t := s] && st'.socks.Keys == st.socks.Keys
      && (forall i :: i in st.socks && i != s ==> st'.socks[i] == st.socks[i])
      && st'.socks[s].left == st.socks[s].left
      && st'.socks[s].send == (if e.SendPlus? then true else if e.SendMinus? then false else st.socks[s].send)
      && (e.RcvPlus? ==> st'.socks[s].rcv == st.socks[s].rcv + if st.socks[s].rcv == 32767 then -65535 else 1)
      && (e.RcvMinus? ==> st'.socks[s].rcv == st.socks[s].rcv - if st.socks[s].rcv == -32768 then -65535 else 1)
      && (e.SendPlus? || e.SendMinus? ==> st'.socks[s].rcv == st.socks[s].rcv)
  {
  }

  /** Some descriptor below max that is asked for is ready. */
  ghost predicate AnyReady(socks: map<nat, Sock>, max: nat, read: set<nat>, write: set<nat>) {
    exists i :: i in socks && i < max
      && ((i in read && (socks[i].left || socks[i].rcv > 0)) || (i in write && socks[i].send))
  }

  /** lwip_select returns at once when something is ready or it polls; else a waiter that nobody
      has signalled is put first on the list. */
  lemma SelectExactly(st: State, id: nat, read: set<nat>, write: set<nat>, max: nat, poll: bool)
    requires Enabled(st, Select(id, read, write, max, poll))
    ensures Perform(st, Select(id, read, write, max, poll)) ==
      if AnyReady(st.socks, max, read, write) || poll then st
      else st.(list := [Waiter(id, read, write, max, false)] + st.list)
  {
    if AnyReady(st.socks, max, read, write) {
      var i :| i in st.socks && i < max
        && ((i in read && (st.socks[i].left || st.socks[i].rcv > 0)) || (i in write && st.socks[i].send));
      assert i in ReadyReads(st.socks, max, read) || i in ReadyWrites(st.socks, max, write);
    } else {
      assert ReadyReads(st.socks, max, read) == {} && ReadyWrites(st.socks, max, write) == {};
    }
  }

  lemma {:induction false} WithoutFirst(list: seq<Waiter>, id: nat, i: nat)
    requires i < |list| && list[i].id == id && forall j :: 0 <= j < i ==> list[j].id != id
    ensures Without(list, id) == list[..i] + list[i+1..]
  {
    if i > 0 {
      var r := list[1..];
      assert forall j :: 0 <= j < i - 1 ==> r[j] == list[j+1];
      assert list[0].id != id;
      WithoutFirst(r, id, i - 1);
      assert [list[0]] + (r[..i-1] + r[i..]) == list[..i] + list[i+1..];
    }
  }

  lemma {:induction false} WithoutNobody(list: seq<Waiter>, id: nat)
    requires forall w :: w in list ==> w.id != id
    ensures Without(list, id) == list
  {
    if list != [] { WithoutNobody(list[1..], id); }
  }

  /** A waiter that leaves takes nobody with it. */
  lemma LeaveExactly(st: State, id: nat)
    ensures (forall w :: w in st.list ==> w.id != id) ==> Perform(st, Leave(id)) == st
    ensures forall i {:trigger st.list[..i]} ::
      0 <= i < |st.list| && st.list[i].id == id && (forall j :: 0 <= j < i ==> st.list[j].id != id) ==>
      Perform(st, Leave(id)) == st.(list := st.list[..i] + st.list[i+1..])
  {
    if forall w :: w in st.list ==> w.id != id { WithoutNobody(st.list, id); }
    forall i {:trigger st.list[..i]} |
      0 <= i < |st.list| && st.list[i].id == id && (forall j :: 0 <= j < i ==> st.list[j].id != id)
      ensures Perform(st, Leave(id)) == st.(list := st.list[..i] + st.list[i+1..])
    {
      WithoutFirst(st.list, id, i);
    }
  }

  /** The waiter is not signalled and asked for the socket, which has what it asked for. */
  predicate Awaits(w: Waiter, s: nat, k: Sock) {
    !w.signalled && ((s in w.read && k.rcv > 0) || (s in w.write && k.send))
  }

  /** A turn of the loop of event_callback signals the first waiter that waits for its socket, or
      ends the loop when there is none. */
  lemma ScanExactly(st: State, t: nat)
    requires Enabled(st, Scan(t))
    ensures var (st', s) := (Perform(st, Scan(t)), st.loops[t]);
      && ((forall w :: w in st.list ==> !Awaits(w, s, st.socks[s])) ==> st' == st.(loops := st.loops - {t}))
      && forall i :: (0 <= i < |st.list| && Awaits(st.list[i], s, st.socks[s])
        && forall j :: 0 <= j < i ==> !Awaits(st.list[j], s, st.socks[s])) ==>
        st' == st.(list := st.list[i := st.list[i].(signalled := true)])
  {
    var s := st.loops[t];
    var i := FirstHit(st.list, s, st.socks[s]);
    assert forall w: Waiter :: Hit(w, s, st.socks[s]) == Awaits(w, s, st.socks[s]);
    if i < |st.list| { assert st.list[i] in st.list; }
  }

  // ----- no wake-up is lost -----

  /** The waiter asked for this socket, below its max, and the socket is ready. */
  predicate Due(w: Waiter, s: nat, k: Sock) { s < w.max && Hit(w, s, k) }

  predicate Attended(loops: map<nat, nat>, s: nat) { exists t :: t in loops && loops[t] == s }

  /** Whoever is due on a socket will be looked at by an event_callback for that socket. */
  ghost predicate NoneForgotten(st: State) {
    && (forall t :: t in st.loops ==> st.loops[t] in st.socks)
    && (forall i, s {:trigger st.list[i], st.socks[s]} ::
          0 <= i < |st.list| && s in st.socks && Due(st.list[i], s, st.socks[s]) ==> Attended(st.loops, s))
  }

  /** Nothing was ready when the waiter was put on the list. */
  lemma NothingReady(socks: map<nat, Sock>, w: Waiter, s: nat)
    requires NReady(socks, w.max, w.read, w.write) == 0 && s in socks
    ensures !Due(w, s, socks[s])
  {
    assert s !in ReadyReads(socks, w.max, w.read) && s !in ReadyWrites(socks, w.max, w.write);
  }

  lemma {:induction false} WithoutWithin(list: seq<Waiter>, id: nat, i: nat)
    requires i < |Without(list, id)|
    ensures Without(list, id)[i] in list
  {
    if list[0].id != id && i > 0 { WithoutWithin(list[1..], id, i - 1); }
  }

  lemma PerformKeeps(st: State, p: Step)
    requires NoneForgotten(st) && Enabled(st, p)
    ensures NoneForgotten(Perform(st, p))
  {
    var st' := Perform(st, p);
    forall i, s | 0 <= i < |st'.list| && s in st'.socks && Due(st'.list[i], s, st'.socks[s])
      ensures Attended(st'.loops, s)
    {
      match p {
        case Select(id, read, write, max, poll) =>
          if st' != st {
            if i == 0 { NothingReady(st.socks, st'.list[0], s); } else { assert st'.list[i] == st.list[i-1]; }
          }
        case Leave(id) =>
          WithoutWithin(st.list, id, i);
          var j :| 0 <= j < |st.list| && st.list[j] == st'.list[i];
          assert st'.socks[s] == st.socks[s];
        case Update(t, s', e) =>
          if s == s' { assert st'.loops[t] == s; }
          else {
            assert st'.socks[s] == st.socks[s] && st.list[i] == st'.list[i];
            var u :| u in st.loops && st.loops[u] == s;
            assert u in st'.loops && st'.loops[u] == s;
          }
        case Scan(t) =>
          assert st'.socks[s] == st.socks[s] && Due(st.list[i], s, st.socks[s]);
          var u :| u in st.loops && st.loops[u] == s;
          assert st'.loops == st.loops || u in st'.loops;
        case Keep(s', left) =>
          assert Due(st.list[i], s, st.socks[s]);
      }
    }
  }

  ghost predicate EnabledRun(st: State, ps: seq<Step>)
    decreases |ps|
  {
    ps != [] ==> Enabled(st, ps[0]) && EnabledRun(Perform(st, ps[0]), ps[1..])
  }

  ghost function Run(st: State, ps: seq<Step>): State
    requires EnabledRun(st, ps)
    decreases |ps|
  {
    if ps == [] then st else Run(Perform(st, ps[0]), ps[1..])
  }

  /** In every interleaving nobody is forgotten; so whenever no event_callback is in its loop,
      every waiter still to be signalled has none of its sockets ready. */
  lemma {:induction false} NoLostWakeUp(st: State, ps: seq<Step>)
    requires NoneForgotten(st) && EnabledRun(st, ps)
    ensures NoneForgotten(Run(st, ps))
    ensures Run(st, ps).loops == map[] ==>
      forall i, s :: 0 <= i < |Run(st, ps).list| && s in Run(st, ps).socks ==>
        !Due(Run(st, ps).list[i], s, Run(st, ps).socks[s])
    decreases |ps|
  {
    if ps != [] {
      PerformKeeps(st, ps[0]);
      NoLostWakeUp(Perform(st, ps[0]), ps[1..]);
    }
  }

  // ----- the scan loop ends -----

  function Unsignalled(list: seq<Waiter>): nat {
    if list == [] then 0 else (if list[0].signalled then 0 else 1) + Unsignalled(list[1..])
  }

  lemma {:induction false} SignalCounts(list: seq<Waiter>, i: nat)
    requires i < |list| && !list[i].signalled
    ensures Unsignalled(list[i := list[i].(signalled := true)]) + 1 == Unsignalled(list)
  {
    if i > 0 {
      SignalCounts(list[1..], i - 1);
      assert list[i := list[i].(signalled := true)][1..] == list[1..][i - 1 := list[i].(signalled := true)];
    }
  }

  /** A turn of the loop ends it, or signals a waiter that is hit and was not signalled before. */
  lemma ScanProgress(st: State, t: nat)
    requires Enabled(st, Scan(t))
    ensures var st' := Perform(st, Scan(t));
      if t in st'.loops then st'.loops == st.loops && Unsignalled(st'.list) + 1 == Unsignalled(st.list)
      else st'.list == st.list && forall w :: w in st.list ==> !Hit(w, st.loops[t], st.socks[st.loops[t]])
  {
    var s := st.loops[t];
    var i := FirstHit(st.list, s, st.socks[s]);
    if i < |st.list| { SignalCounts(st.list, i); }
  }

  /** The rest of the loop of event_callback t, when nobody interferes. */
  ghost function Drain(st: State, t: nat): (r: State)
    requires Enabled(st, Scan(t))
    ensures t !in r.loops && r.socks == st.socks && r.loops == st.loops - {t}
    ensures forall w :: w in r.list ==> !Hit(w, st.loops[t], st.socks[st.loops[t]])
    decreases Unsignalled(st.list)
  {
    ScanProgress(st, t);
    var st' := Perform(st, Scan(t));
    if t in st'.loops then Drain(st', t) else st'
  }

  lemma DrainStep(st: State, t: nat)
    requires Enabled(st, Scan(t))
    ensures var st' := Perform(st, Scan(t));
      if t in st'.loops then Enabled(st', Scan(t)) && Drain(st, t) == Drain(st', t) else Drain(st, t) == st'
  {
    ScanProgress(st, t);
  }

  /** The waiter asked for the socket and it is ready, as lwip_selscan sees it. */
  predicate Wanted(w: Waiter, socks: map<nat, Sock>, s: nat) {
    (s in w.read && Readable(socks, s)) || (s in w.write && Writable(socks, s))
  }

  /** Nobody who could signal it is about to look at the waiter's socket. */
  ghost predicate SleepsOn(st: State, w: Waiter, s: nat) {
    w in st.list && !w.signalled && Wanted(w, st.socks, s) && !Attended(st.loops, s)
  }

  /** A descriptor at or above maxfdp1 is not looked at before the wait begins. When no callback
      is in its loop, whoever starts to wait sleeps on a ready socket exactly when one of the
      sockets it asked for at or above maxfdp1 is ready. */
  lemma BeyondMaxIsForgotten(st: State, id: nat, read: set<nat>, write: set<nat>, max: nat)
    requires Enabled(st, Select(id, read, write, max, false)) && NReady(st.socks, max, read, write) == 0
    requires st.loops == map[]
    ensures var w := Waiter(id, read, write, max, false);
      var st' := Perform(st, Select(id, read, write, max, false));
      (exists s: nat :: SleepsOn(st', w, s)) <==> (exists s: nat :: s >= max && Wanted(w, st.socks, s))
  {
    var w := Waiter(id, read, write, max, false);
    var st' := Perform(st, Select(id, read, write, max, false));
    forall s: nat | Wanted(w, st.socks, s) ensures s >= max && SleepsOn(st', w, s) {
      assert s !in ReadyReads(st.socks, max, read) && s !in ReadyWrites(st.socks, max, write);
      assert st'.list[0] == w;
    }
  }

  /** After any run without a callback left in its loop, the sockets a waiter could be signalled
      for and is not are all at or above its maxfdp1. */
  lemma OnlyBeyondMax(st: State, ps: seq<Step>, i: nat, s: nat)
    requires NoneForgotten(st) && EnabledRun(st, ps) && Run(st, ps).loops == map[]
    requires i < |Run(st, ps).list| && s in Run(st, ps).socks && Hit(Run(st, ps).list[i], s, Run(st, ps).socks[s])
    ensures s >= Run(st, ps).list[i].max
  {
    NoLostWakeUp(st, ps);
    assert !Due(Run(st, ps).list[i], s, Run(st, ps).socks[s]);
  }

  /** It does happen: a ready descriptor 3 and a maxfdp1 of 3. */
  lemma BeyondMaxHappens()
    ensures var st := State(map[3 := Sock(1, false, false)], [], map[]);
      var p := Select(0, {3}, {}, 3, false);
      NoneForgotten(st) && Enabled(st, p) && SleepsOn(Perform(st, p), Waiter(0, {3}, {}, 3, false), 3)
  {
    var socks := map[3 := Sock(1, false, false)];
    assert ReadyReads(socks, 3, {3}) == {} && ReadyWrites(socks, 3, {}) == {};
    var st := State(socks, [], map[]);
    var w := Waiter(0, {3}, {}, 3, false);
    BeyondMaxIsForgotten(st, 0, {3}, {}, 3);
    assert Wanted(w, socks, 3);
    assert Perform(st, Select(0, {3}, {}, 3, false)).list[0] == w;
  }
}
