/** Local ports and PCB lists of src/lwip/core/tcp.c by value: tcp_new_port, tcp_bind,
    tcp_listen_with_backlog, tcp_connect and tcp_close, as far as they move PCBs. */
module TcpPorts {
  import opened Words
  import opened Errors

  const RANGE_START: nat := 4096
  const RANGE_END: nat := 0x7fff
  const PORTS: nat := 28672
  const IP_ANY: nat := 0

  datatype Status = Closed | Listen | SynSent | SynRcvd | Established | CloseWait | FinWait1 | LastAck | TimeWait

  datatype Pcb = Pcb(id: nat, ip: nat, port: nat, status: Status)

  /** tcp_bound_pcbs, tcp_listen_pcbs, tcp_active_pcbs, tcp_tw_pcbs, and the static port. */
  datatype Lists = Lists(bound: seq<Pcb>, listen: seq<Pcb>, active: seq<Pcb>, tw: seq<Pcb>, port: nat)

  predicate InRange(port: nat) { RANGE_START <= port <= RANGE_END }

  predicate Uses(s: seq<Pcb>, port: nat) { exists k :: 0 <= k < |s| && s[k].port == port }

  /** What tcp_new_port avoids: it does not look at the bound PCBs. */
  predicate Taken(l: Lists, port: nat) { Uses(l.active, port) || Uses(l.tw, port) || Uses(l.listen, port) }

  function Succ(port: nat): nat { if port + 1 > RANGE_END then RANGE_START else port + 1 }

  /** The search of tcp_new_port, n steps of it; 0 when they find nothing. */
  function Search(l: Lists, port: nat, n: nat): nat
    decreases n
  {
    if n == 0 then 0 else if !Taken(l, Succ(port)) then Succ(port) else Search(l, Succ(port), n - 1)
  }

  /** Once around the range finds whatever there is to find. */
  function NewPort(l: Lists): nat { Search(l, l.port, PORTS) }

  ghost predicate HasFree(l: Lists) { exists port :: InRange(port) && !Taken(l, port) }

  /** The steps from port to the next occurrence of free. */
  function Distance(port: nat, free: nat): (d: nat)
    requires InRange(port) && InRange(free)
    ensures 0 < d <= PORTS
  {
    if free > port then free - port else free + PORTS - port
  }

  lemma {:induction false} SearchFinds(l: Lists, port: nat, free: nat, n: nat)
    requires InRange(port) && InRange(free) && !Taken(l, free) && Distance(port, free) <= n
    ensures InRange(Search(l, port, n)) && !Taken(l, Search(l, port, n))
    decreases n
  {
    if Taken(l, Succ(port)) { SearchFinds(l, Succ(port), free, n - 1); }
  }

  // ----- a free port exists -----

  ghost function Ports(s: seq<Pcb>): set<nat> { set k | 0 <= k < |s| :: s[k].port }

  lemma {:induction false} PortsFew(s: seq<Pcb>)
    ensures |Ports(s)| <= |s|
  {
    if s != [] {
      PortsFew(s[1..]);
      assert Ports(s) == {s[0].port} + Ports(s[1..]) by {
        forall p | p in Ports(s) ensures p in {s[0].port} + Ports(s[1..]) {
          var k :| 0 <= k < |s| && s[k].port == p;
          if k > 0 { assert s[1..][k-1].port == p; }
        }
        forall p | p in Ports(s[1..]) ensures p in Ports(s) {
          var k :| 0 <= k < |s| - 1 && s[1..][k].port == p;
          assert s[k+1].port == p;
        }
      }
    }
  }

  ghost function Range(lo: nat, hi: nat): (r: set<nat>)
    requires lo <= hi
    ensures |r| == hi - lo && forall p :: p in r <==> lo <= p < hi
    decreases hi - lo
  {
    if lo == hi then {} else Range(lo, hi - 1) + {hi - 1}
  }

  lemma Subset(a: set<nat>, b: set<nat>)
    requires a <= b
    ensures |a| <= |b|
  {
    assert b == a + (b - a);
  }

  /** With fewer active, TIME-WAIT and listening PCBs than ports in the range, one is free. */
  lemma Pigeonhole(l: Lists)
    requires |l.active| + |l.tw| + |l.listen| < PORTS
    ensures HasFree(l)
  {
    if !HasFree(l) {
      var used := Ports(l.active) + Ports(l.tw) + Ports(l.listen);
      forall p | p in Range(RANGE_START, RANGE_END + 1) ensures p in used {
        assert InRange(p) ==> Taken(l, p);
      }
      PortsFew(l.active);
      PortsFew(l.tw);
      PortsFew(l.listen);
      Subset(Range(RANGE_START, RANGE_END + 1), used);
    }
  }

  /** tcp_new_port then ends, with a port of the range that none of those PCBs uses. */
  lemma NewPortFree(l: Lists)
    requires InRange(l.port) && HasFree(l)
    ensures InRange(NewPort(l)) && !Taken(l, NewPort(l))
  {
    var free :| InRange(free) && !Taken(l, free);
    SearchFinds(l, l.port, free, PORTS);
  }

  // ----- the operations -----

  /** A PCB of s has this port and an address that overlaps ip; wild says whether wildcards count. */
  predicate Clashes(s: seq<Pcb>, ip: nat, port: nat, wild: bool) {
    exists k :: 0 <= k < |s| && s[k].port == port && (s[k].ip == ip || (wild && (s[k].ip == IP_ANY || ip == IP_ANY)))
  }

  predicate AddressInUse(l: Lists, ip: nat, port: nat) {
    Clashes(l.listen, ip, port, true) || Clashes(l.active, ip, port, true) || Clashes(l.bound, ip, port, true)
    || Clashes(l.tw, ip, port, false)
  }

  /** tcp_bind of p, which is on no list. */
  function Bind(l: Lists, p: Pcb, ip: nat, port0: nat): (int, Lists) {
    if p.status != Closed then (ERR_ISCONN, l)
    else
      var port := if port0 == 0 then NewPort(l) else port0;
      var l' := if port0 == 0 then l.(port := port) else l;
      if AddressInUse(l, ip, port) then (ERR_USE, l')
      else (ERR_OK, l'.(bound := [p.(ip := if ip == IP_ANY then p.ip else ip, port := port)] + l.bound))
  }

  function Without(s: seq<Pcb>, id: nat): seq<Pcb> {
    if s == [] then [] else if s[0].id == id then s[1..] else [s[0]] + Without(s[1..], id)
  }

  /** tcp_listen_with_backlog of the bound p: a smaller PCB takes its place. */
  function ListenOn(l: Lists, p: Pcb, room: bool): Lists {
    if p.status != Closed || !room then l
    else l.(bound := Without(l.bound, p.id), listen := [p.(status := Listen)] + l.listen)
  }

  /** tcp_connect of p, bound or not. */
  function Connect(l: Lists, p: Pcb): (int, Lists) {
    if p.status != Closed then (ERR_ISCONN, l)
    else
      var port := if p.port == 0 then NewPort(l) else p.port;
      (ERR_OK, Lists(Without(l.bound, p.id), l.listen, [p.(port := port, status := SynSent)] + l.active, l.tw,
        if p.port == 0 then port else l.port))
  }

  function SetStatus(s: seq<Pcb>, id: nat, status: Status): seq<Pcb> {
    if s == [] then []
    else if s[0].id == id then [s[0].(status := status)] + s[1..]
    else [s[0]] + SetStatus(s[1..], id, status)
  }

  /** tcp_close: a PCB with no connection is freed; one with a connection starts to close it,
      if sent, that is if the FIN could be queued. */
  function Close(l: Lists, p: Pcb, sent: bool): Lists {
    match p.status
    case Closed => l.(bound := Without(l.bound, p.id))
    case Listen => l.(listen := Without(l.listen, p.id))
    case SynSent => l.(active := Without(l.active, p.id))
    case SynRcvd => if sent then l.(active := SetStatus(l.active, p.id, FinWait1)) else l
    case Established => if sent then l.(active := SetStatus(l.active, p.id, FinWait1)) else l
    case CloseWait => if sent then l.(active := SetStatus(l.active, p.id, LastAck)) else l
    case _ => l
  }

  // ----- what the operations do, said without them -----

  predicate Overlap(a: nat, b: nat) { a == b || a == IP_ANY || b == IP_ANY }

  /** A listening, active or bound PCB has the port for an overlapping address, or one in
      TIME-WAIT for the very same. */
  ghost predicate InUse(l: Lists, ip: nat, port: nat) {
    || (exists q :: (q in l.listen || q in l.active || q in l.bound) && q.port == port && Overlap(q.ip, ip))
    || (exists q :: q in l.tw && q.port == port && q.ip == ip)
  }

  lemma ClashMeans(s: seq<Pcb>, ip: nat, port: nat, wild: bool)
    ensures Clashes(s, ip, port, wild) <==>
      exists q :: q in s && q.port == port && (if wild then Overlap(q.ip, ip) else q.ip == ip)
  {
    if Clashes(s, ip, port, wild) {
      var k :| 0 <= k < |s| && s[k].port == port && (s[k].ip == ip || (wild && (s[k].ip == IP_ANY || ip == IP_ANY)));
      assert s[k] in s;
    }
  }

  /** tcp_bind of a closed PCB reports ERR_USE exactly when the address is in use. Otherwise the
      PCB is bound: first on its list, with the port, and with the address unless that is the
      wildcard. No other list changes. */
  lemma BindExactly(l: Lists, p: Pcb, ip: nat, port0: nat)
    requires p.status == Closed
    ensures var (r, l') := Bind(l, p, ip, port0);
      var port := if port0 == 0 then NewPort(l) else port0;
      && (r == ERR_USE <==> InUse(l, ip, port)) && (r == ERR_USE || r == ERR_OK)
      && l'.listen == l.listen && l'.active == l.active && l'.tw == l.tw
      && l'.port == (if port0 == 0 then port else l.port)
      && l'.bound ==
        if r == ERR_OK then [Pcb(p.id, if ip == IP_ANY then p.ip else ip, port, Closed)] + l.bound else l.bound
  {
    var port := if port0 == 0 then NewPort(l) else port0;
    ClashMeans(l.listen, ip, port, true);
    ClashMeans(l.active, ip, port, true);
    ClashMeans(l.bound, ip, port, true);
    ClashMeans(l.tw, ip, port, false);
  }

  lemma {:induction false} SetStatusOne(s: seq<Pcb>, id: nat, status: Status)
    requires forall i, j :: 0 <= i < j < |s| ==> s[i].id != s[j].id
    ensures |SetStatus(s, id, status)| == |s|
    ensures forall k :: 0 <= k < |s| ==>
      SetStatus(s, id, status)[k] == if s[k].id == id then s[k].(status := status) else s[k]
  {
    if s != [] {
      SetStatusOne(s[1..], id, status);
      assert forall k :: 0 < k < |s| ==> s[k] == s[1..][k-1];
    }
  }

  /** The list without p, and the list with p in another state. */
  ghost predicate Gone(s: seq<Pcb>, s': seq<Pcb>, id: nat) { forall q :: q in s' <==> q in s && q.id != id }

  ghost predicate Moved(s: seq<Pcb>, s': seq<Pcb>, id: nat, status: Status) {
    |s'| == |s| && forall k :: 0 <= k < |s| ==> s'[k] == if s[k].id == id then s[k].(status := status) else s[k]
  }

  /** tcp_listen_with_backlog of a closed PCB, when there is room: it leaves the bound PCBs, and
      one with its address and port is first of those that listen. */
  lemma ListenExactly(l: Lists, p: Pcb, room: bool)
    requires UniqueIds(l.bound)
    ensures var l' := ListenOn(l, p, room);
      && (p.status != Closed || !room ==> l' == l)
      && (p.status == Closed && room ==>
        Gone(l.bound, l'.bound, p.id) && l'.listen == [Pcb(p.id, p.ip, p.port, Listen)] + l.listen)
      && l'.active == l.active && l'.tw == l.tw && l'.port == l.port
  {
    WithoutMembers(l.bound, p.id);
  }

  /** tcp_connect of a closed PCB: it leaves the bound PCBs and is first of the active ones, with
      its port, or, when it had none, with one that no listening, active or TIME-WAIT PCB has. */
  lemma ConnectExactly(l: Lists, p: Pcb)
    requires UniqueIds(l.bound) && p.status == Closed && (p.port == 0 ==> InRange(l.port) && HasFree(l))
    ensures var (r, l') := Connect(l, p);
      && r == ERR_OK && l'.active != [] && l'.active[1..] == l.active
      && l'.active[0] == Pcb(p.id, p.ip, l'.active[0].port, SynSent)
      && (p.port != 0 ==> l'.active[0].port == p.port)
      && (p.port == 0 ==> InRange(l'.active[0].port))
      && (p.port == 0 ==> forall q :: q in l.listen || q in l.active || q in l.tw ==> q.port != l'.active[0].port)
      && Gone(l.bound, l'.bound, p.id) && l'.listen == l.listen && l'.tw == l.tw
  {
    WithoutMembers(l.bound, p.id);
    if p.port == 0 {
      NewPortFree(l);
      forall q | q in l.listen || q in l.active || q in l.tw ensures q.port != NewPort(l) {
        assert !Uses(l.listen, NewPort(l)) && !Uses(l.active, NewPort(l)) && !Uses(l.tw, NewPort(l));
      }
    }
  }

  /** tcp_close: a PCB without a connection leaves its list. SYN-RECEIVED and ESTABLISHED become
      FIN-WAIT-1, and CLOSE-WAIT becomes LAST-ACK, when the FIN could be queued. Nothing else
      changes. */
  lemma CloseExactly(l: Lists, p: Pcb, sent: bool)
    requires UniqueIds(l.bound) && UniqueIds(l.listen) && UniqueIds(l.active)
    ensures var l' := Close(l, p, sent);
      && (if p.status.Closed? then Gone(l.bound, l'.bound, p.id) else l'.bound == l.bound)
      && (if p.status.Listen? then Gone(l.listen, l'.listen, p.id) else l'.listen == l.listen)
      && (if p.status.SynSent? then Gone(l.active, l'.active, p.id)
          else if (p.status.SynRcvd? || p.status.Established?) && sent then Moved(l.active, l'.active, p.id, FinWait1)
          else if p.status.CloseWait? && sent then Moved(l.active, l'.active, p.id, LastAck)
          else l'.active == l.active)
      && l'.tw == l.tw && l'.port == l.port
  {
    WithoutMembers(l.bound, p.id);
    WithoutMembers(l.listen, p.id);
    WithoutMembers(l.active, p.id);
    SetStatusOne(l.active, p.id, FinWait1);
    SetStatusOne(l.active, p.id, LastAck);
  }

  // ----- no two claims overlap -----

  predicate Conflict(p: Pcb, q: Pcb) { p.id != q.id && p.port == q.port && Overlap(p.ip, q.ip) }

  predicate Claims(l: Lists, p: Pcb) { p in l.bound || p in l.listen }

  ghost predicate UniqueIds(s: seq<Pcb>) { forall i, j :: 0 <= i < j < |s| ==> s[i].id != s[j].id }

  ghost predicate Absent(s: seq<Pcb>, id: nat) { forall k :: 0 <= k < |s| ==> s[k].id != id }

  ghost predicate Exclusive(l: Lists) {
    forall p, q :: Claims(l, p) && Claims(l, q) ==> !Conflict(p, q)
  }

  /** Bound PCBs are closed, listening ones listen, each is listed once, and no two of them
      claim the same port for overlapping addresses. */
  ghost predicate Inv(l: Lists) {
    && UniqueIds(l.bound) && UniqueIds(l.listen) && (forall k :: 0 <= k < |l.bound| ==> Absent(l.listen, l.bound[k].id))
    && Exclusive(l) && InRange(l.port)
  }

  /** A fresh PCB, as tcp_new returns it. */
  ghost predicate IsFresh(l: Lists, p: Pcb) {
    Absent(l.bound, p.id) && Absent(l.listen, p.id) && p.ip == IP_ANY && p.port == 0 && p.status == Closed
  }

  lemma UniqueCons(p: Pcb, s: seq<Pcb>)
    requires UniqueIds(s) && Absent(s, p.id)
    ensures UniqueIds([p] + s)
  {
  }

  lemma UniqueTail(s: seq<Pcb>)
    requires UniqueIds(s) && s != []
    ensures UniqueIds(s[1..]) && Absent(s[1..], s[0].id)
  {
  }

  /** Removing by id takes out that one PCB. */
  lemma {:induction false} WithoutMembers(s: seq<Pcb>, id: nat)
    requires UniqueIds(s)
    ensures forall p :: p in Without(s, id) <==> p in s && p.id != id
  {
    if s != [] {
      UniqueTail(s);
      assert forall p :: p in s <==> p == s[0] || p in s[1..];
      if s[0].id != id { WithoutMembers(s[1..], id); }
    }
  }

  lemma {:induction false} WithoutFacts(s: seq<Pcb>, id: nat)
    requires UniqueIds(s)
    ensures UniqueIds(Without(s, id)) && Absent(Without(s, id), id)
    ensures forall p :: p in Without(s, id) <==> p in s && p.id != id
  {
    WithoutMembers(s, id);
    if s != [] {
      UniqueTail(s);
      if s[0].id != id {
        WithoutFacts(s[1..], id);
        forall k | 0 <= k < |Without(s[1..], id)| ensures Without(s[1..], id)[k].id != s[0].id {
          assert Without(s[1..], id)[k] in s[1..];
        }
        UniqueCons(s[0], Without(s[1..], id));
      }
    }
  }

  /** The claim tcp_bind makes for a fresh PCB overlaps no other. */
  lemma BindKeeps(l: Lists, p: Pcb, ip: nat, port: nat)
    requires Inv(l) && IsFresh(l, p) && (port == 0 ==> HasFree(l))
    ensures Inv(Bind(l, p, ip, port).1)
  {
    if port == 0 { NewPortFree(l); }
    var (r, l') := Bind(l, p, ip, port);
    if r == ERR_OK {
      var n := l'.bound[0];
      forall q | Claims(l, q) ensures !Conflict(n, q) && !Conflict(q, n) {
        assert n.ip == ip;
        if q in l.bound {
          var k :| 0 <= k < |l.bound| && l.bound[k] == q;
        } else {
          var k :| 0 <= k < |l.listen| && l.listen[k] == q;
        }
      }
      forall a, b | Claims(l', a) && Claims(l', b) ensures !Conflict(a, b) {
        assert a == n || Claims(l, a);
        assert b == n || Claims(l, b);
      }
    }
  }

  lemma ListenKeeps(l: Lists, p: Pcb, room: bool)
    requires Inv(l) && p in l.bound
    ensures Inv(ListenOn(l, p, room))
  {
    var l' := ListenOn(l, p, room);
    WithoutFacts(l.bound, p.id);
    if l' != l {
      var n := l'.listen[0];
      assert Absent(l.listen, p.id);
      assert Claims(l, p);
      forall k | 0 <= k < |l'.bound| ensures Absent(l'.listen, l'.bound[k].id) { assert l'.bound[k] in l.bound; }
      forall a, b | Claims(l', a) && Claims(l', b) ensures !Conflict(a, b) {
        if a != n && b != n { assert Claims(l, a) && Claims(l, b); }
        else if a != n { assert Claims(l, a) && !Conflict(a, p); }
        else if b != n { assert Claims(l, b) && !Conflict(p, b); }
      }
    }
  }

  /** Taking PCBs off the lists makes no claims. */
  lemma FewerClaims(l: Lists, l': Lists)
    requires Exclusive(l) && forall p :: Claims(l', p) ==> Claims(l, p)
    ensures Exclusive(l')
  {
  }

  lemma UnbindKeeps(l: Lists, l': Lists, id: nat)
    requires Inv(l) && InRange(l'.port)
    requires (l'.bound == Without(l.bound, id) && l'.listen == l.listen) ||
      (l'.bound == l.bound && l'.listen == Without(l.listen, id))
    ensures Inv(l')
  {
    WithoutFacts(l.bound, id);
    WithoutFacts(l.listen, id);
    FewerClaims(l, l');
    forall k | 0 <= k < |l'.bound| ensures Absent(l'.listen, l'.bound[k].id) {
      assert l'.bound[k] in l.bound;
      forall j | 0 <= j < |l'.listen| ensures l'.listen[j].id != l'.bound[k].id { assert l'.listen[j] in l.listen; }
    }
  }

  // ----- a port of the stack's choosing -----

  /** Binding to port 0 is refused exactly when the port that tcp_new_port found, which does not
      look there, belongs to an overlapping bound PCB. */
  lemma BindAnyExact(l: Lists, p: Pcb, ip: nat)
    requires InRange(l.port) && HasFree(l) && p.status == Closed
    ensures Bind(l, p, ip, 0).0 == ERR_USE <==> Clashes(l.bound, ip, NewPort(l), true)
  {
    NewPortFree(l);
  }

  /** So it can be refused although a later port of the range is free for it. */
  lemma BindAnyRefused()
    ensures var l := Lists([Pcb(1, IP_ANY, 4097, Closed)], [], [], [], 4096);
      Inv(l) && Bind(l, Pcb(2, IP_ANY, 0, Closed), IP_ANY, 0).0 == ERR_USE
      && Bind(l, Pcb(2, IP_ANY, 0, Closed), IP_ANY, 4098).0 == ERR_OK
  {
    var l := Lists([Pcb(1, IP_ANY, 4097, Closed)], [], [], [], 4096);
    assert !Taken(l, Succ(4096));
    assert Search(l, 4096, PORTS) == 4097;
    assert l.bound[0].port == 4097;
  }

  // ----- runs -----

  /** The calls, and whatever else happens to the connected and TIME-WAIT PCBs. */
  datatype Step =
    | DoBind(p: Pcb, ip: nat, port: nat)
    | DoListen(p: Pcb, room: bool)
    | DoConnect(p: Pcb)
    | DoClose(p: Pcb, sent: bool)
    | Traffic(active: seq<Pcb>, tw: seq<Pcb>)

  /** PCBs are bound once, while fresh, and listen only after that; a port of the stack's
      choosing is asked for only while there is one. */
  ghost predicate Legal(l: Lists, s: Step) {
    match s
    case DoBind(p, _, port) => IsFresh(l, p) && (port == 0 ==> HasFree(l))
    case DoListen(p, _) => p in l.bound
    case DoConnect(p) => (IsFresh(l, p) && HasFree(l)) || (p in l.bound && (p.port == 0 ==> HasFree(l)))
    case DoClose(_, _) => true
    case Traffic(_, _) => true
  }

  function Perform(l: Lists, s: Step): Lists {
    match s
    case DoBind(p, ip, port) => Bind(l, p, ip, port).1
    case DoListen(p, room) => ListenOn(l, p, room)
    case DoConnect(p) => Connect(l, p).1
    case DoClose(p, sent) => Close(l, p, sent)
    case Traffic(active, tw) => l.(active := active, tw := tw)
  }

  lemma PerformKeeps(l: Lists, s: Step)
    requires Inv(l) && Legal(l, s)
    ensures Inv(Perform(l, s))
  {
    match s
    case DoBind(p, ip, port) => BindKeeps(l, p, ip, port);
    case DoListen(p, room) => ListenKeeps(l, p, room);
    case DoConnect(p) =>
      if p.port == 0 { NewPortFree(l); }
      if p.status == Closed { UnbindKeeps(l, Connect(l, p).1, p.id); }
    case DoClose(p, sent) =>
      if p.status == Closed || p.status == Listen {
        UnbindKeeps(l, Close(l, p, sent), p.id);
      } else {
        FewerClaims(l, Close(l, p, sent));
      }
    case Traffic(_, _) => FewerClaims(l, Perform(l, s));
  }

  ghost predicate LegalRun(l: Lists, ss: seq<Step>)
    decreases |ss|
  {
    ss != [] ==> Legal(l, ss[0]) && LegalRun(Perform(l, ss[0]), ss[1..])
  }

  ghost function Run(l: Lists, ss: seq<Step>): Lists
    requires LegalRun(l, ss)
    decreases |ss|
  {
    if ss == [] then l else Run(Perform(l, ss[0]), ss[1..])
  }

  /** Whatever is bound, listened on, connected and closed: no two PCBs claim the same port
      for overlapping addresses. */
  lemma {:induction false} RunExclusive(l: Lists, ss: seq<Step>)
    requires Inv(l) && LegalRun(l, ss)
    ensures Inv(Run(l, ss)) && Exclusive(Run(l, ss))
    decreases |ss|
  {
    if ss != [] {
      PerformKeeps(l, ss[0]);
      RunExclusive(Perform(l, ss[0]), ss[1..]);
    }
  }
}
