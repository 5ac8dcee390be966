/** The PCB lists of src/lwip/core/tcp.c as linked lists, with TCP_REG and TCP_RMV, and the
    functions that search and move PCBs, proved against TcpPorts. */
module TcpLists {
  import opened Words
  import opened Errors
  import opened TcpPorts

  class TcpPcb {
    ghost const id: nat
    var localIp: nat
    var localPort: nat
    var state: Status
    var next: TcpPcb?

    /** tcp_alloc: a fresh PCB. */
    constructor (ghost id: nat)
      ensures this.id == id && View() == Pcb(id, IP_ANY, 0, Closed)
    {
      this.id, localIp, localPort, state, next := id, IP_ANY, 0, Closed, null;
    }

    /** The PCB tcp_listen_with_backlog sets up in place of another. */
    constructor Listening(pcb: TcpPcb)
      ensures id == pcb.id && View() == Pcb(pcb.id, pcb.localIp, pcb.localPort, Listen)
    {
      id, localIp, localPort, state, next := pcb.id, pcb.localIp, pcb.localPort, Listen, null;
    }

    ghost function View(): Pcb
      reads `localIp, `localPort, `state
    {
      Pcb(id, localIp, localPort, state)
    }
  }

  ghost function Views(s: seq<TcpPcb>): (v: seq<Pcb>)
    reads s`localIp, s`localPort, s`state
    ensures |v| == |s| && forall i :: 0 <= i < |s| ==> v[i] == s[i].View()
  {
    if s == [] then [] else [s[0].View()] + Views(s[1..])
  }

  lemma ViewsCons(p: TcpPcb, s: seq<TcpPcb>)
    ensures Views([p] + s) == [p.View()] + Views(s)
  {
    assert ([p] + s)[1..] == s;
  }

  /** head, and from there the next fields, run through s. */
  ghost predicate Linked(head: TcpPcb?, s: seq<TcpPcb>)
    reads s`next
  {
    && head == (if s == [] then null else s[0])
    && (forall k {:trigger s[k].next} :: 0 <= k < |s| ==> s[k].next == if k + 1 < |s| then s[k+1] else null)
    && (forall k, l :: 0 <= k < l < |s| ==> s[k] != s[l])
  }

  lemma {:induction false} WithoutAt(v: seq<Pcb>, i: nat)
    requires i < |v| && UniqueIds(v)
    ensures Without(v, v[i].id) == RemoveAt(v, i)
  {
    if i > 0 {
      UniqueTail(v);
      WithoutAt(v[1..], i - 1);
      assert [v[0]] + RemoveAt(v[1..], i - 1) == RemoveAt(v, i);
    }
  }

  lemma {:induction false} WithoutAbsent(v: seq<Pcb>, id: nat)
    requires Absent(v, id)
    ensures Without(v, id) == v
  {
    if v != [] {
      assert v[0].id != id;
      forall k | 0 <= k < |v[1..]| ensures v[1..][k].id != id { assert v[k+1].id != id; }
      WithoutAbsent(v[1..], id);
    }
  }

  lemma {:induction false} ViewsRemoved(s: seq<TcpPcb>, i: nat)
    requires i < |s|
    ensures Views(RemoveAt(s, i)) == RemoveAt(Views(s), i)
  {
  }

  lemma RemovedApart(head: TcpPcb?, s: seq<TcpPcb>, i: nat)
    requires Linked(head, s) && i < |s|
    ensures forall p :: p in RemoveAt(s, i) <==> p in s && p != s[i]
  {
    var r := RemoveAt(s, i);
    forall p | p in s && p != s[i] ensures p in r {
      var k :| 0 <= k < |s| && s[k] == p;
      assert r[if k < i then k else k - 1] == p;
    }
  }

  /** One of the lists. */
  class PcbList {
    var head: TcpPcb?
    ghost var s: seq<TcpPcb>
    ghost var repr: set<TcpPcb>

    ghost predicate Valid()
      reads this, repr`next
    {
      (forall p :: p in s ==> p in repr) && (forall p :: p in repr ==> p in s) && Linked(head, s)
    }

    constructor ()
      ensures Valid() && s == [] && repr == {}
    {
      head, s, repr := null, [], {};
    }

    /** TCP_REG. */
    method Reg(pcb: TcpPcb)
      requires Valid() && pcb !in repr
      modifies this, pcb`next
      ensures Valid() && s == [pcb] + old(s) && repr == old(repr) + {pcb} && head == pcb
    {
      pcb.next := head;
      head := pcb;
      s := [pcb] + s;
      repr := repr + {pcb};
    }

    /** TCP_RMV: pcb is entry i, or not on the list. */
    method Rmv(pcb: TcpPcb, ghost i: nat)
      requires Linked(head, s) && i <= |s| && (if i < |s| then s[i] == pcb else pcb !in s)
      modifies `head, `s, s`next, pcb`next
      ensures Linked(head, s) && s == if i < |old(s)| then RemoveAt(old(s), i) else old(s)
    {
      if head == pcb {
        head := head.next;
      } else {
        var p := head;
        ghost var k := 0;
        while p != null && p.next != pcb
          invariant 0 <= k <= |s| && p == (if k < |s| then s[k] else null) && (i < |s| ==> k < i)
          decreases |s| - k
        {
          assert s[k].next == if k + 1 < |s| then s[k+1] else null;
          p := p.next;
          k := k + 1;
        }
        if p != null {
          assert s[k].next == if k + 1 < |s| then s[k+1] else null;
          p.next := pcb.next;
        }
      }
      if i < |s| { s := RemoveAt(s, i); }
      pcb.next := null;
    }

    /** TCP_RMV and its effect on the list by value. */
    method Take(pcb: TcpPcb)
      requires Valid() && UniqueIds(Views(s)) && (pcb !in repr ==> Absent(Views(s), pcb.id))
      modifies this, repr`next, pcb`next
      ensures Valid() && Views(s) == Without(old(Views(s)), pcb.id) && repr == old(repr) - {pcb}
    {
      hide Views, UniqueIds, Without, Absent, Linked;
      ghost var i := |s|;
      if pcb in repr {
        i :| 0 <= i < |s| && s[i] == pcb;
        WithoutAt(Views(s), i);
        ViewsRemoved(s, i);
        RemovedApart(head, s, i);
      } else {
        WithoutAbsent(Views(s), pcb.id);
      }
      Rmv(pcb, i);
      repr := repr - {pcb};
    }

    /** The loops that look for a port. */
    method HasPort(port: nat) returns (b: bool)
      requires Valid()
      ensures b == Uses(Views(s), port)
    {
      ghost var v, k := Views(s), 0;
      var pcb := head;
      while pcb != null
        invariant 0 <= k <= |s| && pcb == (if k < |s| then s[k] else null)
        invariant forall j :: 0 <= j < k ==> v[j].port != port
        decreases |s| - k
      {
        assert v[k] == s[k].View();
        if pcb.localPort == port { return true; }
        assert s[k].next == if k + 1 < |s| then s[k+1] else null;
        pcb := pcb.next;
        k := k + 1;
      }
      b := false;
    }

    /** The loops of tcp_bind that look for a clash. */
    method HasClash(ip: nat, port: nat, wild: bool) returns (b: bool)
      requires Valid()
      ensures b == Clashes(Views(s), ip, port, wild)
    {
      ghost var v, k := Views(s), 0;
      var pcb := head;
      while pcb != null
        invariant 0 <= k <= |s| && pcb == (if k < |s| then s[k] else null)
        invariant forall j :: 0 <= j < k ==>
          !(v[j].port == port && (v[j].ip == ip || (wild && (v[j].ip == IP_ANY || ip == IP_ANY))))
        decreases |s| - k
      {
        assert v[k] == s[k].View();
        if pcb.localPort == port {
          if pcb.localIp == ip || (wild && (pcb.localIp == IP_ANY || ip == IP_ANY)) { return true; }
        }
        assert s[k].next == if k + 1 < |s| then s[k+1] else null;
        pcb := pcb.next;
        k := k + 1;
      }
      b := false;
    }
  }

  class Tcp {
    const boundPcbs: PcbList
    const listenPcbs: PcbList
    const activePcbs: PcbList
    const twPcbs: PcbList
    var port: nat

    /** Empty lists and the initial value of the static port. */
    constructor ()
      ensures ListsOk() && L() == Lists([], [], [], [], RANGE_START) && Inv(L())
    {
      boundPcbs := new PcbList();
      listenPcbs := new PcbList();
      activePcbs := new PcbList();
      twPcbs := new PcbList();
      port := RANGE_START;
    }

    ghost predicate ListsOk()
      reads boundPcbs, listenPcbs, activePcbs, twPcbs
      reads boundPcbs.repr`next, listenPcbs.repr`next, activePcbs.repr`next, twPcbs.repr`next
    {
      && boundPcbs != listenPcbs && boundPcbs != activePcbs && boundPcbs != twPcbs
      && listenPcbs != activePcbs && listenPcbs != twPcbs && activePcbs != twPcbs
      && boundPcbs.Valid() && listenPcbs.Valid() && activePcbs.Valid() && twPcbs.Valid()
      && boundPcbs.repr !! listenPcbs.repr !! activePcbs.repr !! twPcbs.repr
    }

    ghost predicate OnNoList(pcb: TcpPcb)
      reads boundPcbs, listenPcbs, activePcbs, twPcbs
    {
      pcb !in boundPcbs.repr && pcb !in listenPcbs.repr && pcb !in activePcbs.repr && pcb !in twPcbs.repr
    }

    /** The lists by value. */
    ghost function L(): Lists
      reads this, boundPcbs, listenPcbs, activePcbs, twPcbs
      reads boundPcbs.s`localIp, boundPcbs.s`localPort, boundPcbs.s`state
      reads listenPcbs.s`localIp, listenPcbs.s`localPort, listenPcbs.s`state
      reads activePcbs.s`localIp, activePcbs.s`localPort, activePcbs.s`state
      reads twPcbs.s`localIp, twPcbs.s`localPort, twPcbs.s`state
    {
      Lists(Views(boundPcbs.s), Views(listenPcbs.s), Views(activePcbs.s), Views(twPcbs.s), port)
    }

    /** tcp_new_port. */
    method NewPortNumber() returns (p: nat)
      requires ListsOk() && InRange(port) && HasFree(L())
      modifies `port
      ensures port == p == NewPort(old(L()))
    {
      hide Linked, Uses, HasFree, Views;
      ghost var l, n := L(), PORTS;
      NewPortFree(l);
      var again := true;
      while again
        invariant if again then Search(l, port, n) == NewPort(l) else port == NewPort(l)
        decreases n, again
      {
        port := if port + 1 > RANGE_END then RANGE_START else port + 1;
        again := activePcbs.HasPort(port);
        if !again { again := twPcbs.HasPort(port); }
        if !again { again := listenPcbs.HasPort(port); }
        n := if again then n - 1 else n;
      }
      p := port;
    }

    /** The four checks of tcp_bind. */
    method CheckAddress(ip: nat, p: nat) returns (used: bool)
      requires ListsOk()
      ensures used == AddressInUse(L(), ip, p)
    {
      hide Linked, Clashes, Views;
      used := listenPcbs.HasClash(ip, p, true);
      if used { return; }
      used := activePcbs.HasClash(ip, p, true);
      if used { return; }
      used := boundPcbs.HasClash(ip, p, true);
      if used { return; }
      used := twPcbs.HasClash(ip, p, false);
    }

    /** The end of tcp_bind. */
    method Claim(pcb: TcpPcb, ip: nat, p: nat)
      requires ListsOk() && OnNoList(pcb)
      modifies boundPcbs, pcb`next, pcb`localIp, pcb`localPort
      ensures ListsOk()
      ensures var ip' := if ip == IP_ANY then old(pcb.localIp) else ip;
        L() == old(L()).(bound := [old(pcb.View()).(ip := ip', port := p)] + old(L()).bound)
    {
      hide Linked, Views;
      if ip != IP_ANY { pcb.localIp := ip; }
      pcb.localPort := p;
      ghost var s := boundPcbs.s;
      boundPcbs.Reg(pcb);
      ViewsCons(pcb, s);
    }

    /** tcp_bind. */
    method BindPcb(pcb: TcpPcb, ip: nat, port0: nat) returns (r: int)
      requires ListsOk() && OnNoList(pcb) && InRange(port) && (port0 == 0 ==> HasFree(L()))
      modifies `port, boundPcbs, pcb`next, pcb`localIp, pcb`localPort
      ensures ListsOk() && (r, L()) == Bind(old(L()), old(pcb.View()), ip, port0)
    {
      hide Linked, Clashes, Views, HasFree, Search;
      if pcb.state != Closed { return ERR_ISCONN; }
      var p := port0;
      if p == 0 { p := NewPortNumber(); }
      var used := CheckAddress(ip, p);
      if used { return ERR_USE; }
      Claim(pcb, ip, p);
      r := ERR_OK;
    }

    /** TCP_RMV from the bound PCBs. */
    method Unbind(pcb: TcpPcb)
      requires ListsOk() && UniqueIds(Views(boundPcbs.s))
      requires pcb in boundPcbs.repr || (OnNoList(pcb) && Absent(Views(boundPcbs.s), pcb.id))
      modifies boundPcbs, boundPcbs.repr`next, pcb`next
      ensures ListsOk() && OnNoList(pcb) && L() == old(L()).(bound := Without(old(L()).bound, pcb.id))
      ensures boundPcbs.repr == old(boundPcbs.repr) - {pcb}
    {
      hide Linked, Views, UniqueIds, Without, Absent;
      boundPcbs.Take(pcb);
    }

    /** TCP_REG with the listening PCBs, and with the active ones, where it starts to connect. */
    method RegListen(p: TcpPcb)
      requires ListsOk() && OnNoList(p)
      modifies listenPcbs, p`next
      ensures ListsOk() && L() == old(L()).(listen := [p.View()] + old(L()).listen) && listenPcbs.head == p
    {
      hide Linked, Views;
      ghost var s := listenPcbs.s;
      listenPcbs.Reg(p);
      ViewsCons(p, s);
    }

    method RegActive(pcb: TcpPcb, p: nat)
      requires ListsOk() && OnNoList(pcb)
      modifies activePcbs, pcb`next, pcb`localPort, pcb`state
      ensures ListsOk() &&
        L() == old(L()).(active := [old(pcb.View()).(port := p, status := SynSent)] + old(L()).active)
    {
      hide Linked, Views;
      pcb.localPort := p;
      pcb.state := SynSent;
      ghost var s := activePcbs.s;
      activePcbs.Reg(pcb);
      ViewsCons(pcb, s);
    }

    /** tcp_listen_with_backlog; room says whether a PCB for listening can be allocated. */
    method ListenWithBacklog(pcb: TcpPcb, room: bool) returns (lpcb: TcpPcb?)
      requires ListsOk() && pcb in boundPcbs.repr && UniqueIds(Views(boundPcbs.s))
      modifies boundPcbs, boundPcbs.repr`next, listenPcbs
      ensures ListsOk() && L() == ListenOn(old(L()), old(pcb.View()), room)
      ensures lpcb == null <==> L() == old(L())
      ensures lpcb == null <==> old(pcb.state) != Closed || !room
      ensures lpcb != null ==>
        fresh(lpcb) && lpcb == listenPcbs.head && lpcb.View() == old(pcb.View()).(status := Listen)
    {
      hide Linked, Views, UniqueIds, Without;
      if pcb.state != Closed || !room { return null; }
      var p := new TcpPcb.Listening(pcb);
      Unbind(pcb);
      RegListen(p);
      lpcb := p;
    }

    /** tcp_connect, as far as the lists and the local port go. */
    method ConnectPcb(pcb: TcpPcb) returns (r: int)
      requires ListsOk() && InRange(port) && UniqueIds(Views(boundPcbs.s))
      requires pcb in boundPcbs.repr || (OnNoList(pcb) && Absent(Views(boundPcbs.s), pcb.id))
      requires pcb.localPort == 0 ==> HasFree(L())
      modifies `port, boundPcbs, boundPcbs.repr`next, activePcbs, pcb`next, pcb`localPort, pcb`state
      ensures ListsOk() && (r, L()) == Connect(old(L()), old(pcb.View()))
    {
      hide Linked, Views, UniqueIds, Without, Absent, HasFree, Search;
      if pcb.state != Closed { return ERR_ISCONN; }
      var p := pcb.localPort;
      if p == 0 { p := NewPortNumber(); }
      Unbind(pcb);
      RegActive(pcb, p);
      r := ERR_OK;
    }

    /** tcp_close of a PCB without a connection: bound, fresh, listening or about to connect. */
    method FreePcb(pcb: TcpPcb)
      requires ListsOk() && pcb.state in {Closed, Listen, SynSent}
      requires UniqueIds(Views(boundPcbs.s)) && UniqueIds(Views(listenPcbs.s)) && UniqueIds(Views(activePcbs.s))
      requires pcb.state == Closed ==> pcb in boundPcbs.repr || (OnNoList(pcb) && Absent(Views(boundPcbs.s), pcb.id))
      requires pcb.state == Listen ==> pcb in listenPcbs.repr
      requires pcb.state == SynSent ==> pcb in activePcbs.repr
      modifies boundPcbs, boundPcbs.repr`next, listenPcbs, listenPcbs.repr`next, activePcbs, activePcbs.repr`next,
        pcb`next
      ensures ListsOk() && L() == Close(old(L()), old(pcb.View()), true)
    {
      hide Linked, Views, UniqueIds, Without, Absent;
      match pcb.state {
        case Closed => boundPcbs.Take(pcb);
        case Listen => listenPcbs.Take(pcb);
        case SynSent => activePcbs.Take(pcb);
      }
    }
  }
}
