/** select_cb_list of src/lwip/api/sockets.c as the linked list it is: the critical sections
    of lwip_select and event_callback, each proved to be one step of the protocol. */
module SelectList {
  import opened Words
  import opened SelectProtocol

  class SelectCb {
    ghost const id: nat
    const readset: set<nat>
    const writeset: set<nat>
    const maxfdp1: nat
    var next: SelectCb?
    var semSignalled: bool
    /** How often its semaphore has been signalled. */
    var sem: nat

    constructor (ghost id: nat, readset: set<nat>, writeset: set<nat>, maxfdp1: nat)
      ensures this.id == id && this.readset == readset && this.writeset == writeset && this.maxfdp1 == maxfdp1
      ensures next == null && !semSignalled && sem == 0
    {
      this.id, this.readset, this.writeset, this.maxfdp1 := id, readset, writeset, maxfdp1;
      next, semSignalled, sem := null, false, 0;
    }

    ghost function View(): Waiter
      reads this
    {
      Waiter(id, readset, writeset, maxfdp1, semSignalled)
    }
  }

  ghost function Views(s: seq<SelectCb>): (v: seq<Waiter>)
    reads s
    ensures |v| == |s| && forall i :: 0 <= i < |s| ==> v[i] == s[i].View()
  {
    seq(|s|, i requires 0 <= i < |s| reads s => s[i].View())
  }

  /** head, and from there the next fields, run through s and end. */
  ghost predicate Linked(head: SelectCb?, s: seq<SelectCb>)
    reads s
  {
    && head == (if s == [] then null else s[0])
    && (forall k {:trigger s[k].next} :: 0 <= k < |s| ==> s[k].next == if k + 1 < |s| then s[k+1] else null)
    && (forall k, l :: 0 <= k < l < |s| ==> s[k] != s[l])
  }

  ghost predicate UniqueIds(v: seq<Waiter>) {
    forall k, l :: 0 <= k < l < |v| ==> v[k].id != v[l].id
  }

  lemma {:induction false} WithoutAt(list: seq<Waiter>, i: nat)
    requires i < |list| && UniqueIds(list)
    ensures Without(list, list[i].id) == list[..i] + list[i+1..]
    ensures UniqueIds(Without(list, list[i].id))
  {
    if i > 0 {
      WithoutAt(list[1..], i - 1);
      HeadOn(list, i);
    }
  }

  lemma HeadOn(list: seq<Waiter>, i: nat)
    requires 0 < i < |list|
    ensures [list[0]] + (list[1..][..i-1] + list[1..][i..]) == list[..i] + list[i+1..]
  {
  }

  lemma RemovedViews(s: seq<SelectCb>, v: seq<Waiter>, i: nat)
    requires i < |s| == |v| && forall k :: 0 <= k < |s| ==> v[k] == s[k].View()
    ensures Views(RemoveAt(s, i)) == v[..i] + v[i+1..]
  {
  }

  /** Take entry i off the list that starts at head; the new head is returned. */
  method Unlink(head: SelectCb?, cb: SelectCb, ghost s: seq<SelectCb>, ghost i: nat) returns (head': SelectCb?)
    requires Linked(head, s) && i < |s| && s[i] == cb
    modifies s`next
    ensures Linked(head', RemoveAt(s, i))
  {
    if head == cb { return cb.next; }
    var p := head;
    ghost var k := 0;
    while p != null && p.next != cb
      invariant 0 <= k < i && p == s[k]
      decreases i - k
    {
      assert s[k].next == s[k+1];
      p := p.next;
      k := k + 1;
    }
    assert s[k].next == s[k+1];
    p.next := cb.next;
    head' := head;
  }

  /** Mark entry k and signal its semaphore. */
  method Wake(scb: SelectCb, ghost head: SelectCb?, ghost s: seq<SelectCb>, ghost k: nat)
    requires Linked(head, s) && UniqueIds(Views(s)) && k < |s| && s[k] == scb && !scb.semSignalled
    modifies scb`semSignalled, scb`sem
    ensures Linked(head, s) && UniqueIds(Views(s))
    ensures Views(s) == old(Views(s))[k := old(Views(s))[k].(signalled := true)]
    ensures forall j :: 0 <= j < |s| ==>
      s[j].sem == old(s[j].sem) + if s[j].semSignalled && !old(s[j].semSignalled) then 1 else 0
  {
    ghost var was := Views(s);
    scb.semSignalled := true;
    scb.sem := scb.sem + 1;
    assert forall j :: 0 <= j < |s| && j != k ==> s[j] != scb && was[j] == s[j].View();
    assert Views(s) == was[k := was[k].(signalled := true)];
  }

  lemma NoneReady(socks: map<nat, Sock>, read: set<nat>, write: set<nat>)
    ensures ReadyReads(socks, 0, read) == {} && ReadyWrites(socks, 0, write) == {}
  {
  }

  /** Looking at one descriptor more. */
  lemma OneMoreReady(socks: map<nat, Sock>, i: nat, read: set<nat>, write: set<nat>)
    ensures i !in ReadyReads(socks, i, read) && i !in ReadyWrites(socks, i, write)
    ensures ReadyReads(socks, i + 1, read) ==
      ReadyReads(socks, i, read) + if i in read && Readable(socks, i) then {i} else {}
    ensures ReadyWrites(socks, i + 1, write) ==
      ReadyWrites(socks, i, write) + if i in write && Writable(socks, i) then {i} else {}
  {
  }

  class Sockets {
    var socks: map<nat, Sock>
    var selectCbList: SelectCb?
    ghost var list: seq<SelectCb>
    ghost var loops: map<nat, nat>

    ghost predicate Valid()
      reads this, list
    {
      Linked(selectCbList, list) && UniqueIds(Views(list))
    }

    ghost function St(): State
      reads this, list
    {
      State(socks, Views(list), loops)
    }

    /** lwip_selscan. */
    method Selscan(maxfdp1: nat, readset: set<nat>, writeset: set<nat>)
        returns (nready: nat, lreadset: set<nat>, lwriteset: set<nat>)
      ensures lreadset == ReadyReads(socks, maxfdp1, readset) && lwriteset == ReadyWrites(socks, maxfdp1, writeset)
      ensures nready == NReady(socks, maxfdp1, readset, writeset)
    {
      hide ReadyReads, ReadyWrites, Readable, Writable;
      lreadset, lwriteset, nready := {}, {}, 0;
      NoneReady(socks, readset, writeset);
      var i := 0;
      while i < maxfdp1
        invariant 0 <= i <= maxfdp1
        invariant lreadset == ReadyReads(socks, i, readset) && lwriteset == ReadyWrites(socks, i, writeset)
        invariant nready == |lreadset| + |lwriteset|
      {
        OneMoreReady(socks, i, readset, writeset);
        if i in readset && Readable(socks, i) {
          lreadset := lreadset + {i};
          nready := nready + 1;
        }
        if i in writeset && Writable(socks, i) {
          lwriteset := lwriteset + {i};
          nready := nready + 1;
        }
        i := i + 1;
      }
    }

    /** lwip_select up to the wait: scan, and unless something is ready or the caller does not
        wait, put cb on top of the list. */
    method EnterSelect(cb: SelectCb, poll: bool) returns (nready: nat)
      requires Valid() && Enabled(St(), Select(cb.id, cb.readset, cb.writeset, cb.maxfdp1, poll))
      requires cb !in list && !cb.semSignalled
      modifies this, cb
      ensures Valid() && St() == Perform(old(St()), Select(cb.id, cb.readset, cb.writeset, cb.maxfdp1, poll))
      ensures nready == NReady(socks, cb.maxfdp1, cb.readset, cb.writeset)
    {
      hide Linked, NReady;
      var lreadset, lwriteset;
      nready, lreadset, lwriteset := Selscan(cb.maxfdp1, cb.readset, cb.writeset);
      if nready == 0 && !poll {
        ghost var was := Views(list);
        forall k | 0 <= k < |list| ensures was[k].id != cb.id { assert was[k] in St().list; }
        Push(cb);
      }
    }

    method Push(cb: SelectCb)
      requires Valid() && cb !in list && forall w :: w in Views(list) ==> w.id != cb.id
      modifies `selectCbList, `list, cb`next
      ensures Valid() && Views(list) == [old(cb.View())] + old(Views(list))
    {
      ghost var was := Views(list);
      cb.next := selectCbList;
      selectCbList := cb;
      list := [cb] + list;
      assert Views(list) == [cb.View()] + was;
      Unique(cb.View(), was);
    }

    lemma Unique(w: Waiter, v: seq<Waiter>)
      requires UniqueIds(v) && forall x :: x in v ==> x.id != w.id
      ensures UniqueIds([w] + v)
    {
    }

    method TakeOff(cb: SelectCb, ghost i: nat)
      requires Linked(selectCbList, list) && i < |list| && list[i] == cb
      modifies `selectCbList, `list, list`next
      ensures Linked(selectCbList, list) && list == RemoveAt(old(list), i)
      ensures Views(list) == old(Views(list))[..i] + old(Views(list))[i+1..]
    {
      hide Linked;
      ghost var was, s := Views(list), list;
      selectCbList := Unlink(selectCbList, cb, list, i);
      list := RemoveAt(list, i);
      RemovedViews(s, was, i);
    }

    /** The end of lwip_select: take cb off the list. */
    method LeaveSelect(cb: SelectCb)
      requires Valid() && cb in list
      modifies this, list
      ensures Valid() && St() == Perform(old(St()), Leave(cb.id))
    {
      hide Linked, Views, UniqueIds, Without;
      ghost var was := Views(list);
      ghost var i :| 0 <= i < |list| && list[i] == cb;
      WithoutAt(was, i);
      TakeOff(cb, i);
    }

    /** The switch of event_callback; from here the callback is in its loop. */
    method SetEvent(thread: nat, s: nat, e: Event)
      requires Valid() && Enabled(St(), Update(thread, s, e))
      modifies `socks, `loops
      ensures Valid() && St() == Perform(old(St()), Update(thread, s, e))
    {
      var k := socks[s];
      match e {
        case RcvPlus => k := k.(rcv := IncS16(k.rcv));
        case RcvMinus => k := k.(rcv := DecS16(k.rcv));
        case SendPlus => k := k.(send := true);
        case SendMinus => k := k.(send := false);
      }
      socks := socks[s := k];
      loops := loops[thread := s];
    }

    /** The first waiter on the list that the event is for. */
    method FindWaiter(s: nat) returns (scb: SelectCb?, ghost k: nat)
      requires Valid() && s in socks
      ensures k == FirstHit(Views(list), s, socks[s]) && scb == if k < |list| then list[k] else null
      ensures scb != null ==> !scb.semSignalled
    {
      ghost var was := Views(list);
      scb, k := selectCbList, 0;
      while scb != null
        invariant 0 <= k <= |list| && scb == (if k < |list| then list[k] else null)
        invariant forall j :: 0 <= j < k ==> !Hit(was[j], s, socks[s])
        decreases |list| - k
      {
        assert list[k].View() == was[k];
        if !scb.semSignalled {
          if s in scb.readset && socks[s].rcv > 0 { break; }
          if s in scb.writeset && socks[s].send { break; }
        }
        assert list[k].next == if k + 1 < |list| then list[k+1] else null;
        scb := scb.next;
        k := k + 1;
      }
      FirstHitIs(was, s, socks[s], k);
    }

    /** One turn of the loop of event_callback: look for a waiter to signal. */
    method ScanOnce(thread: nat, s: nat) returns (more: bool)
      requires Valid() && Enabled(St(), Scan(thread)) && loops[thread] == s
      modifies `loops, list
      ensures Valid() && St() == Perform(old(St()), Scan(thread)) && more == (thread in loops) && list == old(list)
      ensures forall j :: 0 <= j < |list| ==>
        list[j].sem == old(list[j].sem) + if list[j].semSignalled && !old(list[j].semSignalled) then 1 else 0
    {
      hide Linked, Views, UniqueIds, FirstHit, Hit;
      var scb;
      ghost var k;
      scb, k := FindWaiter(s);
      if scb != null {
        Wake(scb, selectCbList, list, k);
        more := true;
      } else {
        loops := loops - {thread};
        more := false;
      }
    }

    lemma FirstHitIs(v: seq<Waiter>, s: nat, k: Sock, i: nat)
      requires i <= |v| && (forall j :: 0 <= j < i ==> !Hit(v[j], s, k)) && (i < |v| ==> Hit(v[i], s, k))
      ensures FirstHit(v, s, k) == i
    {
    }

    /** event_callback from the update on, when nobody interferes. */
    method EventCallback(thread: nat, s: nat, e: Event)
      requires Valid() && Enabled(St(), Update(thread, s, e))
      modifies `socks, `loops, list
      ensures Valid() && St() == Drain(Perform(old(St()), Update(thread, s, e)), thread)
    {
      hide Linked, Hit, Views, UniqueIds, FirstHit, Unsignalled, Drain;
      SetEvent(thread, s, e);
      ghost var end := Drain(St(), thread);
      var more := true;
      while more
        invariant Valid() && list == old(list)
        invariant more ==> Enabled(St(), Scan(thread)) && loops[thread] == s && Drain(St(), thread) == end
        invariant !more ==> St() == end
        decreases Unsignalled(St().list), more
      {
        ScanProgress(St(), thread);
        DrainStep(St(), thread);
        more := ScanOnce(thread, s);
      }
    }
  }
}
