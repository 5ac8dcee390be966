/** The receiving half of src/ethernetif.c on its descriptors and buffers: low_level_init,
    low_level_input, and the DMA engine's part of the ring. */
module EthRxDriver {
  import opened Words
  import opened EthRing
  import opened EthRxSteps
  import opened PbufTypes
  import opened PbufBytes
  import opened PbufRefs
  import PbufCopy
  import PbufGraph
  import PbufStore
  import PbufAlloc

  class RxDescriptor {
    var own: bool
    var es: bool
    var ls: bool
    var fl: nat
    const buffer: array<byte>
    var next: RxDescriptor?

    constructor (buffer: array<byte>)
      ensures this.buffer == buffer
    {
      this.buffer := buffer;
    }
  }

  ghost predicate RxTable(tab: seq<RxDescriptor>) {
    && (forall i :: 0 <= i < |tab| ==> tab[i].buffer.Length == BUF_SIZE)
    && (forall i, j :: 0 <= i < j < |tab| ==> tab[i] != tab[j] && tab[i].buffer != tab[j].buffer)
  }

  ghost predicate RxShows(d: RxDescriptor, slot: RxSlot)
    reads d, d.buffer
  {
    RxSlot(d.own, d.es, d.ls, d.fl, d.buffer[..]) == slot
  }

  /** One record's share of the frame. */
  method SpreadOne(q: Pbuf, buffer: array<byte>, l: nat, ghost s: seq<Pbuf>, ghost c: seq<seq<byte>>, ghost i: nat,
      ghost from: seq<byte>, ghost to: seq<byte>)
      returns (ghost c': seq<seq<byte>>)
    requires PbufCopy.At(q, s, i, 0) && Holds(s, c) && OwnData(s) && buffer !in Data(s) && i < |c| && l == Start(c, i)
    requires l <= |to| == |from| == |Concat(c)| && |from| <= buffer.Length && from == buffer[..|from|] &&
      Concat(c) == PbufCopy.Over(from, to, l)
    modifies q.data
    ensures Holds(s, c') && i < |c'| && Start(c', i) == l && l + q.len <= |from|
    ensures |Concat(c')| == |to| && Concat(c') == PbufCopy.Over(from, to, l + q.len)
  {
    hide Concat, Patch;
    ReadAt(c, i, 0, |c[i]|);
    assert |c[i]| == q.len;
    WriteAt(c, i, 0, buffer[l..l+q.len]);
    PatchPrefix(from, to, l, q.len);
    assert from[l..l+q.len] == buffer[l..l+q.len];
    c' := PbufCopy.Store(s, c, i, q, 0, buffer, l, q.len);
    assert c'[..i] == c[..i];
  }

  /** The sizes of the records. */
  ghost function Parts(c: seq<seq<byte>>): (l: seq<nat>)
    ensures |l| == |c| && forall k :: 0 <= k < |c| ==> l[k] == |c[k]|
  {
    if c == [] then [] else Parts(c[..|c|-1]) + [|c[|c|-1]|]
  }

  lemma {:induction false} PartsTotal(c: seq<seq<byte>>, k: nat)
    requires k <= |c|
    ensures Total(Parts(c)[..k]) == Start(c, k)
    decreases k
  {
    if k == 0 {
      assert Parts(c)[..0] == [];
      StartEnds(c);
    } else {
      PartsTotal(c, k - 1);
      TotalTo(Parts(c), k - 1);
      StartStep(c, k - 1);
    }
  }

  lemma PartLens(s: seq<Pbuf>, c: seq<seq<byte>>)
    requires Holds(s, c)
    ensures |c| == |s| == |Parts(c)| && forall k :: 0 <= k < |s| ==> Parts(c)[k] == s[k].len
  {
    forall k | 0 <= k < |s| ensures Parts(c)[k] == s[k].len { assert |c[k]| == s[k].len; }
  }

  lemma OnePart(n: nat)
    ensures Total([n]) == n
  {
    assert [n][..0] == [];
  }

  lemma PartsWhole(c: seq<seq<byte>>)
    ensures Total(Parts(c)) == |Concat(c)|
  {
    PartsTotal(c, |c|);
    StartEnds(c);
    assert Parts(c)[..|c|] == Parts(c);
  }

  lemma OverWhole(from: seq<byte>, to: seq<byte>)
    requires |from| == |to|
    ensures PbufCopy.Over(from, to, |from|) == from
  {
  }

  /** pbuf_alloc for a frame of len bytes: a chain with room for exactly them, unless the pool
      has too few elements. */
  method AllocFrame(pk: Packets, len: nat) returns (p: Pbuf?, ghost s: seq<Pbuf>, ghost c: seq<seq<byte>>)
    requires pk.Valid() && len < U16
    modifies pk`store, pk`g, pk.Live()`ref
    ensures pk.Valid()
    ensures p != null <==> HasRoom(len, PbufStore.FreeCount(old(pk.store), PbufStore.MEMP_PBUF_POOL))
    ensures p == null ==> pk.g == old(pk.g)
    ensures p != null ==>
      s != [] && p == s[0] && PbufAlloc.Fresh(pk.g, old(pk.g), s) && Totals(s) && Holds(s, c) && Linked(s)
    ensures p != null ==> |Concat(c)| == len && OwnData(s) && fresh(Data(s))
  {
    hide PbufGraph.Inv, PbufGraph.IsChain, PbufStore.Stored, Linked, Holds, Totals, Concat, OwnData, PbufAlloc.Built,
      PbufAlloc.Elements;
    c := [];
    p, s := PbufAlloc.AllocPool(pk, PbufAlloc.Raw, len);
    if p != null {
      PbufAlloc.BuiltTotals(s);
      PbufAlloc.BuiltRoom(s);
      ChainLinked(pk, p, s);
      c := Contents(s);
      TotalBytes(s, c);
    }
  }

  /** What the oldest arrival looks like to the driver. */
  lemma LooksRight(r: Rx, q: seq<Arrival>)
    requires RxHolds(r, q) && AllLegal(q) && !r.slots[r.cur].own
    ensures q != [] && Legal(q[0]) && (q[0].Good? <==> !r.slots[r.cur].es && r.slots[r.cur].ls)
    ensures q[0].Good? ==> var len := |q[0].f| - CRC;
      FrameLength(r.slots[r.cur].fl) == len <= BUF_SIZE && r.slots[r.cur].data[..len] == q[0].f[..len]
  {
    CurWaits(r, q);
    var d := r.slots[r.cur];
    assert Legal(q[0]);
    if q[0].Good? {
      var f := q[0].f;
      assert d.data[..|f|][..|f|-CRC] == d.data[..|f|-CRC];
    }
  }

  /** The next n bytes of the frame. */
  lemma ReadStep(data: seq<byte>, from: seq<byte>, l: nat, n: nat)
    requires |from| <= |data| && from == data[..|from|] && l + n <= |from|
    ensures |from[..l]| == l && from[..l] + ReadOut(data, l, n) == from[..l+n]
  {
    assert ReadOut(data, l, n) == from[l..l+n];
  }

  /** What the DMA engine writes. */
  method Fill(d: RxDescriptor, a: Arrival, ghost was: RxSlot)
    requires d.buffer.Length == BUF_SIZE && Legal(a) && RxShows(d, was)
    modifies d`own, d`es, d`ls, d`fl, d.buffer
    ensures RxShows(d, Filled(was, a))
  {
    var bytes := match a case Good(f) => f case Bad(_, _, noise) => noise;
    WriteBytes(d.buffer, bytes);
    d.own, d.es, d.ls, d.fl :=
      false,
      (match a case Good(_) => false case Bad(es, _, _) => es),
      (match a case Good(_) => true case Bad(_, ls, _) => ls),
      (match a case Good(f) => |f| case Bad(_, _, _) => 0);
  }

  class RxDriver {
    const tab: seq<RxDescriptor>
    var curRxDesc: RxDescriptor
    /** The descriptor the DMA engine fills next. */
    var dmaDesc: RxDescriptor
    ghost var r: Rx
    /** Where low_level_input is. */
    ghost var at: RxPlace

    ghost function State(): RxState
      reads this
    {
      RxState(r, at)
    }

    ghost function Buffers(): set<array<byte>> { set d | d in tab :: d.buffer }

    ghost predicate Valid()
      reads this, tab, Buffers()
    {
      && RxTable(tab) && RxShape(r) && |tab| == |r.slots|
      && curRxDesc == tab[r.cur] && dmaDesc == tab[r.dma]
      && (forall i {:trigger tab[i].next} :: 0 <= i < |tab| ==> tab[i].next == tab[Next(i, |tab|)])
      && (forall i {:trigger RxShows(tab[i], r.slots[i])} :: 0 <= i < |tab| ==> RxShows(tab[i], r.slots[i]))
    }

    /** The Rx part of low_level_init. */
    constructor (tab: seq<RxDescriptor>)
      requires tab != [] && RxTable(tab)
      modifies tab
      ensures Valid() && this.tab == tab && RxHolds(r, []) && at.Idle?
    {
      this.tab := tab;
      curRxDesc, dmaDesc := tab[0], tab[0];
      r, at := Rx([], 0, 0), Idle;
      new;
      var i := 0;
      while i < |tab|
        modifies tab
        invariant 0 <= i <= |tab|
        invariant forall k {:trigger tab[k].own} :: 0 <= k < i ==> tab[k].own
        invariant forall k {:trigger tab[k].next} :: 0 <= k < i ==> tab[k].next == tab[Next(k, |tab|)]
      {
        tab[i].own := true;
        tab[i].next := if i < |tab| - 1 then tab[i+1] else tab[0];
        i := i + 1;
      }
      r := Rx(seq(|tab|, k requires 0 <= k < |tab| reads tab, Buffers() =>
        RxSlot(true, tab[k].es, tab[k].ls, tab[k].fl, tab[k].buffer[..])), 0, 0);
      forall k | 0 <= k < |tab| ensures RxShows(tab[k], r.slots[k]) { assert tab[k].own; }
    }

    /** The DMA engine's turn: a frame or segment arrives. */
    method DmaReceive(a: Arrival) returns (taken: bool)
      requires Valid() && Legal(a)
      modifies `r, `dmaDesc, dmaDesc, dmaDesc.buffer
      ensures Valid() && (taken, r) == Arrive(old(r), a)
    {
      var d := dmaDesc;
      ghost var i := r.dma;
      assert RxShows(tab[i], r.slots[i]);
      if !d.own { return false; }
      Fill(d, a, r.slots[i]);
      assert tab[i].next == tab[Next(i, |tab|)];
      dmaDesc := d.next;
      ghost var r0 := r;
      r := Arrive(r, a).1;
      forall k | 0 <= k < |tab| ensures RxShows(tab[k], r.slots[k]) {
        if k != i { assert r.slots[k] == r0.slots[k] && RxShows(tab[k], r0.slots[k]); }
      }
      taken := true;
    }

    /** The test of OWN, and if it is the driver's, of the other bits of DESC0. */
    method CheckOwn() returns (busy: bool)
      requires Valid() && RxCan(State(), TestOwn)
      modifies `at
      ensures Valid() && State() == RxDo(old(State()), TestOwn) && busy == r.slots[r.cur].own
    {
      assert RxShows(tab[r.cur], r.slots[r.cur]);
      busy := curRxDesc.own;
      at := RxDo(State(), TestOwn).at;
    }

    /** DESC0. */
    method GiveOwn()
      requires Valid() && RxCan(State(), SetOwn)
      modifies `r, `at, curRxDesc`own
      ensures Valid() && State() == RxDo(old(State()), SetOwn)
    {
      ghost var i := r.cur;
      assert RxShows(tab[i], r.slots[i]);
      curRxDesc.own := true;
      r, at := RxDo(State(), SetOwn).r, RxDo(State(), SetOwn).at;
      forall k | 0 <= k < |tab| ensures RxShows(tab[k], r.slots[k]) {
        if k != i { assert old(RxShows(tab[k], r.slots[k])); }
      }
    }

    /** CurRxDesc. */
    method MoveOn()
      requires Valid() && RxCan(State(), StepOn)
      modifies `r, `at, `curRxDesc
      ensures Valid() && State() == RxDo(old(State()), StepOn)
    {
      assert tab[r.cur].next == tab[Next(r.cur, |tab|)];
      curRxDesc := curRxDesc.next;
      r, at := r.(cur := Next(r.cur, |tab|)), Idle;
    }

    /** The end of low_level_input. */
    method GiveBack()
      requires Valid() && RxCan(State(), SetOwn) && !r.slots[r.cur].own
      modifies `r, `at, `curRxDesc, curRxDesc`own
      ensures Valid() && at.Idle? && r == Input(old(r)).1
    {
      hide Look, Total, ReadOut, HasRoom;
      GiveOwn();
      MoveOn();
    }

    /** In the copying loop: q is record i of the chain s, and the first l bytes of the frame
        from lie over those of to, which the chain c held before. */
    ghost predicate Filling(q: Pbuf?, l: nat, s: seq<Pbuf>, c: seq<seq<byte>>, i: nat, from: seq<byte>, to: seq<byte>,
        parts: seq<nat>, free: nat)
      reads this, s`len, s`next, Data(s)
    {
      && PbufCopy.At(q, s, i, 0) && Linked(s) && Holds(s, c) && OwnData(s) && Buffers() !! Data(s)
      && i <= |c| && l == Start(c, i) && l <= |to| == |from| == |Concat(c)| <= BUF_SIZE
      && Concat(c) == PbufCopy.Over(from, to, l)
      && |parts| == |s| && (forall k {:trigger s[k].len} :: 0 <= k < |s| ==> parts[k] == s[k].len)
      && at == Reading(parts, i, from[..l], free)
    }

    /** memcpy into one record. */
    method CopyOne(q: Pbuf, l: nat, ghost s: seq<Pbuf>, ghost c: seq<seq<byte>>, ghost i: nat, ghost from: seq<byte>,
        ghost to: seq<byte>, ghost parts: seq<nat>, ghost free: nat)
        returns (ghost c': seq<seq<byte>>)
      requires Valid() && Filling(q, l, s, c, i, from, to, parts, free) && |from| <= BUF_SIZE &&
        from == r.slots[r.cur].data[..|from|]
      modifies `at, q.data
      ensures Valid() && Filling(q.next, l + q.len, s, c', i + 1, from, to, parts, free) &&
        State() == RxDo(old(State()), ReadRecord)
    {
      hide Concat, Linked, OwnData, PbufCopy.Over, Start;
      assert RxShows(tab[r.cur], r.slots[r.cur]) && curRxDesc.buffer in Buffers();
      assert q.data in Data(s) && at.parts[i] == s[i].len;
      SameCount(s, c);
      ghost var data := r.slots[r.cur].data;
      assert from == curRxDesc.buffer[..|from|];
      c' := SpreadOne(q, curRxDesc.buffer, l, s, c, i, from, to);
      PbufCopy.Onward(q, s, c', i);
      ReadStep(data, from, l, q.len);
      at := RxDo(State(), ReadRecord).at;
      assert forall k {:trigger RxShows(tab[k], r.slots[k])} :: 0 <= k < |tab| ==> RxShows(tab[k], r.slots[k]);
    }

    lemma CurData()
      requires Valid()
      ensures r.cur < |r.slots| && |r.slots[r.cur].data| == BUF_SIZE
    {
    }

    lemma StartFilling(p: Pbuf, s: seq<Pbuf>, c: seq<seq<byte>>, from: seq<byte>, free: nat)
      requires PbufCopy.At(p, s, 0, 0) && Linked(s) && Holds(s, c) && OwnData(s) && Buffers() !! Data(s)
      requires |from| == |Concat(c)| <= BUF_SIZE && at == Reading(Parts(c), 0, [], free)
      ensures Filling(p, 0, s, c, 0, from, Concat(c), Parts(c), free)
    {
      hide Concat;
      StartEnds(c);
      PartLens(s, c);
      PbufCopy.OverNothing(from, Concat(c));
    }

    lemma DoneFilling(l: nat, s: seq<Pbuf>, c: seq<seq<byte>>, i: nat, from: seq<byte>, to: seq<byte>,
        parts: seq<nat>, free: nat)
      requires Filling(null, l, s, c, i, from, to, parts, free)
      ensures Holds(s, c) && Concat(c) == from && at == Reading(parts, |parts|, from, free)
    {
      hide Concat, Start;
      SameCount(s, c);
      PbufCopy.PastEnd(s, c, i);
      OverWhole(from, to);
      assert from[..|from|] == from;
    }

    /** memcpy into each record of the chain in turn. */
    method CopyFrame(p: Pbuf, ghost s: seq<Pbuf>, ghost c: seq<seq<byte>>, ghost free: nat)
        returns (ghost c': seq<seq<byte>>)
      requires Valid() && PbufCopy.At(p, s, 0, 0) && Linked(s) && Holds(s, c) && OwnData(s)
      requires |Concat(c)| <= BUF_SIZE && Buffers() !! Data(s) && at == Reading(Parts(c), 0, [], free)
      modifies `at, Data(s)
      ensures Valid() && Holds(s, c') && Concat(c') == r.slots[r.cur].data[..|Concat(c)|]
      ensures at == Reading(Parts(c), |Parts(c)|, Concat(c'), free)
    {
      hide *;
      CurData();
      ghost var from, to, i, parts := r.slots[r.cur].data[..|Concat(c)|], Concat(c), 0, Parts(c);
      var l: nat := 0;
      c' := c;
      StartFilling(p, s, c, from, free);
      var q: Pbuf? := p;
      while q != null
        invariant Valid() && Filling(q, l, s, c', i, from, to, parts, free)
        decreases |s| - i
      {
        NotPast(q, l, s, c', i, from, to, parts, free);
        c' := CopyOne(q, l, s, c', i, from, to, parts, free);
        l := l + q.len;
        q := q.next;
        i := i + 1;
      }
      DoneFilling(l, s, c', i, from, to, parts, free);
    }

    lemma NotPast(q: Pbuf, l: nat, s: seq<Pbuf>, c: seq<seq<byte>>, i: nat, from: seq<byte>, to: seq<byte>,
        parts: seq<nat>, free: nat)
      requires Filling(q, l, s, c, i, from, to, parts, free)
      ensures i < |s| && q.data in Data(s)
    {
    }

    /** pbuf_alloc, and the copy when there is a chain. */
    method FetchFrame(pk: Packets) returns (p: Pbuf?, ghost s: seq<Pbuf>, ghost c: seq<seq<byte>>)
      requires Valid() && pk.Valid() && at == Asking(FrameLength(r.slots[r.cur].fl)) && at.len <= BUF_SIZE
      modifies `at, pk`store, pk`g, pk.Live()`ref
      ensures Valid() && pk.Valid() && RxCan(State(), SetOwn)
      ensures p != null <==> HasRoom(old(at.len), PbufStore.FreeCount(old(pk.store), PbufStore.MEMP_PBUF_POOL))
      ensures p == null ==> pk.g == old(pk.g) && Chain(at) == None
      ensures p != null ==> s != [] && p == s[0] && PbufAlloc.Fresh(pk.g, old(pk.g), s) && Totals(s) && Holds(s, c)
      ensures p != null ==> Chain(at) == Some(Concat(c)) && Concat(c) == r.slots[r.cur].data[..old(at.len)]
      ensures FreeAt(at) == PbufStore.FreeCount(old(pk.store), PbufStore.MEMP_PBUF_POOL)
    {
      hide PbufGraph.Inv, PbufGraph.IsChain, PbufStore.Stored, Linked, Holds, Totals, Concat, OwnData, HasRoom,
        Parts, Total, PbufAlloc.Fresh, PbufStore.FreeCount, Packets.Agrees;
      assert RxShows(tab[r.cur], r.slots[r.cur]);
      var len := FrameLength(curRxDesc.fl);
      ghost var free := PbufStore.FreeCount(pk.store, PbufStore.MEMP_PBUF_POOL);
      p, s, c := AllocFrame(pk, len);
      if p == null {
        OnePart(len);
        at := RxDo(State(), Allocate([len], free)).at;
      } else {
        PartsWhole(c);
        at := RxDo(State(), Allocate(Parts(c), free)).at;
        c := CopyFrame(p, s, c, free);
      }
    }

    /** low_level_input. q is what waits in the ring: its oldest entry is taken out, and its
        bytes are what the new chain holds, exactly when it is a good frame and the pool has
        elements for it. Each access is one of the driver's moves. */
    method LowLevelInput(pk: Packets, ghost q: seq<Arrival>)
        returns (p: Pbuf?, ghost s: seq<Pbuf>, ghost c: seq<seq<byte>>)
      requires Valid() && at.Idle? && pk.Valid() && RxHolds(r, q) && AllLegal(q)
      modifies this, curRxDesc`own, pk`store, pk`g, pk.Live()`ref
      ensures Valid() && at.Idle? && pk.Valid() && r == Input(old(r)).1
      ensures RxHolds(r, if q == [] then [] else q[1..])
      ensures p != null <==>
        q != [] && HandedUp(q[0], PbufStore.FreeCount(old(pk.store), PbufStore.MEMP_PBUF_POOL)) != []
      ensures p != null ==> HandedUp(q[0], PbufStore.FreeCount(old(pk.store), PbufStore.MEMP_PBUF_POOL)) == [Concat(c)]
      ensures p == null ==> pk.g == old(pk.g)
      ensures p != null ==> s != [] && p == s[0] && PbufAlloc.Fresh(pk.g, old(pk.g), s) && Totals(s) && Holds(s, c)
    {
      hide Look, Concat, PbufGraph.Inv, PbufStore.Stored, PbufAlloc.Fresh, Holds, HasRoom, RxHolds, Input, Totals,
        Packets.Agrees, PbufStore.FreeCount;
      p, s, c := null, [], [];
      InputDequeues(r, q);
      CurWaits(r, q);
      var busy := CheckOwn();
      if busy { return; }
      LooksRight(r, q);
      assert RxShows(tab[r.cur], r.slots[r.cur]);
      if !curRxDesc.es && curRxDesc.ls { p, s, c := FetchFrame(pk); }
      GiveBack();
    }
  }

  method WriteBytes(dst: array<byte>, bytes: seq<byte>)
    requires |bytes| <= dst.Length
    modifies dst
    ensures dst[..] == bytes + old(dst[..])[|bytes|..]
  {
    var k := 0;
    while k < |bytes|
      invariant 0 <= k <= |bytes|
      invariant forall i :: 0 <= i < dst.Length ==> dst[i] == if i < k then bytes[i] else old(dst[i])
    {
      dst[k] := bytes[k];
      k := k + 1;
    }
  }
}
