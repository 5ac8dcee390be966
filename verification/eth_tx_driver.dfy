/** The transmitting half of src/ethernetif.c on its descriptors and buffers: low_level_init,
    low_level_output, and the DMA engine's part of the ring. */
module EthTxDriver {
  import opened Words
  import opened Errors
  import opened EthRing
  import opened EthTxSteps
  import opened PbufTypes
  import opened PbufBytes
  import PbufCopy

  /** A descriptor word by word: the OWN bit of DESC0, DESC1, DESC2 and DESC3. */
  class TxDescriptor {
    var own: bool
    var size: nat
    const buffer: array<byte>
    var next: TxDescriptor?

    constructor (buffer: array<byte>)
      ensures this.buffer == buffer
    {
      this.buffer := buffer;
    }
  }

  /** The descriptors of a ring, each with a buffer of its own. */
  ghost predicate TxTable(tab: seq<TxDescriptor>) {
    && (forall i :: 0 <= i < |tab| ==> tab[i].buffer.Length == BUF_SIZE)
    && (forall i, j :: 0 <= i < j < |tab| ==> tab[i] != tab[j] && tab[i].buffer != tab[j].buffer)
  }

  ghost predicate TxShows(d: TxDescriptor, slot: TxSlot)
    reads d, d.buffer
  {
    d.own == slot.own && d.size == slot.len && d.buffer[..] == slot.data
  }

  /** The state after n bytes of the frame f were copied into the current buffer. */
  function CopiedTo(t: Tx, f: Frame, n: nat): Tx
    requires TxShape(t) && n <= |f| && n <= BUF_SIZE
  {
    t.(slots := t.slots[t.cur := t.slots[t.cur].(data := PbufCopy.Over(f, t.slots[t.cur].data, n))])
  }

  lemma CopyMore(t: Tx, c: seq<seq<byte>>, i: nat)
    requires TxShape(t) && i < |c| && Start(c, i) <= BUF_SIZE && Start(c, i) <= |Concat(c)|
    ensures Start(c, i) <= Start(c, i + 1) <= |Concat(c)| && Start(c, i + 1) == Start(c, i) + |c[i]|
    ensures var st := TxState(CopiedTo(t, Concat(c), Start(c, i)), Copying(c, i));
      TxDo(st, CopyRecord) ==
        if Start(c, i + 1) > BUF_SIZE then st.(at := PastBuffer(c))
        else TxState(CopiedTo(t, Concat(c), Start(c, i + 1)), Copying(c, i + 1))
  {
    hide Concat, Start, Patch;
    RecordOver(c, t.slots[t.cur].data, i);
  }

  lemma RecordOver(c: seq<seq<byte>>, data: seq<byte>, i: nat)
    requires i < |c| && Start(c, i) <= |data|
    ensures Start(c, i + 1) == Start(c, i) + |c[i]| <= |Concat(c)|
    ensures Start(c, i + 1) <= |data| ==>
      Patch(PbufCopy.Over(Concat(c), data, Start(c, i)), Start(c, i), c[i]) ==
        PbufCopy.Over(Concat(c), data, Start(c, i + 1))
  {
    hide Concat, Start;
    StartStep(c, i);
    ReadAt(c, i, 0, |c[i]|);
    assert c[i][0..|c[i]|] == c[i];
    if Start(c, i + 1) <= |data| { PatchPrefix(Concat(c), data, Start(c, i), |c[i]|); }
  }

  lemma CopyNone(t: Tx, c: seq<seq<byte>>)
    requires TxShape(t)
    ensures Start(c, 0) == 0 && Start(c, |c|) == |Concat(c)| && CopiedTo(t, Concat(c), 0) == t
  {
    StartEnds(c);
    PbufCopy.OverNothing(Concat(c), t.slots[t.cur].data);
  }

  lemma Checked(t: Tx, c: seq<seq<byte>>)
    requires TxShape(t)
    ensures TxDo(TxState(t, Idle), TestOwn(c)) == TxState(t, if t.slots[t.cur].own then Idle else Copying(c, 0))
    ensures t.slots[t.cur].own ==> Output(t, Concat(c)) == Returned(ERR_USE, t)
    ensures !t.slots[t.cur].own && |Concat(c)| > BUF_SIZE ==> Output(t, Concat(c)) == Overran
  {
  }

  /** The accesses after the copy, with nothing between them, finish what Output does. */
  lemma CopyAll(t: Tx, f: Frame)
    requires TxShape(t) && |f| <= BUF_SIZE && !t.slots[t.cur].own
    ensures var d := CopiedTo(t, f, |f|).slots[t.cur].(len := |f| % TBS1, own := true);
      Returned(ERR_OK, Tx(t.slots[t.cur := d], Next(t.cur, |t.slots|), t.dma)) == Output(t, f)
  {
    assert f[..|f|] == f;
  }

  class TxDriver {
    const tab: seq<TxDescriptor>
    var curTxDesc: TxDescriptor
    /** The descriptor the DMA engine polls. */
    var dmaDesc: TxDescriptor
    ghost var t: Tx
    /** Where low_level_output is. */
    ghost var at: TxPlace

    ghost function State(): TxState
      reads this
    {
      TxState(t, at)
    }

    ghost function Buffers(): set<array<byte>> { set d | d in tab :: d.buffer }

    ghost predicate Valid()
      reads this, tab, Buffers()
    {
      && TxTable(tab) && TxShape(t) && |tab| == |t.slots|
      && curTxDesc == tab[t.cur] && dmaDesc == tab[t.dma]
      && (forall i {:trigger tab[i].next} :: 0 <= i < |tab| ==> tab[i].next == tab[Next(i, |tab|)])
      && (forall i {:trigger TxShows(tab[i], t.slots[i])} :: 0 <= i < |tab| ==> TxShows(tab[i], t.slots[i]))
    }

    /** The Tx part of low_level_init. */
    constructor (tab: seq<TxDescriptor>)
      requires tab != [] && TxTable(tab)
      modifies tab
      ensures Valid() && this.tab == tab && TxHolds(t, []) && at.Idle?
    {
      this.tab := tab;
      curTxDesc, dmaDesc := tab[0], tab[0];
      t, at := Tx([], 0, 0), Idle;
      new;
      var i := 0;
      while i < |tab|
        modifies tab
        invariant 0 <= i <= |tab|
        invariant forall k {:trigger tab[k].own} :: 0 <= k < i ==> !tab[k].own
        invariant forall k {:trigger tab[k].next} :: 0 <= k < i ==> tab[k].next == tab[Next(k, |tab|)]
      {
        tab[i].own := false;
        tab[i].next := if i < |tab| - 1 then tab[i+1] else tab[0];
        i := i + 1;
      }
      t := Tx(seq(|tab|, k requires 0 <= k < |tab| reads tab, Buffers() =>
        TxSlot(false, tab[k].size, tab[k].buffer[..])), 0, 0);
      forall k | 0 <= k < |tab| ensures TxShows(tab[k], t.slots[k]) { assert !tab[k].own; }
    }

    /** Is the current descriptor the DMA engine's? */
    method CheckOwn(ghost c: seq<seq<byte>>) returns (busy: bool)
      requires Valid() && TxCan(State(), TestOwn(c))
      modifies `at
      ensures Valid() && State() == TxDo(old(State()), TestOwn(c)) && busy == t.slots[t.cur].own
    {
      assert TxShows(tab[t.cur], t.slots[t.cur]);
      busy := curTxDesc.own;
      at := TxDo(State(), TestOwn(c)).at;
    }

    /** The ghost state follows the current descriptor, the only one written to. */
    ghost method Follow(m: TxMove, was: TxState)
      requires TxTable(tab) && TxShape(t) && |tab| == |t.slots| && was == State() && TxCan(was, m) && !m.StepOn?
      requires curTxDesc == tab[t.cur] && dmaDesc == tab[t.dma]
      requires forall i {:trigger tab[i].next} :: 0 <= i < |tab| ==> tab[i].next == tab[Next(i, |tab|)]
      requires forall i {:trigger TxShows(tab[i], t.slots[i])} :: 0 <= i < |tab| && i != t.cur ==>
        TxShows(tab[i], t.slots[i])
      requires TxShows(curTxDesc, TxDo(was, m).t.slots[t.cur])
      modifies `t, `at
      ensures Valid() && State() == TxDo(was, m)
    {
      hide Concat, Patch;
      t, at := TxDo(was, m).t, TxDo(was, m).at;
    }

    /** memcpy of one record; within tells whether it stays within the buffer. */
    method CopyOne(q: Pbuf, framelength: nat, ghost s: seq<Pbuf>, ghost c: seq<seq<byte>>, ghost i: nat)
        returns (within: bool)
      requires Valid() && PbufCopy.At(q, s, i, 0) && Holds(s, c) && i < |c| && Buffers() !! Data(s)
      requires at == Copying(c, i) && framelength == Start(c, i)
      modifies `t, `at, curTxDesc.buffer
      ensures Valid() && State() == TxDo(old(State()), CopyRecord) && Holds(s, c)
      ensures within <==> framelength + q.len <= BUF_SIZE
    {
      hide Concat;
      assert |c[i]| == q.len && |t.slots[t.cur].data| == BUF_SIZE;
      within := framelength + q.len <= curTxDesc.buffer.Length;
      if !within {
        at := PastBuffer(c);
        return;
      }
      ghost var was := State();
      assert TxShows(tab[t.cur], t.slots[t.cur]);
      ReadAt(c, i, 0, |c[i]|);
      assert c[i] == q.data[..q.len] && q.data[0..q.len] == q.data[..q.len];
      assert curTxDesc.buffer in Buffers();
      PbufCopy.Memcpy(curTxDesc.buffer, framelength, q.data, 0, q.len);
      assert forall k {:trigger TxShows(tab[k], t.slots[k])} :: 0 <= k < |tab| && k != t.cur ==>
        TxShows(tab[k], t.slots[k]);
      Follow(CopyRecord, was);
    }

    /** DESC1. */
    method PutSize(framelength: nat)
      requires Valid() && TxCan(State(), WriteSize) && framelength == |Concat(at.c)|
      modifies `t, `at, curTxDesc`size
      ensures Valid() && State() == TxDo(old(State()), WriteSize)
    {
      ghost var was := State();
      assert TxShows(tab[t.cur], t.slots[t.cur]);
      curTxDesc.size := framelength % TBS1;
      Follow(WriteSize, was);
    }

    /** DESC0. */
    method GiveOwn()
      requires Valid() && TxCan(State(), SetOwn)
      modifies `t, `at, curTxDesc`own
      ensures Valid() && State() == TxDo(old(State()), SetOwn)
    {
      ghost var was := State();
      assert TxShows(tab[t.cur], t.slots[t.cur]);
      curTxDesc.own := true;
      Follow(SetOwn, was);
    }

    /** CurTxDesc. */
    method MoveOn()
      requires Valid() && TxCan(State(), StepOn)
      modifies `t, `at, `curTxDesc
      ensures Valid() && State() == TxDo(old(State()), StepOn)
    {
      assert tab[t.cur].next == tab[Next(t.cur, |tab|)];
      curTxDesc := curTxDesc.next;
      t, at := t.(cur := Next(t.cur, |tab|)), Idle;
    }

    /** low_level_output of the packet p, whose chain is s and whose bytes are those of c: each
        access is one of the driver's moves, and all of them together do what Output says. There
        is no result when it writes past its buffer. */
    method LowLevelOutput(p: Pbuf?, ghost s: seq<Pbuf>, ghost c: seq<seq<byte>>) returns (r: Option<int>)
      requires Valid() && at.Idle? && PbufCopy.At(p, s, 0, 0) && Linked(s) && Holds(s, c)
      requires Buffers() !! Data(s)
      modifies this, curTxDesc, curTxDesc.buffer
      ensures Valid() && (r.Some? ==> at.Idle?)
      ensures Output(old(t), Concat(c)) == if r.Some? then Returned(r.value, t) else Overran
    {
      hide Holds, Linked, Concat, CopiedTo, TxDo, Start, Output, TxDriver.Valid, Data;
      ghost var t0, i := t, 0;
      var busy := CheckOwn(c);
      Checked(t0, c);
      if busy { return Some(ERR_USE); }
      CopyNone(t0, c);
      SameCount(s, c);
      var q, framelength := p, 0;
      while q != null
        modifies `t, `at, curTxDesc.buffer
        invariant Valid() && PbufCopy.At(q, s, i, 0) && Linked(s) && Holds(s, c) && i <= |c|
        invariant framelength == Start(c, i) <= |Concat(c)| && framelength <= BUF_SIZE &&
          State() == TxState(CopiedTo(t0, Concat(c), framelength), Copying(c, i))
        decreases |s| - i
      {
        CopyMore(t0, c, i);
        PbufCopy.Onward(q, s, c, i);
        var within := CopyOne(q, framelength, s, c, i);
        if !within { return None; }
        framelength := framelength + q.len;
        q := q.next;
        i := i + 1;
      }
      Finish(t0, c, framelength);
      r := Some(ERR_OK);
    }

    /** The accesses after the copy. */
    method Finish(ghost t0: Tx, ghost c: seq<seq<byte>>, framelength: nat)
      requires Valid() && TxShape(t0) && !t0.slots[t0.cur].own && framelength == |Concat(c)| <= BUF_SIZE
      requires State() == TxState(CopiedTo(t0, Concat(c), framelength), Copying(c, |c|))
      modifies `t, `at, `curTxDesc, curTxDesc
      ensures Valid() && at.Idle? && Output(t0, Concat(c)) == Returned(ERR_OK, t)
    {
      CopyAll(t0, Concat(c));
      PutSize(framelength);
      GiveOwn();
      MoveOn();
    }

    /** The DMA engine's turn. */
    method DmaTransmit() returns (sent: Option<Frame>)
      requires Valid()
      modifies `t, `dmaDesc, dmaDesc`own
      ensures Valid() && (sent, t) == Transmit(old(t))
    {
      var d := dmaDesc;
      ghost var i := t.dma;
      assert TxShows(tab[i], t.slots[i]);
      if !d.own { return None; }
      sent := Some(if d.size <= d.buffer.Length then d.buffer[..d.size] else d.buffer[..]);
      assert d.size <= d.buffer.Length ==> d.buffer[..d.size] == t.slots[i].data[..d.size];
      d.own := false;
      assert tab[i].next == tab[Next(i, |tab|)];
      dmaDesc := d.next;
      t := Transmit(t).1;
      forall k | 0 <= k < |tab| ensures TxShows(tab[k], t.slots[k]) {
        if k != i { assert old(TxShows(tab[k], t.slots[k])); }
      }
    }
  }
}
