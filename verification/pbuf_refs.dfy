/** Reference counting in src/lwip/core/pbuf.c: pbuf_free, pbuf_ref, pbuf_cat, pbuf_chain,
    pbuf_dechain on the records themselves. */
module PbufRefs {
  import opened Words
  import opened PbufTypes
  import opened PbufGraph
  import opened PbufBytes
  import opened PbufStore
  import HeapBlocks
  import Memp

  class Packets {
    var store: Store
    /** The elements each pool was carved with. */
    ghost var carved: seq<set<Memp.Elem>>
    /** The live pbufs with their links, their counts, and the references callers hold. */
    ghost var g: Graph

    ghost function Live(): set<Pbuf>
      reads this
    {
      g.next.Keys
    }

    /** The graph says what the records say. */
    ghost predicate Agrees()
      reads this, Live()`next, Live()`ref
    {
      forall p :: p in g.next ==> p in g.ref && g.next[p] == p.next && g.ref[p] == p.ref
    }

    ghost predicate Valid()
      reads this, Live()`next, Live()`ref
    {
      Stored(store, carved, Live()) && Agrees() && Inv(g)
    }

    /** After memp_init and mem_init: no pbufs yet. */
    constructor (store: Store, ghost carved: seq<set<Memp.Elem>>)
      requires Stored(store, carved, {})
      ensures Valid() && Live() == {} && this.store == store && this.carved == carved
    {
      this.store, this.carved := store, carved;
      g := Graph(map[], map[], map[]);
      new;
      assert Live() == {};
    }

    /** Within pbuf_free: p is next to lose a reference, and end is what the graph comes to. */
    ghost predicate Dropping(p: Pbuf?, end: Graph)
      reads this, Live()`next, Live()`ref
    {
      && Stored(store, carved, Live()) && Agrees()
      && (p != null ==> p in g.next) && Counted(g, p) && NoneDead(g) && Release(g, p) == end
    }

    /** Deallocation of p, whose last reference is gone. */
    method Bury(p: Pbuf, ghost end: Graph)
      requires Stored(store, carved, Live()) && p in g.next && Counted(g, p) && NoneDead(g)
      requires g.ref[p] == 1 && Release(g, p) == end
      requires forall q :: q in g.next && q != p ==> q in g.ref && g.next[q] == q.next && g.ref[q] == q.ref
      modifies `store, `g
      ensures Dropping(old(g).next[p], end) && Live() == old(Live()) - {p}
      ensures store.memSize == old(store.memSize)
      ensures Spared(old(store), store, Live()) && GaveBack(old(store), store, {p})
    {
      hide GaveBack, Spared, Inv, Counted, NoneDead, Release, Stored;
      StepKeeps(g, p);
      assert Stored(Put(store, p.home), carved, Without(g, p).next.Keys) &&
        Spared(store, Put(store, p.home), Without(g, p).next.Keys) by {
        PutStored(store, carved, Live(), p);
        PutSpared(store, carved, Live(), p);
        assert Without(g, p).next.Keys == Live() - {p};
      }
      PutGivesBack(store, carved, Live(), p);
      store := Put(store, p.home);
      g := Without(g, p);
    }

    /** One turn of the loop of pbuf_free: p loses a reference; at zero it is deallocated and
        its successor is next to lose one. */
    method DropOne(p: Pbuf, ghost end: Graph) returns (q: Pbuf?)
      requires Dropping(p, end) && p in g.next
      modifies `store, `g, p`ref
      ensures Dropping(q, end) && p.ref == old(p.ref) - 1
      ensures Live() == (if p.ref == 0 then old(Live()) - {p} else old(Live())) && (q != null ==> p.ref == 0)
      ensures |Live()| + (if p.ref == 0 then 1 else 0) == |old(Live())|
      ensures store.memSize == old(store.memSize)
      ensures p.ref > 0 ==> store == old(store)
      ensures Spared(old(store), store, Live()) && GaveBack(old(store), store, if p.ref == 0 then {p} else {})
    {
      hide GaveBack, Spared, Stored, IsChain, Counted, Release;
      SameBlocksSpared(store, store, Live());
      NoneGaveBack(store, store);
      StepKeeps(g, p);
      p.ref := p.ref - 1;
      if p.ref == 0 {
        q := p.next;
        OneLess(Live(), p);
        Bury(p, end);
      } else {
        q := null;
        g := g.(ref := g.ref[p := g.ref[p] - 1]);
      }
    }

    lemma NothingToDrop(end: Graph)
      requires Dropping(null, end)
      ensures Valid() && g == end
    {
    }

    /** In the loop of pbuf_free: dead pbufs of live0 are gone, with their places, and no other. */
    ghost predicate Fallen(st0: Store, live0: set<Pbuf>, dead: nat, count: nat)
      reads this
    {
      && Live() <= live0 && |Live()| + dead == |live0| && count == CountU8(dead)
      && store.memSize == st0.memSize && (dead == 0 ==> store == st0)
      && Spared(st0, store, Live()) && GaveBack(st0, store, live0 - Live())
    }

    lemma NoneFallen()
      ensures Fallen(store, Live(), 0, 0)
    {
      SameBlocksSpared(store, store, Live());
      NoneGaveBack(store, store);
      assert Live() - Live() == {};
    }

    static lemma FallsOn(st0: Store, st: Store, st1: Store, live0: set<Pbuf>, live: set<Pbuf>, live1: set<Pbuf>,
        gone: set<Pbuf>)
      requires live <= live0 && gone <= live && live1 == live - gone
      requires Spared(st0, st, live) && GaveBack(st0, st, live0 - live)
      requires Spared(st, st1, live1) && GaveBack(st, st1, gone)
      ensures Spared(st0, st1, live1) && GaveBack(st0, st1, live0 - live1)
    {
      hide GaveBack, Spared;
      SparedOn(st0, st, st1, live, live1);
      GaveBackOn(st0, st, st1, live0 - live, gone);
      assert live0 - live + gone == live0 - live1;
    }

    /** One turn of the loop, with its count. */
    method DropTurn(p: Pbuf, ghost end: Graph, count: nat, ghost dead: nat, ghost st0: Store, ghost live0: set<Pbuf>)
        returns (q: Pbuf?, count': nat, ghost dead': nat)
      requires Dropping(p, end) && p in g.next && Fallen(st0, live0, dead, count)
      modifies `store, `g, p`ref
      ensures Dropping(q, end) && Fallen(st0, live0, dead', count') && Live() <= old(Live())
      ensures q != null ==> Live() < old(Live())
    {
      hide GaveBack, Spared, Stored, IsChain, Counted, NoneDead, Release, Inv, Ends, Packets.Dropping, Packets.Agrees;
      ghost var st, live := store, Live();
      q := DropOne(p, end);
      FallsOn(st0, st, store, live0, live, Live(), if p.ref == 0 then {p} else {});
      count', dead' := count, dead;
      if p.ref == 0 {
        count' := IncU8(count);
        dead' := dead + 1;
      }
    }

    /** The loop of pbuf_free. count is a u8_t. */
    method Drop(p0: Pbuf, ghost end: Graph) returns (count: nat, ghost dead: nat)
      requires Dropping(p0, end)
      modifies `store, `g, Live()`ref
      ensures Valid() && g == end && Live() <= old(Live())
      ensures |Live()| + dead == |old(Live())| && count == dead % U8
      ensures (forall p :: p in old(Live()) - Live() ==> p.home.InPool?) ==> store.blocks == old(store.blocks)
      ensures store.memSize == old(store.memSize)
      ensures dead == 0 ==> store == old(store)
      ensures Spared(old(store), store, Live()) && GaveBack(old(store), store, old(Live()) - Live())
    {
      hide GaveBack, Spared, Stored, IsChain, Counted, NoneDead, Release, Inv, Ends;
      ghost var st0, live0 := store, Live();
      count, dead := 0, 0;
      NoneFallen();
      var p: Pbuf? := p0;
      while p != null
        invariant Dropping(p, end) && Fallen(st0, live0, dead, count) && Live() <= live0
        decreases Live(), p != null
      {
        p, count, dead := DropTurn(p, end, count, dead, st0, live0);
      }
      NothingToDrop(end);
      PoolOnly(st0, store, carved, live0, Live(), live0 - Live());
      CountU8Mod(dead);
    }

    /** A caller's reference is about to go. */
    ghost method Surrender(p: Pbuf)
      requires Valid() && p in g.next && g.held[p] > 0
      modifies `g
      ensures Dropping(p, Free(old(g), p)) && Live() == old(Live())
    {
      GiveUp(g, p);
      g := g.(held := g.held[p := g.held[p] - 1]);
    }

    /** pbuf_free: the caller gives up one of its references to p. */
    method FreePbuf(p: Pbuf?) returns (count: nat, ghost dead: nat)
      requires Valid()
      requires p != null ==> p in g.next && g.held[p] > 0
      modifies `store, `g, Live()`ref
      ensures Valid() && Live() <= old(Live())
      ensures g == if p == null then old(g) else Free(old(g), p)
      ensures |Live()| + dead == |old(Live())| && count == dead % U8
      ensures (forall p :: p in old(Live()) - Live() ==> p.home.InPool?) ==> store.blocks == old(store.blocks)
      ensures store.memSize == old(store.memSize)
      ensures Spared(old(store), store, Live()) && GaveBack(old(store), store, old(Live()) - Live())
    {
      if p == null { return 0, 0; }
      ghost var end := Free(g, p);
      Surrender(p);
      count, dead := Drop(p, end);
    }

    /** pbuf_ref. */
    method RefPbuf(p: Pbuf?)
      requires Valid()
      requires p != null ==> p in g.next && p.ref < U16
      modifies `g, Live()`ref
      ensures Stored(store, carved, Live()) && Agrees() && g == (if p == null then old(g) else AddRefU16(old(g), p))
      ensures p == null || old(p.ref) < U16 - 1 ==> Valid()
      ensures p != null && old(p.ref) < U16 - 1 ==> g == AddRef(old(g), p)
      ensures p != null ==> p.ref == (old(p.ref) + 1) % U16 && g.held == old(g.held)[p := old(g.held)[p] + 1]
      ensures forall q :: q in Live() && q != p ==> q.ref == old(q.ref)
    {
      if p == null { return; }
      AddRefWidth(g, p);
      p.ref := (p.ref + 1) % U16;
      g := AddRefU16(g, p);
    }

    /** pbuf_cat up to the link: walk the head chain sh, adding the tail's total to every record. */
    method AddTotals(h: Pbuf, t: Pbuf, ghost sh: seq<Pbuf>) returns (p: Pbuf)
      requires Agrees() && IsChain(g, h, sh) && h in g.next && t !in sh
      modifies Live()`totLen
      ensures p == sh[|sh|-1] && p.next == null
      ensures forall k :: 0 <= k < |sh| ==> sh[k] in g.next && sh[k].totLen == AddU16(old(sh[k].totLen), old(t.totLen))
      ensures forall q :: q in g.next && q !in sh ==> q.totLen == old(q.totLen)
    {
      ghost var i := 0;
      ChainFacts(g, h, sh);
      p := h;
      while p.next != null
        invariant 0 <= i < |sh| && p == sh[i] && p in g.next
        invariant forall k :: 0 <= k < i ==> sh[k].totLen == AddU16(old(sh[k].totLen), t.totLen)
        invariant forall k :: i <= k < |sh| ==> sh[k].totLen == old(sh[k].totLen)
        invariant forall q :: q in g.next && q !in sh ==> q.totLen == old(q.totLen)
        decreases |sh| - i
      {
        assert g.next[sh[i]] == p.next && i + 1 < |sh| && p.next == sh[i+1];
        p.totLen := AddU16(p.totLen, t.totLen);
        p := p.next;
        i := i + 1;
      }
      assert g.next[sh[i]] == p.next;
      p.totLen := AddU16(p.totLen, t.totLen);
    }

    /** The same, with what it means for the chain that results. */
    method SumTotals(h: Pbuf, t: Pbuf, ghost sh: seq<Pbuf>, ghost st: seq<Pbuf>) returns (p: Pbuf)
      requires Agrees() && IsChain(g, h, sh) && IsChain(g, t, st) && h in g.next && t !in sh
      requires forall q :: q in sh ==> q !in st
      modifies Live()`totLen
      ensures p == sh[|sh|-1] && p.next == null
      ensures forall k :: 0 <= k < |sh| ==> sh[k] in g.next && sh[k].totLen == AddU16(old(sh[k].totLen), old(t.totLen))
      ensures forall q :: q in g.next && q !in sh ==> q.totLen == old(q.totLen)
      ensures old(Totals(sh)) && old(Totals(st)) ==> (Totals(sh + st) <==> old(h.totLen + t.totLen) < U16)
    {
      ghost var was := TotLens(sh);
      p := AddTotals(h, t, sh);
      if old(Totals(sh)) && old(Totals(st)) {
        assert Added(sh, was, t.totLen) by {
          forall k | 0 <= k < |sh| ensures was[k] == sh[k].len + (if k + 1 < |sh| then was[k+1] else 0) {
            assert old(sh[k].len) == sh[k].len;
          }
        }
        assert Totals(st);
        JoinTotals(sh, was, st);
      }
    }

    /** The link from the end of a chain to t takes the place of a caller's reference. */
    method LinkTail(p: Pbuf, t: Pbuf)
      requires Valid() && p in g.next && t in g.held && g.held[t] > 0 && Inv(Cat(g, p, t))
      modifies `g, p`next
      ensures Valid() && g == Cat(old(g), p, t) && Live() == old(Live())
    {
      hide Stored, Inv;
      p.next := t;
      g := Cat(g, p, t);
      assert Live() == old(Live());
    }

    /** pbuf_cat of two packets. */
    method JoinPbuf(h: Pbuf, t: Pbuf)
      requires Valid() && Joinable(g, h, t)
      modifies `g, Live()`next, Live()`totLen
      ensures Valid() && g == Cat(old(g), LastOf(old(g), h), t) && Live() == old(Live())
      ensures var sh := ChainOf(old(g), h);
        && (forall k :: 0 <= k < |sh| ==> sh[k] in g.next && sh[k].totLen == AddU16(old(sh[k].totLen), old(t.totLen)))
        && (forall q :: q in g.next && q !in sh ==> q.totLen == old(q.totLen))
      ensures var sh, st := ChainOf(old(g), h), ChainOf(old(g), t);
        && IsChain(g, h, sh + st)
        && (old(Totals(sh)) && old(Totals(st)) ==> (Totals(sh + st) <==> old(h.totLen + t.totLen) < U16))
    {
      hide Stored, Inv, IsChain, Ends;
      ghost var sh, st := ChainOf(g, h), ChainOf(g, t);
      JoinReady(g, h, t);
      JoinedChain(g, h, t);
      var p := SumTotals(h, t, sh, st);
      ghost var s, right := sh + st, Totals(sh + st);
      LinkTail(p, t);
      assert Totals(s) == right;
    }

    /** pbuf_cat: the caller's reference to t becomes the link from the end of h's chain. The
        totals of the joined chain are right exactly when the sum fits sixteen bits. */
    method CatPbuf(h: Pbuf?, t: Pbuf?)
      requires Valid()
      requires h != null && t != null ==> Joinable(g, h, t)
      modifies `g, Live()`next, Live()`totLen
      ensures Valid() && Live() == old(Live())
      ensures g == if h == null || t == null then old(g) else Cat(old(g), LastOf(old(g), h), t)
      ensures h != null && t != null ==> var sh := ChainOf(old(g), h);
        && (forall k :: 0 <= k < |sh| ==> sh[k] in g.next && sh[k].totLen == AddU16(old(sh[k].totLen), old(t.totLen)))
        && (forall q :: q in g.next && q !in sh ==> q.totLen == old(q.totLen))
      ensures h != null && t != null ==> var sh, st := ChainOf(old(g), h), ChainOf(old(g), t);
        && IsChain(g, h, sh + st)
        && (old(Totals(sh)) && old(Totals(st)) ==> (Totals(sh + st) <==> old(h.totLen + t.totLen) < U16))
      ensures h == null || t == null ==> forall q :: q in g.next ==> q.totLen == old(q.totLen) && q.next == old(q.next)
      ensures h != null && t != null ==> g.ref == old(g.ref) && g.held == old(g.held)[t := old(g.held)[t] - 1]
    {
      hide Totals, Stored, Inv, IsChain, Ends;
      if h == null || t == null { return; }
      JoinPbuf(h, t);
    }

    /** pbuf_chain: as pbuf_cat, but the caller keeps its reference to t. */
    method ChainPbuf(h: Pbuf, t: Pbuf)
      requires Valid() && Joinable(g, h, t) && t.ref < U16 - 1
      modifies `g, Live()`next, Live()`totLen, Live()`ref
      ensures Valid() && g == AddRef(Cat(old(g), LastOf(old(g), h), t), t) && Live() == old(Live())
      ensures var sh := ChainOf(old(g), h);
        && (forall k :: 0 <= k < |sh| ==> sh[k] in g.next && sh[k].totLen == AddU16(old(sh[k].totLen), old(t.totLen)))
        && (forall q :: q in g.next && q !in sh ==> q.totLen == old(q.totLen))
      ensures var sh, st := ChainOf(old(g), h), ChainOf(old(g), t);
        && IsChain(g, h, sh + st)
        && (old(Totals(sh)) && old(Totals(st)) ==> (Totals(sh + st) <==> old(h.totLen + t.totLen) < U16))
    {
      hide Stored, Inv, IsChain, Ends;
      ghost var s := ChainOf(g, h) + ChainOf(g, t);
      CatPbuf(h, t);
      ghost var g1, right := g, Totals(s);
      RefPbuf(t);
      assert Totals(s) == right;
      ChainLive(g1, h, s);
      ChainSame(g1, g, h, s);
    }

    /** The first half of pbuf_dechain: p ends its chain, and what followed starts one. */
    method CutAfter(p: Pbuf) returns (q: Pbuf)
      requires Valid() && p in g.next && p.next != null
      modifies `g, p`next, p`totLen, p.next`totLen
      ensures Dropping(q, Dechain(old(g), p)) && Live() == old(Live())
      ensures q == old(p.next) && q != p && q.totLen == old((p.totLen - p.len) % U16) && p.totLen == p.len
    {
      Unlink(g, p);
      NoLoop(g, p);
      q := p.next;
      q.totLen := (p.totLen - p.len) % U16;
      p.next := null;
      g := g.(next := g.next[p := null]);
      p.totLen := p.len;
    }

    /** pbuf_dechain when something follows p. */
    method DropTail(p: Pbuf) returns (q: Pbuf, tailGone: nat)
      requires Valid() && p in g.next && p.next != null
      modifies `store, `g, Live()`ref, p`next, p`totLen, p.next`totLen
      ensures Valid() && g == Dechain(old(g), p) && p in g.next && Live() <= old(Live())
      ensures q == old(p.next) && (q in g.next <==> Orphans(old(g), p) == 0) && tailGone == Orphans(old(g), p) % U8
      ensures p.totLen == p.len && q.totLen == old((p.totLen - p.len) % U16)
      ensures Live() == old(Live()) ==> store == old(store)
      ensures Spared(old(store), store, Live()) && GaveBack(old(store), store, old(Live()) - Live())
    {
      hide GaveBack, Spared, Stored, Counted, NoneDead, IsChain, Orphans, Ends, Dechain, Release, Inv, Packets.Agrees,
        Packets.Valid, Packets.Dropping;
      ghost var g0 := g;
      NextAgrees(p);
      DechainCount(g, p);
      DechainSpares(g, p);
      ghost var end := Dechain(g, p);
      q := CutAfter(p);
      ghost var n, dead := Orphans(g0, p), 0;
      tailGone, dead := Drop(q, end);
      assert dead == n;
    }

    /** pbuf_dechain: cut p off from what follows it, and give up its reference to that. The
        count that tells whether the tail is gone has only eight bits: the result dangles
        exactly when a positive multiple of 256 pbufs die. */
    method DechainPbuf(p: Pbuf) returns (r: Pbuf?)
      requires Valid() && p in g.next
      modifies `store, `g, Live()`ref, p`next, Live()`totLen
      ensures Valid() && g == Dechain(old(g), p) && p in g.next
      ensures r == if old(p.next) == null || Orphans(old(g), p) % U8 != 0 then null else old(p.next)
      ensures r != null ==> (r in g.next <==> Orphans(old(g), p) == 0)
      ensures old(p.next) != null ==> p.totLen == p.len && old(p.next).totLen == old((p.totLen - p.len) % U16)
      ensures forall q :: q in old(Live()) && q != p && q != old(p.next) ==> q.totLen == old(q.totLen)
      ensures Live() == old(Live()) ==> store == old(store)
      ensures Spared(old(store), store, Live()) && GaveBack(old(store), store, old(Live()) - Live())
    {
      hide GaveBack, Spared, Stored, Counted, NoneDead, IsChain, Orphans, Ends, Release, Inv, Packets.Agrees;
      if p.next == null {
        SameBlocksSpared(store, store, Live());
        NoneGaveBack(store, store);
        assert Live() - Live() == {};
        NextAgrees(p);
        return null;
      }
      NextAgrees(p);
      var tailGone;
      r, tailGone := DropTail(p);
      if tailGone > 0 { r := null; }
    }

    /** pbuf_chain and then pbuf_dechain of a single pbuf h: t comes back, and every link,
        count and total is what it was, whatever the totals were. */
    method ChainThenDechain(h: Pbuf, t: Pbuf) returns (r: Pbuf?)
      requires Valid() && Joinable(g, h, t) && t.ref < U16 - 1
      requires h.next == null && h.totLen == h.len && t.totLen < U16
      modifies this, Live()`next, Live()`totLen, Live()`ref
      ensures Valid() && g == old(g) && store == old(store) && r == t
      ensures forall q :: q in Live() ==> q.totLen == old(q.totLen) && q.ref == old(q.ref) && q.next == old(q.next)
    {
      hide Totals, Stored, Inv, IsChain, Ends, Orphans, Dechain;
      NextAgrees(h);
      SingleChain(g, h);
      DechainUndoesChain(g, h, t);
      ChainPbuf(h, t);
      NextAgrees(h);
      DechainCount(g, h);
      r := DechainPbuf(h);
    }

    lemma NextAgrees(p: Pbuf)
      requires Valid() && p in g.next
      ensures Inv(g) && Shaped(g) && p.next == g.next[p] && (p.next != null ==> p.next in g.next)
    {
      if p.next != null { LinkLive(g, p); }
    }
  }

  /** The next fields of a chain of live pbufs. */
  lemma ChainLinked(pk: Packets, p: Pbuf, s: seq<Pbuf>)
    requires pk.Valid() && IsChain(pk.g, p, s)
    ensures Linked(s) && s != [] && s[0] == p && forall k :: 0 <= k < |s| ==> s[k] in pk.g.next
  {
    ChainFacts(pk.g, p, s);
    forall k | 0 <= k < |s| ensures s[k].next == if k + 1 < |s| then s[k+1] else null {
      assert pk.g.next[s[k]] == s[k].next;
    }
  }
}
