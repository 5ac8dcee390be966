/** pbuf_realloc of src/lwip/core/pbuf.c: shrink a chain to its first bytes. */
module PbufRealloc {
  import opened Words
  import opened PbufTypes
  import opened PbufGraph
  import opened PbufStore
  import opened PbufRefs
  import opened PbufBytes
  import HeapBlocks
  import Memp

  /** (u16_t)grow, where grow is negative. */
  function GrowU16(totLen: nat, newLen: nat): nat { (newLen - totLen) % U16 }

  /** Adding it modulo 2^16 takes exactly the difference off a total. */
  lemma GrowShrinks(tot: nat, totLen: nat, newLen: nat)
    requires newLen < totLen < U16 && totLen - newLen <= tot < U16
    ensures AddU16(tot, GrowU16(totLen, newLen)) == tot - (totLen - newLen)
  {
  }

  lemma OneShrinks(live: set<HeapBlocks.Block>, live': set<HeapBlocks.Block>, b: HeapBlocks.Block,
      c: HeapBlocks.Block, n: nat)
    requires HeapBlocks.Shrinks(n, b, c) && live' == live - {b} + {c}
    ensures HasRoom(live', b.Payload(), HeapBlocks.Request(n)) && NoRoomier(live', b.Payload(), HeapBlocks.Request(n))
    ensures forall x, m {:trigger HasRoom(live', x, m)} :: x != b.Payload() && HasRoom(live, x, m) ==>
      HasRoom(live', x, m)
  {
    assert c in live' && c.Payload() == b.Payload();
    forall x, m | x != b.Payload() && HasRoom(live, x, m) ensures HasRoom(live', x, m) {
      var d :| d in live && d.Payload() == x && d.Room() >= m;
      assert d in live';
    }
  }

  lemma RequestGrows(n: nat, m: nat)
    requires n <= m <= 65532
    ensures HeapBlocks.Request(n) <= HeapBlocks.Request(m)
  {
    hide HeapBlocks.Request;
    HeapBlocks.RequestAligned(n);
    HeapBlocks.RequestAligned(m);
  }

  /** Shrinking a block in place keeps every place, and enough room in the shrunk one. */
  lemma ReallocFits(st: Store, carved: seq<set<Memp.Elem>>, at: int, room: nat, size: nat)
    requires StoreOk(st, carved) && size <= room <= 65532 &&
      HasRoom(HeapBlocks.Live(st.blocks), at, HeapBlocks.Request(room))
    ensures var (ptr, blocks) := HeapBlocks.Realloc(st.blocks, st.memSize, HeapBlocks.At(at), size);
      && ptr == HeapBlocks.At(at) && StoreOk(st.(blocks := blocks), carved)
      && HasRoom(HeapBlocks.Live(blocks), at, HeapBlocks.Request(size))
      && NoRoomier(HeapBlocks.Live(blocks), at, HeapBlocks.Request(size))
      && (forall x, n {:trigger HasRoom(HeapBlocks.Live(blocks), x, n)} ::
            x != at && HasRoom(HeapBlocks.Live(st.blocks), x, n) ==> HasRoom(HeapBlocks.Live(blocks), x, n))
  {
    hide HeapBlocks.Request, HeapBlocks.WellFormed, HeapBlocks.Live, HeapBlocks.Shrinks, HeapBlocks.Shrink;
    var (ptr, blocks) := HeapBlocks.Realloc(st.blocks, st.memSize, HeapBlocks.At(at), size);
    var b :| b in HeapBlocks.Live(st.blocks) && b.Payload() == at && b.Room() >= HeapBlocks.Request(room);
    RequestGrows(size, room);
    HeapBlocks.RoomAligned(st.blocks, st.memSize, b) by { LiveListed(st.blocks, b); }
    HeapBlocks.EnoughRoom(b, size);
    HeapBlocks.ReallocEffect(st.blocks, st.memSize, b, size);
    HeapBlocks.PerformKeeps(st.blocks, st.memSize, HeapBlocks.ReallocCall(HeapBlocks.At(at), size));
    var c :| HeapBlocks.Shrinks(size, b, c) && HeapBlocks.Live(blocks) == HeapBlocks.Live(st.blocks) - {b} + {c};
    OneShrinks(HeapBlocks.Live(st.blocks), HeapBlocks.Live(blocks), b, c, size);
  }

  lemma LiveListed(bs: seq<HeapBlocks.Block>, b: HeapBlocks.Block)
    requires b in HeapBlocks.Live(bs)
    ensures b in bs
  {
  }

  lemma ReallocStored(st: Store, carved: seq<set<Memp.Elem>>, live: set<Pbuf>, p: Pbuf, room: nat, size: nat)
    requires Stored(st, carved, live) && p in live && p.home.InHeap? && size <= room <= 65532
    requires HasRoom(HeapBlocks.Live(st.blocks), p.home.at, HeapBlocks.Request(room))
    ensures var (ptr, blocks) := HeapBlocks.Realloc(st.blocks, st.memSize, HeapBlocks.At(p.home.at), size);
      ptr == HeapBlocks.At(p.home.at) && Stored(st.(blocks := blocks), carved, live)
      && HasRoom(HeapBlocks.Live(blocks), p.home.at, HeapBlocks.Request(size))
      && NoRoomier(HeapBlocks.Live(blocks), p.home.at, HeapBlocks.Request(size))
      && Spared(st, st.(blocks := blocks), live - {p})
  {
    hide HeapBlocks.Realloc, HeapBlocks.WellFormed, HasRoom, NoRoomier;
    var at := p.home.at;
    var st' := st.(blocks := HeapBlocks.Realloc(st.blocks, st.memSize, HeapBlocks.At(at), size).1);
    ReallocFits(st, carved, at, room, size);
    RoomEnough(HeapBlocks.Live(st'.blocks), at, HeapBlocks.Request(size));
    forall q | q in live ensures Placed(st', q.home) { assert Placed(st, q.home); }
    forall q, n | q in live - {p} && q.home.InHeap? && HasRoom(HeapBlocks.Live(st.blocks), q.home.at, n)
      ensures HasRoom(HeapBlocks.Live(st'.blocks), q.home.at, n)
    {
      assert q.home != p.home;
    }
  }

  lemma RoomEnough(live: set<HeapBlocks.Block>, at: int, n: nat)
    requires HasRoom(live, at, n)
    ensures HasRoom(live, at, 0)
  {
    var b :| b in live && b.Payload() == at && b.Room() >= n;
    assert b.Room() >= 0;
  }

  /** The loop of pbuf_realloc: step over the records that stay whole, reducing their totals. */
  method StepOver(p: Pbuf, newLen: nat, ghost s: seq<Pbuf>) returns (q: Pbuf, rem: nat, ghost k: nat)
    requires s != [] && p == s[0] && Linked(s) && Totals(s) && newLen < p.totLen < U16
    modifies s`totLen
    ensures k < |s| && q == s[k] && rem <= q.len && newLen == if k > 0 then p.totLen else rem
    ensures forall i {:trigger s[i].len} :: 0 <= i < k ==>
      s[i].totLen == s[i].len + if i + 1 < k then s[i+1].totLen else rem
  {
    ghost var total := p.totLen;
    var grow := GrowU16(p.totLen, newLen);
    rem := newLen;
    q := p;
    k := 0;
    while rem > q.len
      invariant k < |s| && q == s[k] && rem == s[k].totLen - (total - newLen) && s[k].totLen < U16
      invariant newLen == if k > 0 then p.totLen else rem
      invariant forall i {:trigger s[i].len} :: 0 <= i < k ==>
        s[i].totLen == s[i].len + if i + 1 < k then s[i+1].totLen else rem
      invariant forall i {:trigger s[i].len} :: k <= i < |s| ==>
        s[i].totLen == s[i].len + if i + 1 < |s| then s[i+1].totLen else 0
      decreases |s| - k
    {
      GrowShrinks(q.totLen, total, newLen);
      rem := rem - q.len;
      q.totLen := AddU16(q.totLen, grow);
      q := q.next;
      k := k + 1;
    }
  }

  /** The record that ends the chain from now on keeps rem bytes. */
  method Trim(pk: Packets, q: Pbuf, rem: nat)
    requires pk.Valid() && q in pk.Live() && rem <= q.len && Backed(pk.store, q)
    modifies pk`store, q`len, q`totLen
    ensures pk.Valid() && Backed(pk.store, q) && q.len == q.totLen == rem
    ensures pk.store.pools == old(pk.store.pools) && Spared(old(pk.store), pk.store, pk.Live() - {q})
    ensures q.kind == Ram && rem != old(q.len) ==> Tight(pk.store, q)
  {
    hide Inv, HeapBlocks.Realloc, HasRoom, Spared, Stored, NoRoomier;
    SameBlocksSpared(pk.store, pk.store, pk.Live() - {q});
    if q.kind == Ram && rem != q.len {
      ReallocStored(pk.store, pk.carved, pk.Live(), q, q.off + q.len, q.off + rem);
      var (ptr, blocks) := HeapBlocks.Realloc(pk.store.blocks, pk.store.memSize, HeapBlocks.At(q.home.at), q.off + rem);
      pk.store := pk.store.(blocks := blocks);
    }
    q.len := rem;
    q.totLen := q.len;
  }

  lemma {:induction false} FrontChain(g: Graph, g': Graph, p: Pbuf?, s: seq<Pbuf>, k: nat)
    requires IsChain(g, p, s) && k < |s| && g'.next == g.next[s[k] := null] && forall i :: 0 <= i < k ==> s[i] != s[k]
    ensures IsChain(g', p, s[..k+1])
  {
    if k == 0 {
      assert s[..1][1..] == [];
    } else {
      FrontChain(g, g', g.next[s[0]], s[1..], k - 1);
      assert s[..k+1][1..] == s[1..][..k];
      assert s[0] != s[k];
    }
  }

  /** Cutting a chain after record k leaves the front of it, whatever happens to the rest. */
  lemma FrontStays(g: Graph, p: Pbuf, s: seq<Pbuf>, k: nat)
    requires Inv(g) && IsChain(g, p, s) && k < |s| && s[k] in g.next
    ensures IsChain(Dechain(g, s[k]), p, s[..k+1])
  {
    ChainFacts(g, p, s);
    assert g.next[s[k]] == if k + 1 < |s| then s[k+1] else null;
    if k + 1 == |s| {
      assert s[..k+1] == s;
    } else {
      var g1 := g.(next := g.next[s[k] := null]);
      var rest := s[k+1..];
      FrontChain(g, g1, p, s, k);
      ChainRest(g, p, s, k + 1);
      ChainSame(g, g1, s[k+1], rest);
      ReleaseEffect(g1, s[k+1], rest);
      var g' := Dechain(g, s[k]);
      forall q | q in s[..k+1] ensures q in g'.next && g'.next[q] == g1.next[q] { assert q !in rest; }
      ChainSame(g1, g', p, s[..k+1]);
    }
  }

  /** The end of pbuf_realloc: what follows q loses the reference q's link was. */
  method DropRest(pk: Packets, q: Pbuf)
    requires pk.Valid() && q in pk.g.next
    modifies pk`store, pk`g, q`next, pk.Live()`ref
    ensures pk.Valid() && pk.g == Dechain(old(pk.g), q) && pk.Live() <= old(pk.Live())
    ensures Spared(old(pk.store), pk.store, pk.Live()) && GaveBack(old(pk.store), pk.store, old(pk.Live()) - pk.Live())
  {
    SameBlocksSpared(pk.store, pk.store, pk.Live());
    NoneGaveBack(pk.store, pk.store);
    assert pk.Live() - pk.Live() == {};
    if q.next != null {
      var tail: Pbuf := q.next;
      ghost var end := Dechain(pk.g, q);
      Unlink(pk.g, q);
      q.next := null;
      pk.g := pk.g.(next := pk.g.next[q := null]);
      hide *;
      var count, dead := pk.Drop(tail, end);
    }
  }

  /** The records that stay are not written to meanwhile. */
  method DropRestOf(pk: Packets, q: Pbuf, ghost t: seq<Pbuf>, ghost c: seq<seq<byte>>)
    requires pk.Valid() && q in pk.g.next && t != [] && Totals(t) && Holds(t, c)
    modifies pk`store, pk`g, q`next, pk.Live()`ref
    ensures pk.Valid() && pk.g == Dechain(old(pk.g), q) && pk.Live() <= old(pk.Live())
    ensures Spared(old(pk.store), pk.store, pk.Live()) && GaveBack(old(pk.store), pk.store, old(pk.Live()) - pk.Live())
    ensures Totals(t) && Holds(t, c)
  {
    hide Packets.Valid, Dechain, Spared, GaveBack;
    DropRest(pk, q);
  }

  /** What a chain holds after the cut: k whole records, and the first bytes of the next. */
  function Kept(c: seq<seq<byte>>, k: nat, rem: nat): seq<seq<byte>>
    requires k < |c| && rem <= |c[k]|
  {
    c[..k] + [c[k][..rem]]
  }

  lemma KeptPrefix(t: seq<Pbuf>, c: seq<seq<byte>>, k: nat, rem: nat)
    requires k < |c| && rem <= |c[k]| && |t| == k + 1 && Totals(t) && Holds(t, Kept(c, k, rem))
    ensures Concat(Kept(c, k, rem)) <= Concat(c) && |Concat(Kept(c, k, rem))| == t[0].totLen
  {
    ConcatPrefix(c, k, rem);
    TotalsSum(t, Kept(c, k, rem), 0);
    assert Kept(c, k, rem)[0..] == Kept(c, k, rem);
  }

  lemma KeptHolds(s: seq<Pbuf>, c: seq<seq<byte>>, k: nat)
    requires Carries(s, c) && k < |s| && s[k].len <= |c[k]| && forall i {:trigger c[i]} :: 0 <= i < k ==>
      s[i].len == |c[i]|
    ensures Holds(s[..k+1], Kept(c, k, s[k].len))
  {
    var t, kept := s[..k+1], Kept(c, k, s[k].len);
    forall i | 0 <= i <= k ensures |kept[i]| <= t[i].data.Length && kept[i] == t[i].data[..|kept[i]|] &&
      t[i].len == |kept[i]| {
      assert c[i] == s[i].data[..|c[i]|];
    }
  }

  lemma FrontTotals(s: seq<Pbuf>, k: nat, rem: nat)
    requires k < |s| && s[k].totLen == s[k].len == rem
    requires forall i {:trigger s[i].len} :: 0 <= i < k ==>
      s[i].totLen == s[i].len + if i + 1 < k then s[i+1].totLen else rem
    ensures Totals(s[..k+1])
  {
    var t := s[..k+1];
    forall i | 0 <= i < |t| ensures t[i].totLen == t[i].len + (if i + 1 < |t| then t[i+1].totLen else 0) {
      assert t[i] == s[i] && s[i].len == t[i].len;
      if i + 1 < |t| { assert t[i+1] == s[i+1]; }
    }
  }

  lemma AllApart(s: seq<Pbuf>, k: nat)
    requires Linked(s) && k < |s|
    ensures forall i :: 0 <= i < |s| && i != k ==> s[i] != s[k]
  {
  }

  /** pbuf_realloc up to the point where the rest of the chain is freed. */
  method Shorten(pk: Packets, p: Pbuf, newLen: nat, ghost s: seq<Pbuf>) returns (q: Pbuf, ghost k: nat)
    requires pk.Valid() && s != [] && p == s[0] && Linked(s) && Totals(s)
    requires newLen < p.totLen < U16 && forall i :: 0 <= i < |s| ==> s[i] in pk.Live() && Backed(pk.store, s[i])
    modifies pk`store, s`len, s`totLen
    ensures pk.Valid() && k < |s| && q == s[k]
    ensures Totals(s[..k+1]) && p.totLen == newLen
    ensures s[k].len <= old(s[k].len) && forall i :: 0 <= i < |s| && i != k ==> s[i].len == old(s[i].len)
    ensures Backed(pk.store, q) && Spared(old(pk.store), pk.store, pk.Live() - {q})
    ensures q.kind == Ram && q.len != old(s[k].len) ==> Tight(pk.store, q)
  {
    hide Inv, Stored, BackedFor, Spared, Packets.Valid, Totals, Linked, NoRoomier;
    var rem;
    q, rem, k := StepOver(p, newLen, s);
    assert Backed(pk.store, s[k]);
    AllApart(s, k);
    Trim(pk, q, rem);
    FrontTotals(s, k, rem);
  }

  /** The same, with the bytes that are left. */
  method ShortenBytes(pk: Packets, p: Pbuf, newLen: nat, ghost s: seq<Pbuf>, ghost c: seq<seq<byte>>)
      returns (q: Pbuf, ghost k: nat, ghost kept: seq<seq<byte>>)
    requires pk.Valid() && s != [] && p == s[0] && Linked(s) && Totals(s) && Holds(s, c)
    requires newLen < p.totLen < U16 && forall i :: 0 <= i < |s| ==> s[i] in pk.Live() && Backed(pk.store, s[i])
    modifies pk`store, s`len, s`totLen
    ensures pk.Valid() && k < |s| && q == s[k] && p.totLen == newLen
    ensures Totals(s[..k+1]) && Holds(s[..k+1], kept) && Concat(kept) <= Concat(c) && |Concat(kept)| == newLen
    ensures forall i :: 0 <= i < |s| && i != k ==> s[i].len == old(s[i].len)
    ensures Backed(pk.store, q) && Spared(old(pk.store), pk.store, pk.Live() - {q})
    ensures q.kind == Ram && q.len != old(s[k].len) ==> Tight(pk.store, q)
  {
    hide Inv, Stored, Backed, Concat, Linked, Spared, NoRoomier;
    q, k := Shorten(pk, p, newLen, s);
    KeptHolds(s, c, k);
    kept := Kept(c, k, s[k].len);
    KeptPrefix(s[..k+1], c, k, s[k].len);
  }

  /** pbuf_realloc when the chain does get shorter. */
  method CutChain(pk: Packets, p: Pbuf, newLen: nat, ghost s: seq<Pbuf>, ghost c: seq<seq<byte>>)
      returns (q: Pbuf, ghost k: nat, ghost kept: seq<seq<byte>>)
    requires pk.Valid() && s != [] && IsChain(pk.g, p, s) && newLen < p.totLen < U16
    requires Totals(s) && Holds(s, c) && forall i :: 0 <= i < |s| ==> Backed(pk.store, s[i])
    modifies pk`store, pk`g, s`len, s`totLen, s`next, pk.Live()`ref
    ensures pk.Valid() && k < |s| && q == s[k] && q in old(pk.g.next) && pk.g == Dechain(old(pk.g), q)
    ensures IsChain(pk.g, p, s[..k+1]) && p.totLen == newLen
    ensures Totals(s[..k+1]) && Holds(s[..k+1], kept) && Concat(kept) <= Concat(c) && |Concat(kept)| == newLen
    ensures forall i :: 0 <= i < |s| && i != k ==> s[i].len == old(s[i].len)
    ensures pk.Live() <= old(pk.Live()) && Spared(old(pk.store), pk.store, pk.Live() - {q}) && Backed(pk.store, q)
    ensures q.kind == Ram && q.len != old(s[k].len) ==> Tight(pk.store, q)
    ensures PlacesGone(pk.store, old(pk.Live()) - pk.Live())
  {
    hide Inv, Stored, IsChain, Concat, Totals, Holds, Linked, Dechain, Spared, BackedFor, NoRoomier,
      GaveBack, PlacesGone;
    ChainLinked(pk, p, s);
    ghost var was, live := pk.store, pk.Live();
    q, k, kept := ShortenBytes(pk, p, newLen, s, c);
    FrontStays(pk.g, p, s, k);
    ghost var mid := pk.store;
    DropRestOf(pk, q, s[..k+1], kept);
    ChainLive(pk.g, p, s[..k+1]);
    assert s[..k+1][k] == q;
    TightKept(mid, pk.store, pk.carved, live, live - pk.Live(), q);
    SparedTwice(was, mid, pk.store, live, pk.Live(), q);
  }

  lemma SparedTwice(st: Store, st1: Store, st2: Store, live: set<Pbuf>, live': set<Pbuf>, q: Pbuf)
    requires Spared(st, st1, live - {q}) && Spared(st1, st2, live') && live' <= live && Backed(st1, q) && q in live'
    ensures Spared(st, st2, live' - {q}) && Backed(st2, q)
  {
    assert Spared(st1, st2, live' - {q}) by { hide HasRoom; }
    SparedOn(st, st1, st2, live - {q}, live' - {q});
    SparedBacked(st1, st2, live', q, q.len);
  }

  /** pbuf_realloc on the chain s, which carries the bytes c. Every pbuf that is left still has
      room for its bytes, so that the chain can be shrunk again; what the last one has too much
      of goes back to the heap, and so do the blocks of pbufs that died. */
  method ReallocPbuf(pk: Packets, p: Pbuf, newLen: nat, ghost s: seq<Pbuf>, ghost c: seq<seq<byte>>)
      returns (ghost t: seq<Pbuf>, ghost kept: seq<seq<byte>>)
    requires pk.Valid() && s != [] && IsChain(pk.g, p, s) && p.totLen < U16
    requires Totals(s) && Holds(s, c) && forall i :: 0 <= i < |s| ==> Backed(pk.store, s[i])
    modifies pk`store, pk`g, s`len, s`totLen, s`next, pk.Live()`ref
    ensures pk.Valid() && Totals(t) && Holds(t, kept) && t != [] && t <= s && IsChain(pk.g, p, t)
    ensures Concat(kept) <= Concat(c) && |Concat(kept)| == if newLen < old(p.totLen) then newLen else |Concat(c)|
    ensures newLen >= old(p.totLen) ==> t == s && pk.g == old(pk.g) && pk.store == old(pk.store)
    ensures newLen < old(p.totLen) ==>
      p.totLen == newLen && t[|t|-1] in old(pk.g.next) && pk.g == Dechain(old(pk.g), t[|t|-1])
    ensures pk.Live() <= old(pk.Live()) && forall i :: 0 <= i < |t| ==> Backed(pk.store, t[i])
    ensures newLen < old(p.totLen) ==> PlacesGone(pk.store, old(pk.Live()) - pk.Live())
    ensures newLen < old(p.totLen) ==> var last := t[|t|-1];
      last.kind == Ram && last.len != old(s[|t|-1].len) ==> Tight(pk.store, last)
    ensures forall q :: q in pk.Live() && q in old(pk.Live()) && old(Backed(pk.store, q)) ==> Backed(pk.store, q)
  {
    hide Inv, Stored, IsChain, Concat, Totals, Holds, Linked, Dechain, Spared, BackedFor, Packets.Valid,
      NoRoomier, PlacesGone, Tight;
    if newLen >= p.totLen { return s, c; }
    ghost var was := pk.store;
    var last;
    ghost var k;
    last, k, kept := CutChain(pk, p, newLen, s, c);
    t := s[..k+1];
    ChainLive(pk.g, p, t);
    forall q | q in pk.Live() && q in old(pk.Live()) && old(Backed(pk.store, q)) ensures Backed(pk.store, q) {
      if q != last { SparedBacked(was, pk.store, pk.Live() - {last}, q, q.len); }
    }
    forall i | 0 <= i < |t| ensures Backed(pk.store, t[i]) { assert t[i] == s[i] && t[i] in pk.Live(); }
  }
}
