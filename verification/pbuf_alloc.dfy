/** pbuf_alloc of src/lwip/core/pbuf.c. */
module PbufAlloc {
  import opened Words
  import opened PbufTypes
  import opened PbufGraph
  import opened PbufStore
  import opened PbufRefs
  import opened PbufBytes
  import HeapBlocks
  import Memp

  datatype Layer = Transport | Ip | Link | Raw

  const SIZEOF_PBUF: nat := 16
  const POOL_BUFSIZE: nat := 1516

  function HeaderRoom(layer: Layer): nat {
    match layer
    case Transport => 54
    case Ip => 34
    case Link => 14
    case Raw => 0
  }

  function Align(n: nat): nat { (n + 3) / 4 * 4 }

  /** Where the payload of a new pbuf is: behind its record of 16 bytes and, aligned, room for the
      headers below: 54 bytes for TCP, IP and Ethernet, 34 for two of them, 14 for one. */
  function Offset(layer: Layer): nat {
    match layer
    case Transport => 72
    case Ip => 52
    case Link => 32
    case Raw => 16
  }

  /** Aligning the payload after the header room costs the aligned header room. */
  lemma HeadRoom(layer: Layer)
    ensures Align(SIZEOF_PBUF + HeaderRoom(layer)) == SIZEOF_PBUF + Align(HeaderRoom(layer))
    ensures HeaderRoom(layer) <= Align(HeaderRoom(layer)) <= 56
    ensures Align(SIZEOF_PBUF + HeaderRoom(layer)) == Offset(layer)
  {
  }

  /** Pool elements for n more bytes. */
  function Chunks(n: nat): nat { (n + POOL_BUFSIZE - 1) / POOL_BUFSIZE }

  /** Pool elements for a packet: the first has room for the headers as well. */
  function Elements(layer: Layer, length: nat): nat {
    1 + Chunks(length - Min(length, POOL_BUFSIZE - Align(HeaderRoom(layer))))
  }

  lemma ChunkStep(n: nat)
    ensures Chunks(n) == if n == 0 then 0 else 1 + Chunks(n - Min(n, POOL_BUFSIZE))
  {
  }

  /** The bytes that n pool elements can hold. */
  function Capacity(layer: Layer, n: nat): int {
    if n == 0 then -1 else 1532 - Offset(layer) + (n - 1) * 1516
  }

  lemma ElementsExactly(layer: Layer, length: nat, n: nat)
    ensures Elements(layer, length) <= n <==> length <= Capacity(layer, n)
  {
    HeadRoom(layer);
    var first := POOL_BUFSIZE - Align(HeaderRoom(layer));
    assert first == 1532 - Offset(layer);
    if n > 0 { ChunksExactly(length - Min(length, first), n - 1); }
  }

  lemma ChunksExactly(m: nat, n: nat)
    ensures Chunks(m) <= n <==> m <= n * 1516
  {
  }

  /** A pool element with room for its bytes. */
  predicate FromPool(q: Pbuf)
    reads q`len
  {
    q.kind == Pool && q.home.InPool? && q.off + q.data.Length == SIZEOF_PBUF + POOL_BUFSIZE && q.len <= q.data.Length
  }

  /** Pool elements in each of which the total is its own length plus the total of what
      follows, and rest bytes are still to be given a place. Behind the first there is no header
      room, and each is full before there is another. */
  ghost predicate Built(s: seq<Pbuf>, rest: int)
    reads s`totLen, s`len
  {
    forall k {:trigger s[k].len} {:trigger FromPool(s[k])} :: 0 <= k < |s| ==>
      && FromPool(s[k]) && s[k].totLen == s[k].len + (if k + 1 < |s| then s[k+1].totLen else rest)
      && (k > 0 ==> s[k].off == SIZEOF_PBUF) && (k + 1 < |s| || rest > 0 ==> s[k].len == s[k].data.Length)
  }

  lemma BuiltOne(q: Pbuf, rest: nat)
    requires FromPool(q) && q.totLen == q.len + rest && (rest > 0 ==> q.len == q.data.Length)
    ensures Built([q], rest) && OwnData([q]) && Data([q]) == {q.data}
  {
  }

  lemma BuiltGrow(s: seq<Pbuf>, q: Pbuf)
    requires Built(s, q.totLen) && q.totLen > 0 && FromPool(q) && q.off == SIZEOF_PBUF
    requires q.totLen > q.len ==> q.len == q.data.Length
    ensures Built(s + [q], q.totLen - q.len)
  {
    var t, rest := s + [q], q.totLen - q.len;
    forall k | 0 <= k < |t|
      ensures FromPool(t[k]) && t[k].totLen == t[k].len + (if k + 1 < |t| then t[k+1].totLen else rest)
      ensures (k > 0 ==> t[k].off == SIZEOF_PBUF) && (k + 1 < |t| || rest > 0 ==> t[k].len == t[k].data.Length)
    {
      if k < |s| { assert t[k] == s[k] && FromPool(s[k]); }
    }
  }

  lemma BuiltPool(s: seq<Pbuf>, rest: int)
    requires Built(s, rest)
    ensures forall q :: q in s ==> q.home.InPool?
  {
    forall k | 0 <= k < |s| ensures s[k].home.InPool? { assert FromPool(s[k]); }
  }

  lemma BuiltRoom(s: seq<Pbuf>)
    requires Built(s, 0)
    ensures forall k :: 0 <= k < |s| ==> s[k].len <= s[k].data.Length
  {
    forall k | 0 <= k < |s| ensures s[k].len <= s[k].data.Length { assert FromPool(s[k]); }
  }

  /** A chain built from scratch: apart from it, the graph is as before. */
  ghost predicate Fresh(g: Graph, before: Graph, s: seq<Pbuf>) {
    && s != [] && IsChain(g, s[0], s) && Minus(g, Elems(s)) == before
    && (forall q :: q in s ==> q in g.ref && q in g.held && g.ref[q] == 1)
    && g.held[s[0]] == 1
  }

  lemma FreshAlloc(g: Graph, p: Pbuf)
    requires Inv(g) && p !in g.next
    ensures Fresh(Alloc(g, p), g, [p])
  {
    assert IsChain(Alloc(g, p), p, [p]);
    assert Elems([p]) == {p};
    assert g.next[p := null] - {p} == g.next && g.ref[p := 1] - {p} == g.ref && g.held[p := 1] - {p} == g.held;
  }

  function Grown(g: Graph, r: Pbuf, q: Pbuf): Graph { Cat(Alloc(g, q), r, q) }

  lemma GrownKeeps(g: Graph, before: Graph, s: seq<Pbuf>, q: Pbuf)
    requires Inv(g) && Fresh(g, before, s) && q !in g.next
    ensures Inv(Grown(g, s[|s|-1], q))
    ensures Fresh(Grown(g, s[|s|-1], q), before, s + [q])
  {
    var g1, r := Alloc(g, q), s[|s|-1];
    var g2 := Grown(g, r, q);
    AllocKeeps(g, q);
    ChainLive(g, s[0], s);
    LastEnds(g, s[0], s);
    ChainSame(g, g1, s[0], s);
    assert IsChain(g1, q, [q]) && IsChain(g2, q, [q]);
    CatKeeps(g1, r, q, [q]);
    LastNotBefore(g, s[0], s);
    ChainAppend(g1, g2, s[0], s, r, [q]);
    assert Elems(s + [q]) == Elems(s) + {q};
    GrownMinus(g, s, q);
  }

  lemma GrownMinus(g: Graph, s: seq<Pbuf>, q: Pbuf)
    requires s != [] && Shaped(g) && q !in g.next
    ensures Minus(Grown(g, s[|s|-1], q), Elems(s) + {q}) == Minus(g, Elems(s))
  {
    var r, dead := s[|s|-1], Elems(s) + {q};
    assert r in Elems(s);
    Forgotten(g.next, q, null, r, q, Elems(s));
    Forgotten(g.ref, q, 1, q, 1, Elems(s));
    Forgotten(g.held, q, 1, q, 0, Elems(s));
    var g2 := Grown(g, r, q);
    assert g2.ref - dead == g.ref[q := 1][q := 1] - dead;
  }

  lemma Forgotten<T>(m: map<Pbuf, T>, q: Pbuf, v: T, r: Pbuf, w: T, dead: set<Pbuf>)
    requires q !in m && (r == q || r in dead)
    ensures m[q := v][r := w] - (dead + {q}) == m - dead
  {
  }

  /** Freeing a chain built from scratch undoes all of it. */
  lemma FreeFresh(g: Graph, before: Graph, s: seq<Pbuf>)
    requires Inv(g) && Fresh(g, before, s)
    ensures s[0] in g.next && Free(g, s[0]) == before
  {
    var p := s[0];
    var g' := g.(held := g.held[p := g.held[p] - 1]);
    ChainLive(g, p, s);
    ChainSame(g, g', p, s);
    ReleaseEffect(g', p, s);
    assert DeadRun(g', s) == |s| && s[..|s|] == s;
    assert p in Elems(s) && g'.held - Elems(s) == g.held - Elems(s);
  }

  predicate SameHeap(st: Store, st': Store) { st'.blocks == st.blocks && st'.memSize == st.memSize }

  /** A new record joins the live pbufs, with one reference: the caller's. */
  method Adopt(pk: Packets, p: Pbuf, store: Store)
    requires pk.Valid() && p !in pk.Live() && Stored(store, pk.carved, pk.Live() + {p})
    requires p.next == null && p.ref == 1
    modifies pk`store, pk`g
    ensures pk.Valid() && pk.store == store && pk.g == Alloc(old(pk.g), p)
  {
    hide IsChain, HeapBlocks.WellFormed, Stored, Inv;
    AllocKeeps(pk.g, p);
    assert Alloc(pk.g, p).next.Keys == pk.Live() + {p};
    pk.store := store;
    pk.g := Alloc(pk.g, p);
  }

  /** memp_malloc of a pbuf record, and its set-up. */
  method TakePbuf(pk: Packets, pool: nat, kind: Kind, off: nat, room: nat, totLen: nat, len: nat) returns (q: Pbuf?)
    requires pk.Valid() && pool <= MEMP_PBUF_POOL
    modifies pk`store, pk`g
    ensures pk.Valid() && SameHeap(old(pk.store), pk.store)
    ensures q == null <==> FreeCount(old(pk.store), pool) == 0
    ensures FreeCount(pk.store, pool) == FreeCount(old(pk.store), pool) - if q == null then 0 else 1
    ensures q == null ==> pk.store == old(pk.store) && pk.g == old(pk.g)
    ensures q != null ==>
      fresh(q) && fresh(q.data) && pk.g == Alloc(old(pk.g), q) && q.home.InPool? && q.home.pool == pool
    ensures q != null ==> q.totLen == totLen && q.len == len && q.kind == kind && q.off == off && q.data.Length == room
  {
    var (e, pools) := Memp.Taken(pk.store.pools, pool);
    if e == null { return null; }
    var data := new byte[room];
    q := new Pbuf(kind, InPool(pool, e), off, data, totLen, len);
    assert q !in pk.Live();
    TakenStored(pk.store, pk.carved, pk.Live(), pool, q);
    Adopt(pk, q, pk.store.(pools := pools));
  }

  /** The link to one more pbuf at the end of the chain. */
  method Extend(pk: Packets, r: Pbuf, q: Pbuf, ghost before: Graph, ghost g: Graph, ghost s: seq<Pbuf>)
    requires pk.Valid() && Inv(g) && Fresh(g, before, s) && r == s[|s|-1] && q !in g.next && pk.g == Alloc(g, q)
    modifies pk`g, r`next
    ensures pk.Valid() && pk.Live() == old(pk.Live()) && Fresh(pk.g, before, s + [q])
  {
    hide Inv, IsChain, Stored;
    GrownKeeps(g, before, s, q);
    assert r in pk.Live() by { ChainLive(g, s[0], s); }
    pk.LinkTail(r, q);
  }

  /** One turn of the loop for PBUF_POOL: one more element for the rem bytes still to come. */
  method AddOne(pk: Packets, r: Pbuf, rem: nat, ghost before: Graph, ghost s: seq<Pbuf>) returns (q: Pbuf?)
    requires pk.Valid() && Fresh(pk.g, before, s) && r == s[|s|-1]
    modifies pk`store, pk`g, r`next
    ensures pk.Valid() && SameHeap(old(pk.store), pk.store)
    ensures q == null ==> pk.g == old(pk.g)
    ensures q == null <==> FreeCount(old(pk.store), MEMP_PBUF_POOL) == 0
    ensures FreeCount(pk.store, MEMP_PBUF_POOL) == FreeCount(old(pk.store), MEMP_PBUF_POOL) - if q == null then 0 else 1
    ensures old(pk.Live()) <= pk.Live() && fresh(pk.Live() - old(pk.Live()))
    ensures q != null ==> Fresh(pk.g, before, s + [q]) && q in pk.Live() - old(pk.Live())
    ensures q != null ==> q.totLen == rem && q.len == Min(rem, POOL_BUFSIZE) && FromPool(q) && fresh(q.data)
    ensures q != null ==> q.off == SIZEOF_PBUF && q.data.Length == POOL_BUFSIZE
  {
    hide Inv, IsChain, Stored, FreeCount, Fresh, Packets.Agrees;
    ghost var g := pk.g;
    q := TakePbuf(pk, MEMP_PBUF_POOL, Pool, SIZEOF_PBUF, POOL_BUFSIZE, rem, Min(rem, POOL_BUFSIZE));
    if q != null { Extend(pk, r, q, before, g, s); }
  }

  /** The loop for PBUF_POOL: give the rem bytes that did not fit in p further elements. */
  method Fill(pk: Packets, p: Pbuf, rem0: nat, ghost before: Graph)
      returns (done: bool, ghost s: seq<Pbuf>, ghost left: nat)
    requires pk.Valid() && Fresh(pk.g, before, [p]) && Built([p], rem0) && OwnData([p]) && Data([p]) == {p.data}
    modifies pk`store, pk`g, p`next
    ensures pk.Valid() && Fresh(pk.g, before, s) && SameHeap(old(pk.store), pk.store)
    ensures s[0] == p && Built(s, left) && (done ==> left == 0 && |s| == 1 + Chunks(rem0))
    ensures done <==> Chunks(rem0) <= FreeCount(old(pk.store), MEMP_PBUF_POOL)
    ensures old(pk.Live()) <= pk.Live() && fresh(pk.Live() - old(pk.Live()))
    ensures OwnData(s) && fresh(Data(s) - {p.data})
  {
    hide PbufGraph.Inv, PbufGraph.IsChain, Fresh, Built, OwnData, Data, PbufStore.Stored, Packets.Valid,
      Packets.Agrees, Chunks, FreeCount;
    var r: Pbuf, rem := p, rem0;
    s := [r];
    ghost var datas := Data(s);
    ChunkStep(rem);
    while rem > 0
      invariant 0 <= rem && s != [] && p == s[0] && r == s[|s|-1]
      invariant pk.Valid() && Fresh(pk.g, before, s) && SameHeap(old(pk.store), pk.store)
      invariant r == p || r in pk.Live() - old(pk.Live())
      invariant old(pk.Live()) <= pk.Live() && fresh(pk.Live() - old(pk.Live()))
      invariant Built(s, rem) && OwnData(s) && datas == Data(s) && fresh(datas - {p.data})
      invariant Chunks(rem) + |s| == 1 + Chunks(rem0) &&
        |s| - 1 + FreeCount(pk.store, MEMP_PBUF_POOL) == FreeCount(old(pk.store), MEMP_PBUF_POOL)
    {
      ChunkStep(rem);
      var q := AddOne(pk, r, rem, before, s);
      if q == null { return false, s, rem; }
      r := q;
      BuiltGrow(s, r);
      OwnDataGrows(s, r);
      s := s + [r];
      datas := datas + {r.data};
      rem := rem - r.len;
    }
    ChunkStep(0);
    done, left := true, 0;
  }

  /** The chain built so far is freed again. */
  method Undo(pk: Packets, p: Pbuf, ghost before: Graph, ghost s: seq<Pbuf>, ghost left: nat)
    requires pk.Valid() && Fresh(pk.g, before, s) && p == s[0] && Built(s, left)
    modifies pk`store, pk`g, pk.Live()`ref
    ensures pk.Valid() && pk.g == before && SameHeap(old(pk.store), pk.store)
  {
    FreeFresh(pk.g, before, s);
    BuiltPool(s, left);
    assert forall q :: q in pk.g.next && q !in before.next ==> q in s;
    hide PbufGraph.Inv, PbufGraph.IsChain, PbufStore.Stored, Packets.Agrees, Built, Free, Release, Spared;
    var count, dead := pk.FreePbuf(p);
  }

  /** The case PBUF_POOL: a chain of pool elements with the bytes asked for, or nothing at all. */
  method AllocPool(pk: Packets, layer: Layer, length: nat) returns (p: Pbuf?, ghost s: seq<Pbuf>)
    requires pk.Valid() && length < U16
    modifies pk`store, pk`g, pk.Live()`ref
    ensures pk.Valid() && SameHeap(old(pk.store), pk.store)
    ensures p == null ==> pk.g == old(pk.g)
    ensures p == null <==> FreeCount(old(pk.store), MEMP_PBUF_POOL) < Elements(layer, length)
    ensures p == null <==> length > Capacity(layer, FreeCount(old(pk.store), MEMP_PBUF_POOL))
    ensures p != null ==> s != [] && p == s[0] && Fresh(pk.g, old(pk.g), s) && |s| == Elements(layer, length)
    ensures p != null ==> p.off == Offset(layer) && fresh(pk.Live() - old(pk.Live()))
    ensures p != null ==> p.totLen == length && Built(s, 0) && OwnData(s) && fresh(Data(s))
  {
    hide Capacity, Fresh, Offset, GaveBack, Align, HeaderRoom, PbufGraph.Inv, PbufGraph.IsChain, PbufStore.Stored,
      Packets.Agrees, OwnData, Chunks, FreeCount, PbufStore.Spared, Built;
    HeadRoom(layer);
    ElementsExactly(layer, length, FreeCount(pk.store, MEMP_PBUF_POOL));
    var off := Align(SIZEOF_PBUF + HeaderRoom(layer));
    var len := Min(length, POOL_BUFSIZE - Align(HeaderRoom(layer)));
    s := [];
    p := TakePbuf(pk, MEMP_PBUF_POOL, Pool, off, POOL_BUFSIZE + SIZEOF_PBUF - off, length, len);
    if p == null { return; }
    FreshAlloc(old(pk.g), p);
    BuiltOne(p, length - len);
    var done;
    ghost var left;
    done, s, left := Fill(pk, p, length - len, old(pk.g));
    if !done {
      Undo(pk, p, old(pk.g), s, left);
      p := null;
    }
  }

  /** The cases PBUF_ROM and PBUF_REF: one record, no bytes of its own. */
  method AllocRecord(pk: Packets, kind: Kind, length: nat) returns (p: Pbuf?)
    requires pk.Valid() && (kind == Rom || kind == Ref)
    modifies pk`store, pk`g
    ensures pk.Valid() && SameHeap(old(pk.store), pk.store)
    ensures p == null <==> FreeCount(old(pk.store), MEMP_PBUF) == 0
    ensures p == null ==> pk.g == old(pk.g)
    ensures p != null ==> fresh(p) && pk.g == Alloc(old(pk.g), p) && p.kind == kind && p.len == p.totLen == length
    ensures p != null ==> p.home.InPool?
  {
    p := TakePbuf(pk, MEMP_PBUF, kind, 0, 0, length, length);
  }

  /** What PBUF_RAM asks of the heap: mem_malloc takes a mem_size_t of sixteen bits. */
  function RamRequest(layer: Layer, length: nat): nat {
    (Align(SIZEOF_PBUF + HeaderRoom(layer)) + Align(length)) % U16
  }

  /** mem_malloc finds no block for size bytes. */
  predicate HeapFull(st: Store, size: nat) { HeapBlocks.Malloc(st.blocks, st.memSize, size).0.Null? }

  /** The request did not wrap. */
  predicate RamFits(layer: Layer, length: nat) { Offset(layer) + length <= 65532 }

  lemma AlignSum(a: nat, n: nat)
    requires a % 4 == 0
    ensures Align(a + n) == a + Align(n) && n <= Align(n) < n + 4 && Align(n) % 4 == 0
  {
  }

  lemma Wraps(a: nat, b: nat, length: nat)
    requires 16 <= a <= 72 && a % 4 == 0 && b % 4 == 0 && length <= b < length + 4 && length < U16
    ensures (a + b) % U16 == if a + b < U16 then a + b else a + b - U16
    ensures a + b < U16 ==> a + b <= 65532
    ensures a + b >= U16 ==> a + b - U16 <= 72 && length > 60000 && a + length > 65532
  {
  }

  lemma SameRequest(n: nat, m: nat)
    requires Align(n) == m && m < U16 && m % 4 == 0
    ensures HeapBlocks.Request(m) == HeapBlocks.Request(n)
  {
  }

  lemma RamWidth(layer: Layer, length: nat)
    requires length < U16
    ensures RamFits(layer, length) ==> Offset(layer) + length <= RamRequest(layer, length) <= 65532
    ensures RamFits(layer, length) ==>
      HeapBlocks.Request(RamRequest(layer, length)) == HeapBlocks.Request(Offset(layer) + length)
    ensures !RamFits(layer, length) ==>
      RamRequest(layer, length) <= 72 && length > 60000 && Offset(layer) + length > 65532
    ensures RamRequest(layer, length) < U16
  {
    hide Align, HeapBlocks.Request;
    HeadRoom(layer);
    var a := Offset(layer);
    AlignSum(a, length);
    Wraps(a, Align(length), length);
    if RamFits(layer, length) { SameRequest(a + length, a + Align(length)); }
  }

  /** Whether there is a block for the rounded request is whether there is one for the bytes. */
  lemma RamBySize(st: Store, carved: seq<set<Memp.Elem>>, layer: Layer, length: nat)
    requires StoreOk(st, carved) && length < U16 && RamFits(layer, length)
    ensures HeapFull(st, RamRequest(layer, length)) <==>
      forall b :: b in st.blocks ==> b.used || b.Room() < Offset(layer) + length
  {
    RamWidth(layer, length);
    var n := Offset(layer) + length;
    HeapBlocks.MallocBySize(st.blocks, st.memSize, RamRequest(layer, length));
    forall b | b in st.blocks ensures b.Room() >= RamRequest(layer, length) <==> b.Room() >= n {
      HeapBlocks.RoomAligned(st.blocks, st.memSize, b);
      HeapBlocks.EnoughRoom(b, n);
      HeapBlocks.EnoughRoom(b, RamRequest(layer, length));
    }
  }

  /** The case PBUF_RAM: record, header room and bytes in one heap block. The block holds
      all of them exactly when the sixteen-bit request did not wrap; then there is none exactly
      when no free block has room for them, and it is no larger than they need. */
  method AllocRam(pk: Packets, layer: Layer, length: nat) returns (p: Pbuf?)
    requires pk.Valid() && length < U16
    modifies pk`store, pk`g
    ensures pk.Valid() && pk.store.pools == old(pk.store.pools) && pk.store.memSize == old(pk.store.memSize)
    ensures p == null <==> HeapFull(old(pk.store), RamRequest(layer, length))
    ensures RamFits(layer, length) ==>
      (p == null <==> forall b :: b in old(pk.store.blocks) ==> b.used || b.Room() < Offset(layer) + length)
    ensures p == null ==> pk.g == old(pk.g) && pk.store == old(pk.store)
    ensures p != null ==> fresh(p) && pk.g == Alloc(old(pk.g), p) && p.kind == Ram && p.len == p.totLen == length
    ensures p != null ==> p.home.InHeap? && p.off == Offset(layer) && TookBlock(old(pk.store), pk.store, p)
    ensures p != null ==>
      (HasRoom(HeapBlocks.Live(pk.store.blocks), p.home.at, p.off + length) <==> RamFits(layer, length))
    ensures p != null ==> (Backed(pk.store, p) <==> RamFits(layer, length))
    ensures p != null && RamFits(layer, length) ==> Tight(pk.store, p)
    ensures Spared(old(pk.store), pk.store, old(pk.Live()))
  {
    hide Align, HeapBlocks.Malloc, HeapBlocks.Request, IsChain, HasRoom, Spared, Tight, TookBlock;
    RamWidth(layer, length);
    HeadRoom(layer);
    if RamFits(layer, length) { RamBySize(pk.store, pk.carved, layer, length); }
    var size := RamRequest(layer, length);
    var (ptr, blocks) := HeapBlocks.Malloc(pk.store.blocks, pk.store.memSize, size);
    MallocSpared(pk.store, pk.carved, pk.Live(), size);
    if ptr.Null? {
      NullKeeps(pk.store, pk.carved, size);
      return null;
    }
    var off := Align(SIZEOF_PBUF + HeaderRoom(layer));
    RamRoom(pk.store, pk.carved, layer, length);
    var data := new byte[length];
    p := new Pbuf(Ram, InHeap(ptr.off), off, data, length, length);
    assert p !in pk.Live();
    MallocStored(pk.store, pk.carved, pk.Live(), size, p);
    MallocTakes(pk.store, pk.carved, size, p);
    Adopt(pk, p, pk.store.(blocks := blocks));
  }

  /** What the block found has room for. */
  lemma RamRoom(st: Store, carved: seq<set<Memp.Elem>>, layer: Layer, length: nat)
    requires StoreOk(st, carved) && length < U16 && !HeapFull(st, RamRequest(layer, length))
    ensures var (ptr, blocks) := HeapBlocks.Malloc(st.blocks, st.memSize, RamRequest(layer, length));
      && (HasRoom(HeapBlocks.Live(blocks), ptr.off, Offset(layer) + length) <==> RamFits(layer, length))
      && (RamFits(layer, length) ==>
        HasRoom(HeapBlocks.Live(blocks), ptr.off, HeapBlocks.Request(Offset(layer) + length)))
  {
    hide Align, HeapBlocks.Malloc, HasRoom, HeapBlocks.Request;
    RamWidth(layer, length);
    var size := RamRequest(layer, length);
    HeapBlocks.RequestAligned(size);
    MallocFits(st, carved, size, Offset(layer) + length);
    MallocFits(st, carved, size, HeapBlocks.Request(size));
  }

  lemma BuiltTotals(s: seq<Pbuf>)
    requires Built(s, 0)
    ensures Totals(s)
  {
  }

  /** There is nothing to allocate from: the free pool elements cannot hold so many bytes, no free
      block can, or no record is left. A request for PBUF_RAM that wraps asks for less. */
  ghost predicate Exhausted(st: Store, layer: Layer, length: nat, kind: Kind) {
    match kind
    case Pool => length > Capacity(layer, FreeCount(st, MEMP_PBUF_POOL))
    case Ram =>
      if RamFits(layer, length) then forall b :: b in st.blocks ==> b.used || b.Room() < Offset(layer) + length
      else HeapFull(st, RamRequest(layer, length))
    case Rom => FreeCount(st, MEMP_PBUF) == 0
    case Ref => FreeCount(st, MEMP_PBUF) == 0
  }

  /** pbuf_alloc: when there is nothing to allocate from, and only then, nothing changes; else
      the caller gets the one reference to a chain of new pbufs whose totals count down from
      length, with the room for headers the layer asks for before the first, each with room for
      its bytes, unless the request for PBUF_RAM wrapped. */
  method Allocate(pk: Packets, layer: Layer, length: nat, kind: Kind) returns (p: Pbuf?, ghost s: seq<Pbuf>)
    requires pk.Valid() && length < U16
    modifies pk`store, pk`g, pk.Live()`ref
    ensures pk.Valid() && Spared(old(pk.store), pk.store, old(pk.Live())) && pk.store.memSize == old(pk.store.memSize)
    ensures p == null <==> Exhausted(old(pk.store), layer, length, kind)
    ensures p == null ==> pk.g == old(pk.g) && SameHeap(old(pk.store), pk.store)
    ensures p == null ==> SameSets(old(pk.store.pools), pk.store.pools)
    ensures p != null ==> s != [] && p == s[0] && Fresh(pk.g, old(pk.g), s) && Totals(s)
    ensures p != null ==> p.totLen == length && p.kind == kind && fresh(pk.Live() - old(pk.Live()))
    ensures p != null && (kind == Pool || kind == Ram) ==> p.off == Offset(layer)
    ensures p != null && kind == Pool ==> Built(s, 0)
    ensures p != null ==> ((forall q :: q in s ==> Backed(pk.store, q)) <==> (kind == Ram ==> RamFits(layer, length)))
    ensures p != null ==> if kind == Ram then s == [p] && TookBlock(old(pk.store), pk.store, p)
      else SameHeap(old(pk.store), pk.store) && forall q :: q in s ==> q.home.InPool?
  {
    hide Inv, IsChain, Stored, Fresh, Align, Spared, Built, FreeCount, HeapFull, HasRoom, RamFits, Elements, Capacity,
      TookBlock, Tight, GaveBack;
    s := [];
    SameBlocksSpared(pk.store, pk.store, pk.Live());
    ghost var st, live := pk.store, pk.Live();
    match kind {
      case Pool =>
        p, s := AllocPool(pk, layer, length);
        SameBlocksSpared(st, pk.store, live);
        if p != null { BuiltWell(s, pk.store); }
      case Ram =>
        p := AllocRam(pk, layer, length);
      case Rom =>
        p := AllocRecord(pk, kind, length);
        SameBlocksSpared(st, pk.store, live);
      case Ref =>
        p := AllocRecord(pk, kind, length);
        SameBlocksSpared(st, pk.store, live);
    }
    if p != null && kind != Pool {
      var q: Pbuf := p;
      s := [q];
      FreshAlloc(old(pk.g), q);
    }
    if p == null { SameLive(old(pk.store), pk.store, pk.carved, pk.Live()); }
  }

  /** pbuf_alloc of any kind, and pbuf_free of what it returned: the graph, the heap and the free
      elements are as before. */
  method AllocThenFree(pk: Packets, layer: Layer, length: nat, kind: Kind)
    requires pk.Valid() && length < U16
    modifies pk`store, pk`g, pk.Live()`ref
    ensures pk.Valid() && pk.g == old(pk.g) && SameHeap(old(pk.store), pk.store)
    ensures SameSets(old(pk.store.pools), pk.store.pools)
  {
    hide Inv, IsChain, Stored, Align, Spared, Built, FreeCount, HeapFull, HasRoom, RamFits, Exhausted,
      TookBlock, Tight, GaveBack, Fresh, Free, Packets.Agrees;
    ghost var st, g := pk.store, pk.g;
    var p;
    ghost var s;
    p, s := Allocate(pk, layer, length, kind);
    if p != null {
      ghost var mid, live := pk.store, pk.Live();
      FreshFreed(pk.g, g, s);
      var count, dead := pk.FreePbuf(p);
      assert live - pk.Live() == PbufGraph.Elems(s);
      if kind == Ram {
        assert PbufGraph.Elems([p as Pbuf]) == {p};
        TookGaveBack(st, mid, pk.store, pk.carved, p) by { StoredOk(pk.carved, st, g.next.Keys, pk.store, pk.Live()); }
      }
    }
    SameLive(st, pk.store, pk.carved, pk.Live());
  }

  lemma StoredOk(carved: seq<set<Memp.Elem>>, st: Store, live: set<Pbuf>, st': Store, live': set<Pbuf>)
    requires Stored(st, carved, live) && Stored(st', carved, live')
    ensures StoreOk(st, carved) && StoreOk(st', carved)
  {
  }

  lemma FreshFreed(g: Graph, before: Graph, s: seq<Pbuf>)
    requires Inv(g) && Fresh(g, before, s)
    ensures s != [] && s[0] in g.next && s[0] in g.held && g.held[s[0]] > 0 && Free(g, s[0]) == before
    ensures g.next.Keys - before.next.Keys == PbufGraph.Elems(s)
  {
    FreeFresh(g, before, s);
    ChainLive(g, s[0], s);
  }

  lemma BuiltWell(s: seq<Pbuf>, st: Store)
    requires Built(s, 0) && s != []
    ensures Totals(s) && s[0].kind == Pool && forall q :: q in s ==> Backed(st, q) && q.home.InPool?
  {
    forall k | 0 <= k < |s| ensures FromPool(s[k]) {}
  }
}
