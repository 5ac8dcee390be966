/** Where pbufs are stored: two of the memp pools and the heap, by value. */
module PbufStore {
  import opened Words
  import opened HeapBlocks
  import opened PbufTypes
  import Memp

  const MEMP_PBUF: nat := 0
  const MEMP_PBUF_POOL: nat := 1

  datatype Store = Store(pools: Memp.Lists, memSize: nat, blocks: seq<Block>)

  /** A live block at offset at with room for n bytes. */
  ghost predicate HasRoom(live: set<Block>, at: int, n: int) {
    exists b :: b in live && b.Payload() == at && b.Room() >= n
  }

  /** q has room for n bytes: a Ram pbuf in its block. */
  ghost predicate BackedFor(st: Store, q: Pbuf, n: nat) {
    && (q.kind == Ram <==> q.home.InHeap?)
    && (q.home.InHeap? ==> q.off + n <= 65532 && HasRoom(Live(st.blocks), q.home.at, Request(q.off + n)))
  }

  /** A Ram pbuf has its block to itself, with room for everything up to its last byte. */
  ghost predicate Backed(st: Store, q: Pbuf)
    reads q`len
  {
    BackedFor(st, q, q.len)
  }

  /** The live block at offset at has no more room than n bytes need. */
  ghost predicate NoRoomier(live: set<Block>, at: int, n: int) {
    exists b :: b in live && b.Payload() == at && b.Room() < n + HDR + MIN_SIZE
  }

  /** A Ram pbuf's block is no larger than its bytes need. */
  ghost predicate Tight(st: Store, q: Pbuf)
    reads q`len
  {
    q.home.InHeap? && NoRoomier(Live(st.blocks), q.home.at, Request(q.off + q.len))
  }

  /** A place in a pool is handed out by that pool; one in the heap is a live block. */
  ghost predicate Placed(st: Store, h: Home) {
    match h
    case InPool(i, e) => i <= MEMP_PBUF_POOL && i < |st.pools.out| && e in st.pools.out[i]
    case InHeap(at) => HasRoom(Live(st.blocks), at, 0)
  }

  ghost predicate StoreOk(st: Store, carved: seq<set<Memp.Elem>>) {
    Memp.Sound(st.pools, carved) && |carved| > MEMP_PBUF_POOL && ValidSize(st.memSize) &&
      WellFormed(st.blocks, st.memSize)
  }

  ghost predicate Houses(h: Home, live: set<Pbuf>) { exists p :: p in live && p.home == h }

  /** The number of free elements of a pool. */
  function FreeCount(st: Store, pool: nat): nat {
    if Memp.HasPool(st.pools, pool) then |st.pools.free[pool]| else 0
  }

  /** Every live pbuf has a place of its own, and the two pools hand out places to nobody else. */
  ghost predicate Stored(st: Store, carved: seq<set<Memp.Elem>>, live: set<Pbuf>) {
    && StoreOk(st, carved)
    && (forall p {:trigger Placed(st, p.home)} :: p in live ==> Placed(st, p.home))
    && (forall p, q :: p in live && q in live && p.home == q.home ==> p == q)
    && (forall i, e {:trigger Houses(InPool(i, e), live)} :: 0 <= i <= MEMP_PBUF_POOL && e in st.pools.out[i] ==>
      Houses(InPool(i, e), live))
  }

  /** memp_free or mem_free of a pbuf's place. */
  function Put(st: Store, h: Home): Store
    requires h.InPool? ==> Memp.HasPool(st.pools, h.pool)
  {
    match h
    case InPool(pool, e) => st.(pools := Memp.Given(st.pools, pool, e))
    case InHeap(at) => st.(blocks := Free(st.blocks, st.memSize, At(at)))
  }

  /** Giving back p's place leaves the others theirs. */
  lemma PutStored(st: Store, carved: seq<set<Memp.Elem>>, live: set<Pbuf>, p: Pbuf)
    requires Stored(st, carved, live) && p in live
    ensures p.home.InPool? ==> Memp.HasPool(st.pools, p.home.pool)
    ensures Stored(Put(st, p.home), carved, live - {p})
  {
    assert Placed(st, p.home);
    PutOk(st, carved, p.home);
    var st' := Put(st, p.home);
    forall q | q in live - {p} ensures Placed(st', q.home) {
      assert Placed(st, q.home);
      if q.home.InHeap? { PutSpares(st, carved, p.home, q.home.at, 0); }
    }
    forall i, e | 0 <= i <= MEMP_PBUF_POOL && e in st'.pools.out[i] ensures Houses(InPool(i, e), live - {p}) {
      assert Houses(InPool(i, e), live);
      var q :| q in live && q.home == InPool(i, e);
      assert q in live - {p};
    }
  }

  lemma PutOk(st: Store, carved: seq<set<Memp.Elem>>, h: Home)
    requires StoreOk(st, carved) && Placed(st, h)
    ensures StoreOk(Put(st, h), carved)
  {
    match h
    case InPool(pool, e) => Memp.GivenSound(st.pools, carved, pool, e);
    case InHeap(at) =>
      var b :| b in Live(st.blocks) && b.Payload() == at && b.Room() >= 0;
      PerformKeeps(st.blocks, st.memSize, FreeCall(At(at)));
  }

  /** Every other block stays, with the room it had. */
  lemma PutSpares(st: Store, carved: seq<set<Memp.Elem>>, h: Home, at: int, n: int)
    requires StoreOk(st, carved) && Placed(st, h) && h != InHeap(at) && HasRoom(Live(st.blocks), at, n)
    ensures HasRoom(Live(Put(st, h).blocks), at, n)
  {
    if h.InHeap? {
      var b :| b in Live(st.blocks) && b.Payload() == h.at;
      FreeLive(st.blocks, st.memSize, b);
      var c :| c in Live(st.blocks) && c.Payload() == at && c.Room() >= n;
      assert c in Live(Put(st, h).blocks);
    }
  }

  /** The pbufs of live have in st' the room they had in st. */
  ghost predicate Spared(st: Store, st': Store, live: set<Pbuf>) {
    forall q, n {:trigger HasRoom(Live(st'.blocks), q.home.at, n)} :: q in live && q.home.InHeap? ==>
      HasRoom(Live(st.blocks), q.home.at, n) ==> HasRoom(Live(st'.blocks), q.home.at, n)
  }

  lemma SparedOn(st: Store, st1: Store, st2: Store, live: set<Pbuf>, live': set<Pbuf>)
    requires Spared(st, st1, live) && Spared(st1, st2, live') && live' <= live
    ensures Spared(st, st2, live')
  {
    forall q, n | q in live' && q.home.InHeap? && HasRoom(Live(st.blocks), q.home.at, n)
      ensures HasRoom(Live(st2.blocks), q.home.at, n)
    {
      assert HasRoom(Live(st1.blocks), q.home.at, n);
    }
  }

  /** Who has the room it had is backed if it was. */
  lemma SparedBacked(st: Store, st': Store, live: set<Pbuf>, q: Pbuf, n: nat)
    requires Spared(st, st', live) && q in live && BackedFor(st, q, n)
    ensures BackedFor(st', q, n)
  {
  }

  lemma SameBlocksSpared(st: Store, st': Store, live: set<Pbuf>)
    requires st'.blocks == st.blocks
    ensures Spared(st, st', live)
  {
  }

  /** Giving back p's place leaves the others the room they had. */
  lemma PutSpared(st: Store, carved: seq<set<Memp.Elem>>, live: set<Pbuf>, p: Pbuf)
    requires Stored(st, carved, live) && p in live
    ensures p.home.InPool? ==> Memp.HasPool(st.pools, p.home.pool)
    ensures Spared(st, Put(st, p.home), live - {p})
  {
    hide HasRoom, Put, StoreOk;
    assert Placed(st, p.home);
    PutStored(st, carved, live, p);
    forall q, n | q in live - {p} && q.home.InHeap? && HasRoom(Live(st.blocks), q.home.at, n)
      ensures HasRoom(Live(Put(st, p.home).blocks), q.home.at, n)
    {
      PutSpares(st, carved, p.home, q.home.at, n);
    }
  }

  /** Of the heap's live blocks, exactly those are gone in st' that pbufs of dead were stored in. */
  ghost predicate GaveBack(st: Store, st': Store, dead: set<Pbuf>) {
    Live(st'.blocks) == set b | b in Live(st.blocks) && !Houses(InHeap(b.Payload()), dead)
  }

  /** mem_free of a Ram pbuf's block, and of no other. */
  lemma PutGivesBack(st: Store, carved: seq<set<Memp.Elem>>, live: set<Pbuf>, p: Pbuf)
    requires Stored(st, carved, live) && p in live
    ensures p.home.InPool? ==> Memp.HasPool(st.pools, p.home.pool)
    ensures GaveBack(st, Put(st, p.home), {p})
  {
    assert Placed(st, p.home);
    assert p in {p};
    if p.home.InHeap? {
      var b :| b in Live(st.blocks) && b.Payload() == p.home.at && b.Room() >= 0;
      FreeLive(st.blocks, st.memSize, b);
      forall c | c in Live(st.blocks) ensures Houses(InHeap(c.Payload()), {p}) <==> c == b {
        if c != b { LiveDisjoint(st.blocks, st.memSize, b, c); }
      }
    }
  }

  lemma GaveBackOn(st: Store, st1: Store, st2: Store, dead: set<Pbuf>, dead': set<Pbuf>)
    requires GaveBack(st, st1, dead) && GaveBack(st1, st2, dead')
    ensures GaveBack(st, st2, dead + dead')
  {
    forall h: Home ensures Houses(h, dead + dead') <==> Houses(h, dead) || Houses(h, dead') {
      if Houses(h, dead) {
        var p :| p in dead && p.home == h;
        assert p in dead + dead';
      }
      if Houses(h, dead') {
        var p :| p in dead' && p.home == h;
        assert p in dead + dead';
      }
    }
  }

  /** When no dead pbuf was stored in the heap, the heap is as it was. */
  lemma PoolOnly(st: Store, st': Store, carved: seq<set<Memp.Elem>>, live: set<Pbuf>, live': set<Pbuf>, dead: set<Pbuf>)
    requires Stored(st, carved, live) && Stored(st', carved, live') && st'.memSize == st.memSize
    requires GaveBack(st, st', dead)
    ensures (forall p :: p in dead ==> p.home.InPool?) ==> st'.blocks == st.blocks
  {
    if forall p :: p in dead ==> p.home.InPool? {
      assert Live(st'.blocks) == Live(st.blocks);
      LiveDetermines(st.blocks, st'.blocks, st.memSize);
    }
  }

  /** The places of the dead are nobody's. */
  ghost predicate PlacesGone(st: Store, dead: set<Pbuf>) {
    forall b :: b in Live(st.blocks) ==> !Houses(InHeap(b.Payload()), dead)
  }

  /** A block stays as large as it was when others are given back. */
  lemma TightKept(st: Store, st': Store, carved: seq<set<Memp.Elem>>, live: set<Pbuf>, dead: set<Pbuf>, q: Pbuf)
    requires Stored(st, carved, live) && dead <= live && q in live && q !in dead && GaveBack(st, st', dead)
    ensures Tight(st, q) ==> Tight(st', q)
    ensures PlacesGone(st', dead)
  {
    if Tight(st, q) {
      var b :| b in Live(st.blocks) && b.Payload() == q.home.at && b.Room() < Request(q.off + q.len) + HDR + MIN_SIZE;
      assert !Houses(q.home, dead);
      assert b in Live(st'.blocks);
    }
  }

  lemma NoneGaveBack(st: Store, st': Store)
    requires st'.blocks == st.blocks
    ensures GaveBack(st, st', {})
  {
  }

  /** A place taken from pool is the new pbuf's own. */
  lemma TakenStored(st: Store, carved: seq<set<Memp.Elem>>, live: set<Pbuf>, pool: nat, p: Pbuf)
    requires Stored(st, carved, live) && pool <= MEMP_PBUF_POOL && p !in live
    requires Memp.Taken(st.pools, pool).0 != null && p.home == InPool(pool, Memp.Taken(st.pools, pool).0)
    ensures Stored(st.(pools := Memp.Taken(st.pools, pool).1), carved, live + {p})
  {
    var st' := st.(pools := Memp.Taken(st.pools, pool).1);
    Memp.TakenSound(st.pools, carved, pool);
    forall q | q in live + {p} ensures Placed(st', q.home) { assert q in live ==> Placed(st, q.home); }
    forall q | q in live ensures q.home != p.home { assert Placed(st, q.home); }
    forall i, e | 0 <= i <= MEMP_PBUF_POOL && e in st'.pools.out[i] ensures Houses(InPool(i, e), live + {p}) {
      if InPool(i, e) == p.home { assert p in live + {p}; }
      else {
        assert Houses(InPool(i, e), live);
        var q :| q in live && q.home == InPool(i, e);
        assert q in live + {p};
      }
    }
  }

  /** The live pbufs determine which elements of the two pools are free. */
  lemma SameFree(st: Store, st': Store, carved: seq<set<Memp.Elem>>, live: set<Pbuf>, i: nat)
    requires Stored(st, carved, live) && Stored(st', carved, live) && i <= MEMP_PBUF_POOL
    ensures st'.pools.out[i] == st.pools.out[i]
    ensures Memp.Elems(st'.pools.free[i]) == Memp.Elems(st.pools.free[i])
  {
    assert Memp.Conserves(st.pools, carved, i) && Memp.Conserves(st'.pools, carved, i);
    OutWithin(st, st', carved, live, i);
    OutWithin(st', st, carved, live, i);
    assert Memp.Elems(st.pools.free[i]) == carved[i] - st.pools.out[i];
  }

  /** The same elements are free and handed out, whatever the order of the free lists. */
  ghost predicate SameSets(l: Memp.Lists, l': Memp.Lists) {
    forall i {:trigger Memp.HasPool(l, i)} :: 0 <= i <= MEMP_PBUF_POOL && Memp.HasPool(l, i) && Memp.HasPool(l', i) ==>
      l'.out[i] == l.out[i] && Memp.Elems(l'.free[i]) == Memp.Elems(l.free[i])
  }

  lemma SameLive(st: Store, st': Store, carved: seq<set<Memp.Elem>>, live: set<Pbuf>)
    requires Stored(st, carved, live) && Stored(st', carved, live)
    ensures SameSets(st.pools, st'.pools)
  {
    SameFree(st, st', carved, live, MEMP_PBUF);
    SameFree(st, st', carved, live, MEMP_PBUF_POOL);
  }

  lemma OutWithin(st: Store, st': Store, carved: seq<set<Memp.Elem>>, live: set<Pbuf>, i: nat)
    requires Stored(st, carved, live) && Stored(st', carved, live) && i <= MEMP_PBUF_POOL
    ensures st.pools.out[i] <= st'.pools.out[i]
  {
    forall e | e in st.pools.out[i] ensures e in st'.pools.out[i] {
      assert Houses(InPool(i, e), live);
      var p :| p in live && p.home == InPool(i, e);
      assert Placed(st', p.home);
    }
  }

  /** mem_malloc returns a place nobody has, and leaves every other block as it was. */
  lemma MallocSpares(st: Store, carved: seq<set<Memp.Elem>>, size: nat, at: int, n: int)
    requires StoreOk(st, carved) && size < U16 && Malloc(st.blocks, st.memSize, size).0.At? &&
      HasRoom(Live(st.blocks), at, n)
    ensures var (ptr, bs') := Malloc(st.blocks, st.memSize, size); at != ptr.off && HasRoom(Live(bs'), at, n)
  {
    var (ptr, bs') := Malloc(st.blocks, st.memSize, size);
    MallocSound(st.blocks, st.memSize, size);
    var b :| HandsOut(st.blocks, st.memSize, size, ptr, b) && Live(bs') == Live(st.blocks) + {b};
    var c :| c in Live(st.blocks) && c.Payload() == at && c.Room() >= n;
    assert c in Live(bs');
  }

  lemma MallocSpared(st: Store, carved: seq<set<Memp.Elem>>, live: set<Pbuf>, size: nat)
    requires StoreOk(st, carved) && size < U16
    ensures Spared(st, st.(blocks := Malloc(st.blocks, st.memSize, size).1), live)
  {
    hide Malloc, HasRoom, StoreOk;
    var (ptr, bs') := Malloc(st.blocks, st.memSize, size);
    if ptr.Null? {
      NullKeeps(st, carved, size);
    } else {
      forall q, n | q in live && q.home.InHeap? && HasRoom(Live(st.blocks), q.home.at, n)
        ensures HasRoom(Live(bs'), q.home.at, n)
      {
        MallocSpares(st, carved, size, q.home.at, n);
      }
    }
  }

  lemma NullKeeps(st: Store, carved: seq<set<Memp.Elem>>, size: nat)
    requires StoreOk(st, carved) && size < U16 && Malloc(st.blocks, st.memSize, size).0.Null?
    ensures Malloc(st.blocks, st.memSize, size).1 == st.blocks
  {
    MallocSound(st.blocks, st.memSize, size);
  }

  /** A block handed out for size bytes has room for them, and for few more. */
  lemma MallocFits(st: Store, carved: seq<set<Memp.Elem>>, size: nat, n: nat)
    requires StoreOk(st, carved) && size < U16 && Malloc(st.blocks, st.memSize, size).0.At?
    ensures var (ptr, bs') := Malloc(st.blocks, st.memSize, size);
      && StoreOk(st.(blocks := bs'), carved) && HasRoom(Live(bs'), ptr.off, 0)
      && (n <= Request(size) ==> HasRoom(Live(bs'), ptr.off, n)) && (HasRoom(Live(bs'), ptr.off, n) ==> n < size + 36)
  {
    var (ptr, bs') := Malloc(st.blocks, st.memSize, size);
    RequestAligned(size);
    PerformKeeps(st.blocks, st.memSize, MallocCall(size));
    MallocSound(st.blocks, st.memSize, size);
    var b :| HandsOut(st.blocks, st.memSize, size, ptr, b) && Live(bs') == Live(st.blocks) + {b};
    assert b in Live(bs');
  }

  /** One more heap block is live in st': p's. */
  ghost predicate TookBlock(st: Store, st': Store, p: Pbuf) {
    exists b :: b !in Live(st.blocks) && Live(st'.blocks) == Live(st.blocks) + {b} && p.home == InHeap(b.Payload())
      && forall c :: c in Live(st.blocks) ==> c.Payload() != b.Payload()
  }

  lemma MallocTakes(st: Store, carved: seq<set<Memp.Elem>>, size: nat, p: Pbuf)
    requires StoreOk(st, carved) && size < U16 && Malloc(st.blocks, st.memSize, size).0.At?
    requires p.home == InHeap(Malloc(st.blocks, st.memSize, size).0.off)
    ensures var st' := st.(blocks := Malloc(st.blocks, st.memSize, size).1);
      TookBlock(st, st', p) && (Request(p.off + p.len) == Request(size) ==> Tight(st', p))
  {
    hide Malloc, Request, WellFormed;
    var (ptr, bs') := Malloc(st.blocks, st.memSize, size);
    MallocSound(st.blocks, st.memSize, size);
    var b :| HandsOut(st.blocks, st.memSize, size, ptr, b) && Live(bs') == Live(st.blocks) + {b};
    assert b in Live(bs') && b.next > b.start;
    forall c | c in Live(st.blocks) ensures c.Payload() != b.Payload() { LiveHasRoom(st, carved, c); }
  }

  lemma LiveHasRoom(st: Store, carved: seq<set<Memp.Elem>>, c: Block)
    requires StoreOk(st, carved) && c in Live(st.blocks)
    ensures c.start < c.next
  {
    RoomAligned(st.blocks, st.memSize, c);
  }

  /** Taking a block and giving it back leaves the heap as it was. */
  lemma TookGaveBack(st: Store, st1: Store, st2: Store, carved: seq<set<Memp.Elem>>, p: Pbuf)
    requires StoreOk(st, carved) && StoreOk(st2, carved) && st2.memSize == st.memSize
    requires TookBlock(st, st1, p) && GaveBack(st1, st2, {p})
    ensures st2.blocks == st.blocks
  {
    var b :| b !in Live(st.blocks) && Live(st1.blocks) == Live(st.blocks) + {b} && p.home == InHeap(b.Payload())
      && forall c :: c in Live(st.blocks) ==> c.Payload() != b.Payload();
    assert p in {p};
    forall c | c in Live(st1.blocks) ensures Houses(InHeap(c.Payload()), {p}) <==> c == b {}
    assert Live(st2.blocks) == Live(st.blocks);
    LiveDetermines(st.blocks, st2.blocks, st.memSize);
  }

  /** A block from the heap is the new pbuf's own. */
  lemma MallocStored(st: Store, carved: seq<set<Memp.Elem>>, live: set<Pbuf>, size: nat, p: Pbuf)
    requires Stored(st, carved, live) && size < U16 && p !in live
    requires Malloc(st.blocks, st.memSize, size).0.At? && p.home == InHeap(Malloc(st.blocks, st.memSize, size).0.off)
    ensures Stored(st.(blocks := Malloc(st.blocks, st.memSize, size).1), carved, live + {p})
  {
    hide Malloc, WellFormed, HasRoom;
    var st' := st.(blocks := Malloc(st.blocks, st.memSize, size).1);
    MallocFits(st, carved, size, 0);
    forall q | q in live ensures q.home != p.home && Placed(st', q.home) {
      assert Placed(st, q.home);
      if q.home.InHeap? { MallocSpares(st, carved, size, q.home.at, 0); }
    }
    assert Placed(st', p.home);
    forall i, e | 0 <= i <= MEMP_PBUF_POOL && e in st'.pools.out[i] ensures Houses(InPool(i, e), live + {p}) {
      assert Houses(InPool(i, e), live);
      var q :| q in live && q.home == InPool(i, e);
      assert q in live + {p};
    }
  }
}
