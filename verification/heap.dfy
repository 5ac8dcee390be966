/** The allocator of src/lwip/core/mem.c on the bytes of its heap. */
module HeapMemory {
  import opened Words
  import opened HeapBlocks
  import opened HeapBytes

  lemma LowestIndex(bs: seq<Block>, memSize: nat, lf: int) returns (i: nat)
    requires Tiles(bs, memSize) && IsLowestFree(bs, memSize, lf)
    ensures i <= |bs| && (forall j :: 0 <= j < i ==> bs[j].used)
    ensures if i == |bs| then lf == memSize else !bs[i].used && lf == bs[i].start < memSize
  {
    if forall k :: 0 <= k < |bs| ==> bs[k].used {
      i := |bs|;
      assert lf == memSize;
    } else {
      i :| 0 <= i < |bs| && bs[i].start == lf && !bs[i].used && forall j :: 0 <= j < i ==> bs[j].used;
      Ordered(bs, memSize);
    }
  }

  /** A free block at index i or before stays the lowest when blocks are joined from i on. */
  lemma JoinLowest(bs: seq<Block>, memSize: nat, lf: int, i: nat, mid: seq<Block>)
    requires Tiles(bs, memSize) && IsLowestFree(bs, memSize, lf) && i + 2 <= |bs| && !bs[i].used
    requires |mid| == 1 && !mid[0].used && mid[0].start == bs[i].start
    ensures IsLowestFree(Splice(bs, i, i + 2, mid), memSize, lf)
    ensures lf <= bs[i].start
  {
    var k := LowestIndex(bs, memSize, lf);
    var r := Splice(bs, i, i + 2, mid);
    assert k <= i;
    if k < i { OrderedPair(bs, memSize, k, i); }
    assert r[k].start == lf && !r[k].used && forall j :: 0 <= j < k ==> r[j] == bs[j];
  }

  lemma LowestBelow(bs: seq<Block>, memSize: nat, lf: int, i: nat)
    requires Tiles(bs, memSize) && IsLowestFree(bs, memSize, lf) && i < |bs| && !bs[i].used
    ensures lf <= bs[i].start
  {
    var k := LowestIndex(bs, memSize, lf);
    if k < i { OrderedPair(bs, memSize, k, i); }
  }

  /** Writing the used flag of block i. */
  lemma FlagBytes(m: seq<byte>, bs: seq<Block>, memSize: nat, i: nat, v: bool)
    requires ValidSize(memSize) && Tiles(bs, memSize) && Spells(m, bs, memSize)
    requires i < |bs| && bs[i].start + HDR <= |m|
    ensures var (m', r) := (PutUsed(m, bs[i].start, v), Splice(bs, i, i + 1, [bs[i].(used := v)]));
      && Tiles(r, memSize) && Spells(m', r, memSize)
      && (forall k :: InPayload(Live(r), k) && 0 <= k < |m| ==> m'[k] == m[k])
  {
    var b := bs[i].(used := v);
    var m' := PutUsed(m, bs[i].start, v);
    BlockAt(m, bs, memSize, i);
    assert Header(m', b, PrevOf([b], 0, PrevOf(bs, i, 0)));
    assert i + 1 < |bs| ==> Header(m, bs[i+1], PrevOf(bs, i + 1, 0));
    SpliceTiles(bs, memSize, i, i + 1, [b]);
    SpliceSpells(m, m', bs, memSize, i, i + 1, [b]);
    LiveOne([b]);
    SplicePayload(m, m', bs, memSize, i, i + 1, [b]);
  }

  lemma LowestFreed(bs: seq<Block>, memSize: nat, i: nat, lf: int)
    requires Tiles(bs, memSize) && IsLowestFree(bs, memSize, lf) && i < |bs| && bs[i].used
    ensures IsLowestFree(bs[i := bs[i].(used := false)], memSize, if bs[i].start < lf then bs[i].start else lf)
  {
    var r := bs[i := bs[i].(used := false)];
    var k := LowestIndex(bs, memSize, lf);
    Ordered(bs, memSize);
    if i < k {
      assert r[i].start < lf && forall j :: 0 <= j < i ==> r[j].used;
    } else {
      assert r[k].start == lf && !r[k].used && forall j :: 0 <= j < k ==> r[j].used;
    }
  }

  /** m' is m after the writes that end block ptr at ptr2 and put a free block from there to next. */
  ghost predicate CutWrites(m: seq<byte>, m': seq<byte>, memSize: nat, ptr: nat, ptr2: nat, next: nat) {
    && |m'| == |m| && ptr + HDR <= |m| && ptr2 + HDR <= |m| && next + HDR <= |m|
    && Next(m', ptr) == ptr2 && Used(m', ptr) && Prev(m', ptr) == Prev(m, ptr)
    && Next(m', ptr2) == next && !Used(m', ptr2) && Prev(m', ptr2) == ptr
    && (next != memSize ==> Prev(m', next) == ptr2)
    && (forall k :: 0 <= k < |m| && !CutTouches(ptr, ptr2, next, k) ==> m'[k] == m[k])
  }

  predicate CutTouches(ptr: nat, ptr2: nat, next: nat, k: int) {
    ptr <= k < ptr + HDR || ptr2 <= k < ptr2 + HDR || next + 2 <= k < next + 4
  }

  lemma CutCovers(b: Block, n: nat, next: nat)
    requires b.start % ALIGNMENT == 0 && n >= MIN_SIZE && n % ALIGNMENT == 0
    requires b.start + HDR + n + HDR + MIN_SIZE <= next
    ensures Covers(Cut(b, n, next), b.start, next)
  {
  }

  lemma CutSpells(m: seq<byte>, m': seq<byte>, bs: seq<Block>, memSize: nat, i: nat, j: nat, n: nat)
    requires ValidSize(memSize) && Tiles(bs, memSize) && Spells(m, bs, memSize) && i < j <= |bs|
    requires n >= MIN_SIZE && n % ALIGNMENT == 0 && bs[i].start + HDR + n + HDR + MIN_SIZE <= bs[j-1].next
    requires CutWrites(m, m', memSize, bs[i].start, bs[i].start + HDR + n, bs[j-1].next)
    ensures Spells(m', Splice(bs, i, j, Cut(bs[i], n, bs[j-1].next)), memSize)
  {
    var mid := Cut(bs[i], n, bs[j-1].next);
    assert SpellsFrom(m', mid, PrevOf(bs, i, 0)) by {
      assert Header(m, bs[i], PrevOf(bs, i, 0));
      assert Header(m', mid[0], PrevOf(mid, 0, PrevOf(bs, i, 0)));
      assert Header(m', mid[1], PrevOf(mid, 1, PrevOf(bs, i, 0)));
    }
    BlockAt(m, bs, memSize, j - 1);
    assert j < |bs| ==> Prev(m', bs[j].start) == mid[1].start;
    assert OnlyBetween(m, m', bs[i].start, bs[j-1].next);
    CutCovers(bs[i], n, bs[j-1].next);
    SpliceSpells(m, m', bs, memSize, i, j, mid);
  }

  lemma CutPayload(m: seq<byte>, m': seq<byte>, bs: seq<Block>, memSize: nat, i: nat, j: nat, n: nat)
    requires ValidSize(memSize) && Tiles(bs, memSize) && memSize <= |m| && i < j <= |bs|
    requires bs[i].start + HDR + n + HDR + MIN_SIZE <= bs[j-1].next
    requires CutWrites(m, m', memSize, bs[i].start, bs[i].start + HDR + n, bs[j-1].next)
    ensures forall k :: InPayload(Live(Splice(bs, i, j, Cut(bs[i], n, bs[j-1].next))), k) && 0 <= k < |m| ==>
      m'[k] == m[k]
  {
    var mid := Cut(bs[i], n, bs[j-1].next);
    LiveTwo(mid);
    SplicePayload(m, m', bs, memSize, i, j, mid);
  }

  lemma LowestSlide(bs: seq<Block>, memSize: nat, i: nat, n: nat, lf: int)
    requires Tiles(bs, memSize) && IsLowestFree(bs, memSize, lf) && i + 1 < |bs| && bs[i].used && !bs[i+1].used
    ensures IsLowestFree(Slide(bs, i, n), memSize, if lf == bs[i+1].start then bs[i].start + HDR + n else lf)
  {
    var k := LowestIndex(bs, memSize, lf);
    var r := Slide(bs, i, n);
    if k == i + 1 {
      assert r[i+1].start == bs[i].start + HDR + n && forall j :: 0 <= j <= i ==> r[j].used;
    } else {
      assert k < i;
      OrderedPair(bs, memSize, k, i + 1);
      assert r[k] == bs[k] && forall j :: 0 <= j < k ==> r[j] == bs[j];
    }
  }

  lemma LowestSplit(bs: seq<Block>, memSize: nat, i: nat, n: nat, lf: int)
    requires Tiles(bs, memSize) && IsLowestFree(bs, memSize, lf) && i < |bs| && bs[i].used
    requires bs[i].start + HDR + n < bs[i].next
    ensures var cut := bs[i].start + HDR + n;
      IsLowestFree(Split(bs, i, n), memSize, if cut < lf then cut else lf)
  {
    var k := LowestIndex(bs, memSize, lf);
    var r := Split(bs, i, n);
    Ordered(bs, memSize);
    if i < k {
      assert r[i+1].start == bs[i].start + HDR + n && forall j :: 0 <= j <= i ==> r[j].used;
    } else {
      assert k < i && r[k] == bs[k] && forall j :: 0 <= j < k ==> r[j] == bs[j];
    }
  }

  /** Taking a free block above the lowest one leaves lfree right; taking the lowest itself
      leaves only used blocks below it. */
  lemma LowestTaken(bs: seq<Block>, memSize: nat, i: nat, n: nat, low: nat)
    requires Tiles(bs, memSize) && i < |bs| && low <= i && !bs[low].used && forall j :: 0 <= j < low ==> bs[j].used
    ensures var r := Take(bs, i, n);
      && |r| > i && r[i].start == bs[i].start && (forall j :: 0 <= j < i ==> r[j] == bs[j])
      && (bs[i].start == bs[low].start ==> i == low)
      && (i > low ==> IsLowestFree(r, memSize, bs[low].start))
  {
    var r := Take(bs, i, n);
    assert forall j :: 0 <= j < i ==> r[j] == bs[j];
    if i > low {
      OrderedPair(bs, memSize, low, i);
      assert r[low].start == bs[low].start && !r[low].used && forall j :: 0 <= j < low ==> r[j].used;
    }
  }

  /** No block that starts within n bytes of the end can hold n bytes. */
  lemma NoFitAbove(bs: seq<Block>, memSize: nat, i: nat, n: nat)
    requires Tiles(bs, memSize) && i <= |bs| && (i < |bs| ==> bs[i].start >= memSize - n)
    requires forall j :: 0 <= j < i ==> !bs[j].Fits(n)
    ensures FirstFit(bs, n, 0) == |bs|
  {
    Ordered(bs, memSize);
  }

  lemma JoinBounds(m: seq<byte>, bs: seq<Block>, memSize: nat, i: nat)
    requires ValidSize(memSize) && Tiles(bs, memSize) && Spells(m, bs, memSize) && i + 1 < |bs|
    ensures bs[i+1].next <= memSize && bs[i].start + HDR + MIN_SIZE <= bs[i].next == bs[i+1].start
    ensures bs[i+1].start + HDR + MIN_SIZE <= bs[i+1].next
    ensures Header(m, bs[i], PrevOf(bs, i, 0)) && Header(m, bs[i+1], PrevOf(bs, i + 1, 0))
  {
    Ordered(bs, memSize);
    assert Header(m, bs[i], PrevOf(bs, i, 0)) && Header(m, bs[i+1], PrevOf(bs, i + 1, 0));
  }

  lemma JoinBytes(m: seq<byte>, m': seq<byte>, bs: seq<Block>, memSize: nat, i: nat)
    requires ValidSize(memSize) && Tiles(bs, memSize) && Spells(m, bs, memSize)
    requires i + 1 < |bs| && !bs[i].used && !bs[i+1].used
    requires bs[i+1].next <= memSize && bs[i].start + HDR <= memSize
    requires m' == PutPrev(PutNext(m, bs[i].start, bs[i+1].next), bs[i+1].next, bs[i].start)
    ensures var r := Join(bs, i);
      && Tiles(r, memSize) && Spells(m', r, memSize) && Live(r) == Live(bs)
      && (forall k :: InPayload(Live(r), k) && 0 <= k < |m| ==> m'[k] == m[k])
  {
    JoinBounds(m, bs, memSize, i);
    var mid := [Block(bs[i].start, bs[i+1].next, false)];
    SpliceTiles(bs, memSize, i, i + 2, mid);
    assert Header(m', mid[0], PrevOf(mid, 0, PrevOf(bs, i, 0)));
    SpliceSpells(m, m', bs, memSize, i, i + 2, mid);
    SplicePayload(m, m', bs, memSize, i, i + 2, mid);
    LiveSplice(bs, memSize, i, i + 2, mid);
    LiveTwo(bs[i..i+2]);
    LiveOne(mid);
  }

  /** What the headers around block i let the code read. */
  lemma BlockAt(m: seq<byte>, bs: seq<Block>, memSize: nat, i: nat)
    requires ValidSize(memSize) && Tiles(bs, memSize) && Spells(m, bs, memSize) && i < |bs|
    ensures bs[i].start + HDR + MIN_SIZE <= bs[i].next <= memSize
    ensures Header(m, bs[i], if i == 0 then 0 else bs[i-1].start)
    ensures i > 0 ==> bs[i-1].start < bs[i-1].next == bs[i].start && Used(m, bs[i-1].start) == bs[i-1].used
    ensures i + 1 < |bs| ==> bs[i].next == bs[i+1].start < memSize && Used(m, bs[i].next) == bs[i+1].used
    ensures i + 1 == |bs| ==> bs[i].next == memSize
    ensures i == 0 ==> bs[i].start == 0
    ensures EndMarker(m, memSize)
  {
    Ordered(bs, memSize);
    assert Header(m, bs[i], PrevOf(bs, i, 0));
    assert i > 0 ==> Header(m, bs[i-1], PrevOf(bs, i - 1, 0));
    assert i + 1 < |bs| ==> Header(m, bs[i+1], PrevOf(bs, i + 1, 0));
  }

  /** The static variables of mem.c: the bytes from the aligned start of ram_heap on,
      and the offset of the lowest free block. */
  class Heap {
    const memSize: nat
    const ram: array<byte>
    var lfree: int
    ghost var blocks: seq<Block>

    ghost predicate Valid()
      reads this, ram
    {
      && ValidSize(memSize) && memSize + HDR <= ram.Length
      && WellFormed(blocks, memSize) && Spells(ram[..], blocks, memSize)
      && IsLowestFree(blocks, memSize, lfree)
    }

    function NextAt(o: nat): nat
      requires o + HDR <= ram.Length
      reads ram
    {
      ram[o] as nat + 256 * ram[o+1] as nat
    }

    function PrevAt(o: nat): nat
      requires o + HDR <= ram.Length
      reads ram
    {
      ram[o+2] as nat + 256 * ram[o+3] as nat
    }

    function UsedAt(o: nat): bool
      requires o + HDR <= ram.Length
      reads ram
    {
      ram[o+4] != 0
    }

    method SetNext(o: nat, v: nat)
      requires o + HDR <= ram.Length && v < 0x1_0000
      modifies ram
      ensures ram[..] == PutNext(old(ram[..]), o, v)
    {
      ram[o] := (v % 256) as byte;
      ram[o+1] := (v / 256) as byte;
    }

    method SetPrev(o: nat, v: nat)
      requires o + HDR <= ram.Length && v < 0x1_0000
      modifies ram
      ensures ram[..] == PutPrev(old(ram[..]), o, v)
    {
      ram[o+2] := (v % 256) as byte;
      ram[o+3] := (v / 256) as byte;
    }

    method SetUsed(o: nat, v: bool)
      requires o + HDR <= ram.Length
      modifies ram
      ensures ram[..] == PutUsed(old(ram[..]), o, v)
    {
      ram[o+4] := if v then 1 else 0;
    }

    /** mem_init. */
    constructor (memSize: nat)
      requires ValidSize(memSize)
      ensures Valid() && this.memSize == memSize && fresh(ram)
      ensures blocks == Init(memSize)
    {
      this.memSize := memSize;
      ram := new byte[memSize + 2 * HDR];
      lfree := 0;
      blocks := Init(memSize);
      new;
      SetNext(0, memSize);
      SetPrev(0, 0);
      SetUsed(0, false);
      SetUsed(memSize, true);
      SetNext(memSize, memSize);
      SetPrev(memSize, memSize);
    }

    /** Everything but NoTwoFree: what holds while blocks are being joined. */
    ghost predicate Consistent()
      reads this, ram
    {
      && ValidSize(memSize) && memSize + HDR <= ram.Length
      && Tiles(blocks, memSize) && Spells(ram[..], blocks, memSize) && IsLowestFree(blocks, memSize, lfree)
    }

    /** The two assignments plug_holes makes on either side: block i takes over its free successor. */
    method Absorb(mem: nat, nmem: nat, ghost i: nat)
      requires Consistent() && i + 1 < |blocks| && !blocks[i].used && !blocks[i+1].used
      requires mem == blocks[i].start && nmem == blocks[i+1].start
      modifies ram, `blocks
      ensures Consistent() && blocks == Join(old(blocks), i) && Live(blocks) == old(Live(blocks))
      ensures forall k :: InPayload(Live(blocks), k) && 0 <= k < ram.Length ==> ram[k] == old(ram[k])
    {
      ghost var bs, m := blocks, ram[..];
      JoinBounds(m, bs, memSize, i);
      var next := NextAt(nmem);
      SetNext(mem, next);
      SetPrev(next, mem);
      blocks := Join(bs, i);
      JoinBytes(m, ram[..], bs, memSize, i);
      JoinLowest(bs, memSize, lfree, i, [Block(mem, next, false)]);
    }

    method PlugForward(mem: nat, ghost i: nat)
      requires Consistent() && i < |blocks| && !blocks[i].used && mem == blocks[i].start && lfree <= mem
      modifies this, ram
      ensures Consistent() && blocks == JoinForward(old(blocks), i) && Live(blocks) == old(Live(blocks))
      ensures lfree <= mem
      ensures forall k :: InPayload(Live(blocks), k) && 0 <= k < ram.Length ==> ram[k] == old(ram[k])
    {
      BlockAt(ram[..], blocks, memSize, i);
      var nmem := NextAt(mem);
      if mem != nmem && !UsedAt(nmem) && nmem != memSize {
        lfree := if lfree == nmem then mem else lfree;
        Absorb(mem, nmem, i);
      }
    }

    method PlugBackward(mem: nat, ghost i: nat)
      requires Consistent() && i < |blocks| && !blocks[i].used && mem == blocks[i].start && lfree <= mem
      modifies this, ram
      ensures Consistent() && blocks == JoinBackward(old(blocks), i) && Live(blocks) == old(Live(blocks))
      ensures forall k :: InPayload(Live(blocks), k) && 0 <= k < ram.Length ==> ram[k] == old(ram[k])
    {
      hide Tiles, Spells, EndMarker, IsLowestFree, InPayload, Live;
      BlockAt(ram[..], blocks, memSize, i);
      var pmem := PrevAt(mem);
      if pmem != mem && !UsedAt(pmem) {
        LowestBelow(blocks, memSize, lfree, i - 1);
        lfree := if lfree == mem then pmem else lfree;
        Absorb(pmem, mem, i - 1);
      }
    }

    /** plug_holes: join block i, which was just freed, with its free neighbours. */
    method PlugHoles(mem: nat, ghost i: nat)
      requires Consistent() && i < |blocks| && !blocks[i].used && mem == blocks[i].start && lfree <= mem
      modifies this, ram
      ensures Consistent() && blocks == JoinBackward(JoinForward(old(blocks), i), i)
      ensures Live(blocks) == old(Live(blocks))
      ensures forall k :: InPayload(Live(blocks), k) && 0 <= k < ram.Length ==> ram[k] == old(ram[k])
    {
      PlugForward(mem, i);
      PlugBackward(mem, i);
    }

    /** The middle of mem_free: block i becomes unused, and lfree moves down to it if need be. */
    method MarkFree(mem: nat, ghost i: nat)
      requires Valid() && i < |blocks| && blocks[i].used && mem == blocks[i].start
      modifies this, ram
      ensures Consistent() && lfree <= mem
      ensures blocks == old(blocks)[i := old(blocks)[i].(used := false)]
      ensures forall k :: InPayload(Live(blocks), k) && 0 <= k < ram.Length ==> ram[k] == old(ram[k])
    {
      hide Tiles, Spells, InPayload, Live;
      BlockAt(ram[..], blocks, memSize, i);
      FlagBytes(ram[..], blocks, memSize, i, false);
      LowestFreed(blocks, memSize, i, lfree);
      assert blocks[i := blocks[i].(used := false)] == Splice(blocks, i, i + 1, [blocks[i].(used := false)]);
      SetUsed(mem, false);
      blocks := blocks[i := blocks[i].(used := false)];
      if mem < lfree { lfree := mem; }
    }

    /** mem_free. */
    method FreeMem(rmem: Pointer)
      requires Valid() && Handed(blocks, memSize, rmem)
      modifies this, ram
      ensures Valid() && blocks == Free(old(blocks), memSize, rmem)
      ensures forall k :: InPayload(Live(blocks), k) && 0 <= k < ram.Length ==> ram[k] == old(ram[k])
    {
      if rmem.Null? { return; }
      if rmem.off < 0 || rmem.off >= memSize { return; }
      ghost var i := Find(blocks, rmem.off, 0);
      ReleaseKeeps(blocks, memSize, i);
      JoinsAreRelease(blocks, i);
      var mem := rmem.off - HDR;
      MarkFree(mem, i);
      PlugHoles(mem, i);
    }

    /** The writes common to mem_malloc's split and both cases of mem_realloc. */
    method WriteCut(ptr: nat, ptr2: nat, next: nat)
      requires memSize + HDR <= ram.Length && memSize < 0x1_0000
      requires ptr + HDR <= ptr2 && ptr2 + HDR <= next <= memSize
      requires UsedAt(ptr)
      modifies ram
      ensures CutWrites(old(ram[..]), ram[..], memSize, ptr, ptr2, next)
    {
      SetUsed(ptr2, false);
      SetNext(ptr2, next);
      SetPrev(ptr2, ptr);
      SetNext(ptr, ptr2);
      if next != memSize { SetPrev(next, ptr2); }
    }

    /** Their effect when blocks i..j, spelled by m, end at next: n bytes of block i stay
        in use, the rest becomes one free block. */
    method CutMem(ptr: nat, n: nat, next: nat, ghost m: seq<byte>, ghost i: nat, ghost j: nat)
      requires ValidSize(memSize) && memSize + HDR <= ram.Length == |m|
      requires Tiles(blocks, memSize) && Spells(m, blocks, memSize) && i < j <= |blocks|
      requires ptr == blocks[i].start && next == blocks[j-1].next <= memSize
      requires n >= MIN_SIZE && n % ALIGNMENT == 0 && ptr + HDR + n + HDR + MIN_SIZE <= next
      requires UsedAt(ptr) && forall k :: 0 <= k < |m| && k != ptr + 4 ==> ram[k] == m[k]
      modifies ram, `blocks
      ensures blocks == Splice(old(blocks), i, j, Cut(old(blocks)[i], n, next))
      ensures Spells(ram[..], blocks, memSize)
      ensures forall k :: InPayload(Live(blocks), k) && 0 <= k < ram.Length ==> ram[k] == m[k]
    {
      WriteCut(ptr, ptr + HDR + n, next);
      assert CutWrites(m, ram[..], memSize, ptr, ptr + HDR + n, next);
      CutSpells(m, ram[..], blocks, memSize, i, j, n);
      CutPayload(m, ram[..], blocks, memSize, i, j, n);
      blocks := Splice(blocks, i, j, Cut(blocks[i], n, next));
    }

    /** mem_realloc when the next block is free: the border between the two moves down. */
    method SlideMem(ptr: nat, n: nat, ghost i: nat)
      requires Valid() && i + 1 < |blocks| && blocks[i].used && !blocks[i+1].used && ptr == blocks[i].start
      requires n >= MIN_SIZE && n % ALIGNMENT == 0 && n < blocks[i].Room()
      modifies this, ram
      ensures Valid() && blocks == Slide(old(blocks), i, n)
      ensures forall k :: InPayload(Live(blocks), k) && 0 <= k < ram.Length ==> ram[k] == old(ram[k])
    {
      assert WellFormed(Slide(blocks, i, n), memSize) by { SlideKeeps(blocks, memSize, i, n); }
      LowestSlide(blocks, memSize, i, n, lfree);
      JoinBounds(ram[..], blocks, memSize, i);
      var mem2 := NextAt(ptr);
      var next := NextAt(mem2);
      if lfree == mem2 { lfree := ptr + HDR + n; }
      CutMem(ptr, n, next, ram[..], i, i + 2);
    }

    /** mem_realloc when the next block is used and the rest can stand as a block of its own. */
    method SplitMem(ptr: nat, n: nat, ghost i: nat)
      requires Valid() && i < |blocks| && blocks[i].used && ptr == blocks[i].start
      requires i + 1 < |blocks| ==> blocks[i+1].used
      requires n >= MIN_SIZE && n % ALIGNMENT == 0 && n + HDR + MIN_SIZE <= blocks[i].Room()
      modifies this, ram
      ensures Valid() && blocks == Split(old(blocks), i, n)
      ensures forall k :: InPayload(Live(blocks), k) && 0 <= k < ram.Length ==> ram[k] == old(ram[k])
    {
      assert WellFormed(Split(blocks, i, n), memSize) by { SplitKeeps(blocks, memSize, i, n); }
      LowestSplit(blocks, memSize, i, n, lfree);
      BlockAt(ram[..], blocks, memSize, i);
      var next := NextAt(ptr);
      if ptr + HDR + n < lfree { lfree := ptr + HDR + n; }
      CutMem(ptr, n, next, ram[..], i, i + 1);
    }

    /** The three cases of mem_realloc for a block that does get smaller. */
    method ShrinkMem(ptr: nat, n: nat, ghost i: nat)
      requires Valid() && i < |blocks| && blocks[i].used && ptr == blocks[i].start
      requires n >= MIN_SIZE && n % ALIGNMENT == 0 && n < blocks[i].Room()
      modifies this, ram
      ensures Valid() && blocks == Shrink(old(blocks), i, n)
      ensures forall k :: InPayload(Live(blocks), k) && 0 <= k < ram.Length ==> ram[k] == old(ram[k])
    {
      BlockAt(ram[..], blocks, memSize, i);
      var size := NextAt(ptr) - ptr - HDR;
      if !UsedAt(NextAt(ptr)) {
        SlideMem(ptr, n, i);
      } else if n + HDR + MIN_SIZE <= size {
        SplitMem(ptr, n, i);
      }
    }

    /** mem_realloc. */
    method ReallocMem(rmem: Pointer, newsize: nat) returns (r: Pointer)
      requires Valid() && Handed(blocks, memSize, rmem) && newsize < 0x1_0000
      modifies this, ram
      ensures Valid() && (r, blocks) == Realloc(old(blocks), memSize, rmem, newsize)
      ensures forall k :: InPayload(Live(blocks), k) && 0 <= k < ram.Length ==> ram[k] == old(ram[k])
    {
      RequestAligned(newsize);
      var n := AlignU16(newsize);
      if n < MIN_SIZE { n := MIN_SIZE; }
      if n > memSize { return Null; }
      if rmem.Null? { return rmem; }
      if rmem.off < 0 || rmem.off >= memSize { return rmem; }
      ghost var i := Find(blocks, rmem.off, 0);
      BlockAt(ram[..], blocks, memSize, i);
      var ptr := rmem.off - HDR;
      var size := NextAt(ptr) - ptr - HDR;
      if n > size { return Null; }
      if n == size { return rmem; }
      ShrinkMem(ptr, n, i);
      return rmem;
    }

    /** mem_malloc when no split is possible. */
    method MarkWhole(ptr: nat, ghost i: nat)
      requires Valid() && i < |blocks| && ptr == blocks[i].start
      modifies ram, `blocks
      ensures blocks == Splice(old(blocks), i, i + 1, [old(blocks)[i].(used := true)])
      ensures Spells(ram[..], blocks, memSize)
      ensures forall k :: InPayload(Live(blocks), k) && 0 <= k < ram.Length ==> ram[k] == old(ram[k])
    {
      BlockAt(ram[..], blocks, memSize, i);
      FlagBytes(ram[..], blocks, memSize, i, true);
      SetUsed(ptr, true);
      blocks := Splice(blocks, i, i + 1, [blocks[i].(used := true)]);
    }

    /** The part of mem_malloc that turns free block i, large enough for n, into a used one. */
    method MarkTaken(ptr: nat, n: nat, ghost i: nat)
      requires Valid() && i < |blocks| && blocks[i].Fits(n) && ptr == blocks[i].start
      requires n >= MIN_SIZE && n % ALIGNMENT == 0
      modifies ram, `blocks
      ensures blocks == Take(old(blocks), i, n) && Spells(ram[..], blocks, memSize)
      ensures forall k :: InPayload(Live(blocks), k) && 0 <= k < ram.Length ==> ram[k] == old(ram[k])
    {
      ghost var m := ram[..];
      BlockAt(m, blocks, memSize, i);
      var next := NextAt(ptr);
      if next - (ptr + HDR) >= n + HDR + MIN_SIZE {
        SetUsed(ptr, true);
        CutMem(ptr, n, next, m, i, i + 1);
      } else {
        MarkWhole(ptr, i);
      }
    }

    /** The part of mem_malloc that looks for the next free block after lfree was taken. */
    method AdvanceLfree(ghost i: nat)
      requires ValidSize(memSize) && memSize + HDR <= ram.Length
      requires WellFormed(blocks, memSize) && Spells(ram[..], blocks, memSize)
      requires i < |blocks| && lfree == blocks[i].start && forall j :: 0 <= j < i ==> blocks[j].used
      modifies `lfree
      ensures IsLowestFree(blocks, memSize, lfree)
    {
      ghost var k := i;
      BlockAt(ram[..], blocks, memSize, i);
      while UsedAt(lfree) && lfree != memSize
        invariant i <= k <= |blocks| && 0 <= lfree <= memSize
        invariant if k < |blocks| then lfree == blocks[k].start < memSize else lfree == memSize
        invariant forall j :: 0 <= j < k ==> blocks[j].used
        invariant UsedAt(memSize)
        invariant k < |blocks| ==> UsedAt(lfree) == blocks[k].used
        decreases memSize - lfree
      {
        BlockAt(ram[..], blocks, memSize, k);
        lfree := NextAt(lfree);
        k := k + 1;
      }
    }

    /** The search of mem_malloc: from lfree up to the last offset where n bytes could still fit. */
    method ScanForFit(n: nat) returns (ptr: int)
      requires Valid() && n <= memSize
      ensures var i := FirstFit(blocks, n, 0);
        if i < |blocks| then ptr == blocks[i].start < memSize - n else ptr >= memSize - n
    {
      ghost var i: nat := LowestIndex(blocks, memSize, lfree);
      ptr := lfree;
      while ptr < memSize - n
        invariant i <= |blocks| && ptr >= 0
        invariant if i < |blocks| then ptr == blocks[i].start else ptr == memSize
        invariant forall j :: 0 <= j < i ==> !blocks[j].Fits(n)
        decreases memSize - ptr
      {
        BlockAt(ram[..], blocks, memSize, i);
        if !UsedAt(ptr) && NextAt(ptr) - (ptr + HDR) >= n { return; }
        ptr := NextAt(ptr);
        i := i + 1;
      }
      NoFitAbove(blocks, memSize, i, n);
    }

    /** What mem_malloc does to the block it found. */
    method TakeMem(ptr: nat, n: nat, ghost i: nat)
      requires Valid() && i < |blocks| && i == FirstFit(blocks, n, 0) && ptr == blocks[i].start
      requires n >= MIN_SIZE && n % ALIGNMENT == 0
      modifies this, ram
      ensures Valid() && blocks == Take(old(blocks), i, n)
      ensures forall k :: InPayload(Live(blocks), k) && 0 <= k < ram.Length ==> ram[k] == old(ram[k])
    {
      TakeKeeps(blocks, memSize, i, n);
      ghost var low := LowestIndex(blocks, memSize, lfree);
      LowestTaken(blocks, memSize, i, n, low);
      MarkTaken(ptr, n, i);
      if ptr == lfree {
        AdvanceLfree(i);
      }
    }

    /** mem_malloc. */
    method MallocMem(size: nat) returns (r: Pointer)
      requires Valid() && size < 0x1_0000
      modifies this, ram
      ensures Valid() && (r, blocks) == Malloc(old(blocks), memSize, size)
      ensures forall k :: InPayload(Live(blocks), k) && 0 <= k < ram.Length ==> ram[k] == old(ram[k])
    {
      if size == 0 { return Null; }
      RequestAligned(size);
      var n := AlignU16(size);
      if n < MIN_SIZE { n := MIN_SIZE; }
      if n > memSize { return Null; }
      var ptr := ScanForFit(n);
      if ptr >= memSize - n { return Null; }
      TakeMem(ptr, n, FirstFit(blocks, n, 0));
      return At(ptr + HDR);
    }
  }
}
