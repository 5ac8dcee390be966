/** The heap of src/lwip/core/mem.c seen as the list of blocks its headers describe.
    The functions below say what the allocator does to that list; `Heap.Heap` does
    it on the bytes of `ram` and is proved against them. */
module HeapBlocks {
  // MEM_ALIGNMENT, SIZEOF_STRUCT_MEM and MIN_SIZE_ALIGNED.
  const ALIGNMENT: nat := 4
  const HDR: nat := 8
  const MIN_SIZE: nat := 12
  // Above this size mem_size_t would be 32 bits wide.
  const MAX_MEM: nat := 64000

  /** A block occupies [start, next): a header of HDR bytes, then its room. */
  datatype Block = Block(start: nat, next: nat, used: bool) {
    function Room(): int { next - start - HDR }
    function Payload(): nat { start + HDR }
    predicate Fits(n: nat) { !used && Room() >= n }
  }

  /** LWIP_MEM_ALIGN_SIZE on an unsigned 16-bit value, then the minimum block size. */
  function AlignU16(size: nat): nat { ((size + 3) / 4 * 4) % 0x1_0000 }

  function Request(size: nat): nat {
    if AlignU16(size) < MIN_SIZE then MIN_SIZE else AlignU16(size)
  }

  /** The blocks follow each other without gap or overlap from lo to hi. */
  ghost predicate Covers(bs: seq<Block>, lo: nat, hi: nat) {
    && (if |bs| == 0 then lo == hi else bs[0].start == lo && bs[|bs|-1].next == hi)
    && (forall i :: 0 <= i < |bs| - 1 ==> bs[i].next == bs[i+1].start)
    && (forall i :: 0 <= i < |bs| ==> bs[i].start % ALIGNMENT == 0 && bs[i].Room() >= MIN_SIZE)
  }

  ghost predicate Tiles(bs: seq<Block>, memSize: nat) {
    |bs| > 0 && Covers(bs, 0, memSize)
  }

  ghost predicate NoTwoFree(bs: seq<Block>) {
    forall i :: 0 <= i < |bs| - 1 ==> bs[i].used || bs[i+1].used
  }

  ghost predicate WellFormed(bs: seq<Block>, memSize: nat) {
    Tiles(bs, memSize) && memSize % ALIGNMENT == 0 && NoTwoFree(bs)
  }

  /** lf is the offset of the lowest free block, or memSize when there is none. */
  ghost predicate IsLowestFree(bs: seq<Block>, memSize: nat, lf: int) {
    || (lf == memSize && forall i :: 0 <= i < |bs| ==> bs[i].used)
    || exists i :: 0 <= i < |bs| && bs[i].start == lf && !bs[i].used && forall j :: 0 <= j < i ==> bs[j].used
  }

  ghost function Live(bs: seq<Block>): set<Block> { set b | b in bs && b.used }

  /** Blocks further on in the list lie further on in memory. */
  lemma Ordered(bs: seq<Block>, memSize: nat)
    requires Tiles(bs, memSize)
    ensures forall i, j :: 0 <= i < j < |bs| ==> bs[i].next <= bs[j].start
    ensures forall i :: 0 <= i < |bs| ==> bs[i].next <= memSize
  {
    forall i, j | 0 <= i < j < |bs| ensures bs[i].next <= bs[j].start { OrderedPair(bs, memSize, i, j); }
  }

  lemma {:induction false} OrderedPair(bs: seq<Block>, memSize: nat, i: nat, j: nat)
    requires Tiles(bs, memSize) && i < j < |bs|
    ensures bs[i].next <= bs[j].start
  {
    if i + 1 < j { OrderedPair(bs, memSize, i, j - 1); }
    assert bs[j-1].next == bs[j].start;
  }

  // ----- what the allocator does to the list -----

  /** The lowest block from index i on that can hold n bytes, or |bs|. */
  function FirstFit(bs: seq<Block>, n: nat, i: nat): (k: nat)
    requires i <= |bs|
    ensures i <= k <= |bs|
    ensures k < |bs| ==> bs[k].Fits(n)
    ensures forall j :: i <= j < k ==> !bs[j].Fits(n)
    decreases |bs| - i
  {
    if i == |bs| || bs[i].Fits(n) then i else FirstFit(bs, n, i + 1)
  }

  /** Index of the used block whose payload starts at p, or |bs|. */
  function Find(bs: seq<Block>, p: int, i: nat): (k: nat)
    requires i <= |bs|
    ensures i <= k <= |bs|
    ensures k < |bs| ==> bs[k].used && bs[k].Payload() == p
    ensures forall j :: i <= j < k ==> !(bs[j].used && bs[j].Payload() == p)
    decreases |bs| - i
  {
    if i == |bs| || (bs[i].used && bs[i].Payload() == p) then i else Find(bs, p, i + 1)
  }

  /** Replace blocks i..j by mid. */
  function Splice(bs: seq<Block>, i: nat, j: nat, mid: seq<Block>): seq<Block>
    requires i <= j <= |bs|
  {
    bs[..i] + mid + bs[j..]
  }

  /** n payload bytes of block b stay in use; from there to next is free. */
  function Cut(b: Block, n: nat, next: nat): seq<Block> {
    [Block(b.start, b.start + HDR + n, true), Block(b.start + HDR + n, next, false)]
  }

  /** Cut block i after n payload bytes; the first part becomes used, the rest free. */
  function Split(bs: seq<Block>, i: nat, n: nat): seq<Block>
    requires i < |bs|
  {
    Splice(bs, i, i + 1, Cut(bs[i], n, bs[i].next))
  }

  function Take(bs: seq<Block>, i: nat, n: nat): seq<Block>
    requires i < |bs|
  {
    if bs[i].Room() >= n + HDR + MIN_SIZE then Split(bs, i, n)
    else Splice(bs, i, i + 1, [bs[i].(used := true)])
  }

  /** The neighbours that freeing block i absorbs. */
  function ReleaseLo(bs: seq<Block>, i: nat): nat
    requires i < |bs|
  {
    if i > 0 && !bs[i-1].used then i - 1 else i
  }

  function ReleaseHi(bs: seq<Block>, i: nat): nat
    requires i < |bs|
  {
    if i + 1 < |bs| && !bs[i+1].used then i + 2 else i + 1
  }

  /** Free block i and join it with its free neighbours. */
  function Release(bs: seq<Block>, i: nat): seq<Block>
    requires i < |bs|
  {
    var lo, hi := ReleaseLo(bs, i), ReleaseHi(bs, i);
    Splice(bs, lo, hi, [Block(bs[lo].start, bs[hi-1].next, false)])
  }

  /** Block i, already free, takes over its successor. */
  function Join(bs: seq<Block>, i: nat): seq<Block>
    requires i + 1 < |bs|
  {
    Splice(bs, i, i + 2, [Block(bs[i].start, bs[i+1].next, false)])
  }

  function JoinForward(bs: seq<Block>, i: nat): seq<Block>
    requires i < |bs|
  {
    if i + 1 < |bs| && !bs[i+1].used then Join(bs, i) else bs
  }

  function JoinBackward(bs: seq<Block>, i: nat): seq<Block>
    requires i < |bs|
  {
    if i > 0 && !bs[i-1].used then Join(bs, i - 1) else bs
  }

  /** Joining one side after the other is freeing in one go. */
  lemma JoinsAreRelease(bs: seq<Block>, i: nat)
    requires i < |bs|
    ensures var freed := bs[i := bs[i].(used := false)];
      |JoinForward(freed, i)| > i && JoinBackward(JoinForward(freed, i), i) == Release(bs, i)
  {
    var hi := ReleaseHi(bs, i);
    var mid := Block(bs[i].start, bs[hi-1].next, false);
    var b1 := JoinForward(bs[i := bs[i].(used := false)], i);
    assert b1 == bs[..i] + [mid] + bs[hi..];
    if i > 0 && !bs[i-1].used {
      assert b1[i-1] == bs[i-1] && b1[i] == mid && b1[..i-1] == bs[..i-1] && b1[i+1..] == bs[hi..];
    } else {
      assert Release(bs, i) == bs[..i] + [mid] + bs[hi..];
    }
  }

  /** Move the border between block i and its free successor down to n payload bytes. */
  function Slide(bs: seq<Block>, i: nat, n: nat): seq<Block>
    requires i + 1 < |bs|
  {
    Splice(bs, i, i + 2, Cut(bs[i], n, bs[i+1].next))
  }

  /** Shrink used block i to n payload bytes. */
  function Shrink(bs: seq<Block>, i: nat, n: nat): seq<Block>
    requires i < |bs|
  {
    if i + 1 < |bs| && !bs[i+1].used then Slide(bs, i, n)
    else if n + HDR + MIN_SIZE <= bs[i].Room() then Split(bs, i, n)
    else bs
  }

  // ----- splicing in blocks that cover the same bytes -----

  lemma CoversConcat(a: seq<Block>, b: seq<Block>, lo: nat, mid: nat, hi: nat)
    requires Covers(a, lo, mid) && Covers(b, mid, hi)
    ensures Covers(a + b, lo, hi)
  {
  }

  lemma SpliceTiles(bs: seq<Block>, memSize: nat, i: nat, j: nat, mid: seq<Block>)
    requires Tiles(bs, memSize) && i < j <= |bs| && |mid| > 0 && Covers(mid, bs[i].start, bs[j-1].next)
    ensures Tiles(Splice(bs, i, j, mid), memSize)
  {
    assert Covers(bs[..i], 0, bs[i].start);
    assert Covers(bs[j..], bs[j-1].next, memSize);
    CoversConcat(bs[..i], mid, 0, bs[i].start, bs[j-1].next);
    CoversConcat(bs[..i] + mid, bs[j..], 0, bs[j-1].next, memSize);
  }

  lemma LiveConcat(a: seq<Block>, b: seq<Block>)
    ensures Live(a + b) == Live(a) + Live(b)
  {
  }

  lemma LiveApart(bs: seq<Block>, memSize: nat, i: nat, j: nat, k: nat, l: nat)
    requires Tiles(bs, memSize) && i <= j <= k <= l <= |bs|
    ensures Live(bs[i..j]) !! Live(bs[k..l])
  {
    Ordered(bs, memSize);
    forall p, q | 0 <= p < j - i && 0 <= q < l - k ensures bs[i..j][p] != bs[k..l][q] {
      assert bs[i+p].next <= bs[k+q].start;
    }
  }

  lemma SwapMiddle(a: set<Block>, b: set<Block>, c: set<Block>, m: set<Block>)
    requires a !! b && b !! c
    ensures a + m + c == (a + b + c) - b + m
  {
  }

  lemma LiveParts(a: seq<Block>, b: seq<Block>, c: seq<Block>)
    ensures Live(a + b + c) == Live(a) + Live(b) + Live(c)
  {
    LiveConcat(a + b, c);
    LiveConcat(a, b);
  }

  lemma ThreeParts(bs: seq<Block>, i: nat, j: nat)
    requires i <= j <= |bs|
    ensures bs == bs[..i] + bs[i..j] + bs[j..] && bs[0..i] == bs[..i] && bs[j..|bs|] == bs[j..]
  {
  }

  lemma LiveSplice(bs: seq<Block>, memSize: nat, i: nat, j: nat, mid: seq<Block>)
    requires Tiles(bs, memSize) && i < j <= |bs|
    ensures Live(Splice(bs, i, j, mid)) == Live(bs) - Live(bs[i..j]) + Live(mid)
  {
    LiveParts(bs[..i], mid, bs[j..]);
    LiveParts(bs[..i], bs[i..j], bs[j..]);
    ThreeParts(bs, i, j);
    LiveApart(bs, memSize, 0, i, i, j);
    LiveApart(bs, memSize, i, j, j, |bs|);
    SwapMiddle(Live(bs[..i]), Live(bs[i..j]), Live(bs[j..]), Live(mid));
  }

  lemma NoTwoFreeConcat(a: seq<Block>, b: seq<Block>)
    requires NoTwoFree(a) && NoTwoFree(b)
    requires |a| > 0 && |b| > 0 ==> a[|a|-1].used || b[0].used
    ensures NoTwoFree(a + b)
  {
  }

  lemma NoTwoFreeSplice(bs: seq<Block>, i: nat, j: nat, mid: seq<Block>)
    requires NoTwoFree(bs) && i < j <= |bs| && |mid| > 0 && NoTwoFree(mid)
    requires i > 0 ==> bs[i-1].used || mid[0].used
    requires j < |bs| ==> mid[|mid|-1].used || bs[j].used
    ensures NoTwoFree(Splice(bs, i, j, mid))
  {
    NoTwoFreeConcat(bs[..i], mid);
    NoTwoFreeConcat(bs[..i] + mid, bs[j..]);
  }

  /** What every operation below amounts to. */
  lemma SpliceKeeps(bs: seq<Block>, memSize: nat, i: nat, j: nat, mid: seq<Block>)
    requires WellFormed(bs, memSize) && i < j <= |bs|
    requires |mid| > 0 && Covers(mid, bs[i].start, bs[j-1].next) && NoTwoFree(mid)
    requires i > 0 ==> bs[i-1].used || mid[0].used
    requires j < |bs| ==> mid[|mid|-1].used || bs[j].used
    ensures WellFormed(Splice(bs, i, j, mid), memSize)
    ensures Live(Splice(bs, i, j, mid)) == Live(bs) - Live(bs[i..j]) + Live(mid)
    ensures |Splice(bs, i, j, mid)| > i && Splice(bs, i, j, mid)[i] == mid[0]
  {
    SpliceTiles(bs, memSize, i, j, mid);
    NoTwoFreeSplice(bs, i, j, mid);
    LiveSplice(bs, memSize, i, j, mid);
  }

  lemma LiveOne(s: seq<Block>)
    requires |s| == 1
    ensures Live(s) == if s[0].used then {s[0]} else {}
  {
    assert s[0] in s;
  }

  lemma LiveTwo(s: seq<Block>)
    requires |s| == 2
    ensures Live(s) == (if s[0].used then {s[0]} else {}) + (if s[1].used then {s[1]} else {})
  {
    assert s[0] in s && s[1] in s;
  }

  // ----- every operation keeps the list well formed ... -----

  lemma CutCovers(b: Block, n: nat, next: nat)
    requires b.start % ALIGNMENT == 0 && next % ALIGNMENT == 0 && n >= MIN_SIZE && n % ALIGNMENT == 0
    requires next - b.start - HDR >= n + HDR + MIN_SIZE
    ensures Covers(Cut(b, n, next), b.start, next) && NoTwoFree(Cut(b, n, next))
  {
  }

  /** Where block i lies. */
  lemma BlockPlace(bs: seq<Block>, memSize: nat, i: nat)
    requires WellFormed(bs, memSize) && i < |bs|
    ensures bs[i].start % ALIGNMENT == 0 && bs[i].next % ALIGNMENT == 0 && bs[i].Room() >= MIN_SIZE
    ensures i + 1 < |bs| ==> bs[i].next == bs[i+1].start
    ensures i > 0 ==> bs[i-1].used || bs[i].used
    ensures i + 1 < |bs| ==> bs[i].used || bs[i+1].used
  {
    if i + 1 < |bs| { assert bs[i].next == bs[i+1].start; }
    if i > 0 { assert bs[i-1].used || bs[(i-1)+1].used; }
  }

  lemma SplitKeeps(bs: seq<Block>, memSize: nat, i: nat, n: nat)
    requires WellFormed(bs, memSize) && i < |bs| && (i + 1 < |bs| ==> bs[i+1].used)
    requires n >= MIN_SIZE && n % ALIGNMENT == 0 && bs[i].Room() >= n + HDR + MIN_SIZE
    ensures WellFormed(Split(bs, i, n), memSize)
    ensures |Split(bs, i, n)| > i && Split(bs, i, n)[i] == Block(bs[i].start, bs[i].start + HDR + n, true)
    ensures Live(Split(bs, i, n)) == Live(bs) - {bs[i]} + {Split(bs, i, n)[i]}
  {
    hide Covers, NoTwoFree, Splice, WellFormed;
    var mid := Cut(bs[i], n, bs[i].next);
    BlockPlace(bs, memSize, i);
    CutCovers(bs[i], n, bs[i].next);
    SpliceKeeps(bs, memSize, i, i + 1, mid);
    LiveOne(bs[i..i+1]);
    LiveTwo(mid);
  }

  lemma SlideKeeps(bs: seq<Block>, memSize: nat, i: nat, n: nat)
    requires WellFormed(bs, memSize) && i + 1 < |bs| && bs[i].used && !bs[i+1].used
    requires n >= MIN_SIZE && n % ALIGNMENT == 0 && n < bs[i].Room()
    ensures WellFormed(Slide(bs, i, n), memSize)
    ensures |Slide(bs, i, n)| > i && Slide(bs, i, n)[i] == Block(bs[i].start, bs[i].start + HDR + n, true)
    ensures Live(Slide(bs, i, n)) == Live(bs) - {bs[i]} + {Slide(bs, i, n)[i]}
  {
    var mid := Cut(bs[i], n, bs[i+1].next);
    SpliceKeeps(bs, memSize, i, i + 2, mid);
    LiveTwo(bs[i..i+2]);
    LiveTwo(mid);
  }

  lemma TakeKeeps(bs: seq<Block>, memSize: nat, i: nat, n: nat)
    requires WellFormed(bs, memSize) && i < |bs| && bs[i].Fits(n) && n >= MIN_SIZE && n % ALIGNMENT == 0
    ensures WellFormed(Take(bs, i, n), memSize)
    ensures |Take(bs, i, n)| > i && Take(bs, i, n)[i].used && Take(bs, i, n)[i].start == bs[i].start
    ensures n <= Take(bs, i, n)[i].Room() < n + HDR + MIN_SIZE && Take(bs, i, n)[i].next <= bs[i].next
  {
    if bs[i].Room() >= n + HDR + MIN_SIZE {
      SplitKeeps(bs, memSize, i, n);
    } else {
      SpliceKeeps(bs, memSize, i, i + 1, [bs[i].(used := true)]);
    }
  }

  lemma ReleaseCovers(bs: seq<Block>, memSize: nat, lo: nat, hi: nat)
    requires Tiles(bs, memSize) && lo < hi <= |bs|
    ensures Covers([Block(bs[lo].start, bs[hi-1].next, false)], bs[lo].start, bs[hi-1].next)
  {
    Ordered(bs, memSize);
  }

  lemma ReleaseKeeps(bs: seq<Block>, memSize: nat, i: nat)
    requires WellFormed(bs, memSize) && i < |bs| && bs[i].used
    ensures WellFormed(Release(bs, i), memSize)
  {
    var lo, hi := ReleaseLo(bs, i), ReleaseHi(bs, i);
    ReleaseCovers(bs, memSize, lo, hi);
    SpliceKeeps(bs, memSize, lo, hi, [Block(bs[lo].start, bs[hi-1].next, false)]);
  }

  lemma ShrinkKeeps(bs: seq<Block>, memSize: nat, i: nat, n: nat)
    requires WellFormed(bs, memSize) && i < |bs| && bs[i].used
    requires n >= MIN_SIZE && n % ALIGNMENT == 0 && n < bs[i].Room()
    ensures WellFormed(Shrink(bs, i, n), memSize)
    ensures |Shrink(bs, i, n)| > i && Shrink(bs, i, n)[i].used && Shrink(bs, i, n)[i].start == bs[i].start
    ensures n <= Shrink(bs, i, n)[i].Room() <= bs[i].Room() && Shrink(bs, i, n)[i].Room() < n + HDR + MIN_SIZE
    ensures i + 1 < |bs| && !bs[i+1].used ==> Shrink(bs, i, n)[i].Room() == n
  {
    if i + 1 < |bs| && !bs[i+1].used {
      SlideKeeps(bs, memSize, i, n);
    } else if n + HDR + MIN_SIZE <= bs[i].Room() {
      SplitKeeps(bs, memSize, i, n);
    }
  }

  // ----- ... and changes the live blocks exactly so -----

  lemma TakeLive(bs: seq<Block>, memSize: nat, i: nat, n: nat)
    requires WellFormed(bs, memSize) && i < |bs| && bs[i].Fits(n) && n >= MIN_SIZE && n % ALIGNMENT == 0
    ensures |Take(bs, i, n)| > i && Live(Take(bs, i, n)) == Live(bs) + {Take(bs, i, n)[i]}
  {
    if bs[i].Room() >= n + HDR + MIN_SIZE {
      SplitKeeps(bs, memSize, i, n);
      assert bs[i] !in Live(bs);
    } else {
      var mid := [bs[i].(used := true)];
      LiveSplice(bs, memSize, i, i + 1, mid);
      LiveOne(bs[i..i+1]);
      LiveOne(mid);
    }
  }

  lemma ReleaseLive(bs: seq<Block>, memSize: nat, i: nat)
    requires Tiles(bs, memSize) && i < |bs| && bs[i].used
    ensures Live(Release(bs, i)) == Live(bs) - {bs[i]}
  {
    var lo, hi := ReleaseLo(bs, i), ReleaseHi(bs, i);
    var mid := [Block(bs[lo].start, bs[hi-1].next, false)];
    LiveSplice(bs, memSize, lo, hi, mid);
    LiveOne(mid);
    if lo < i { LiveOne(bs[lo..i]); }
    LiveOne(bs[i..i+1]);
    if i + 1 < hi { LiveOne(bs[i+1..hi]); }
    LiveThree(bs, lo, i, hi);
  }

  lemma LiveThree(bs: seq<Block>, lo: nat, i: nat, hi: nat)
    requires lo <= i < hi <= |bs|
    ensures Live(bs[lo..hi]) == Live(bs[lo..i]) + Live(bs[i..i+1]) + Live(bs[i+1..hi])
  {
    LiveParts(bs[lo..i], bs[i..i+1], bs[i+1..hi]);
    assert bs[lo..hi] == bs[lo..i] + bs[i..i+1] + bs[i+1..hi];
  }

  lemma ShrinkLive(bs: seq<Block>, memSize: nat, i: nat, n: nat)
    requires WellFormed(bs, memSize) && i < |bs| && bs[i].used
    requires n >= MIN_SIZE && n % ALIGNMENT == 0 && n < bs[i].Room()
    ensures |Shrink(bs, i, n)| > i
    ensures Live(Shrink(bs, i, n)) == Live(bs) - {bs[i]} + {Shrink(bs, i, n)[i]}
  {
    if i + 1 < |bs| && !bs[i+1].used {
      SlideKeeps(bs, memSize, i, n);
    } else if n + HDR + MIN_SIZE <= bs[i].Room() {
      SplitKeeps(bs, memSize, i, n);
    } else {
      assert bs[i] in Live(bs);
    }
  }

  // ----- the three calls, and runs of them -----

  /** A C pointer into (or outside) the heap, as an offset from ram. */
  datatype Pointer = Null | At(off: int)

  function Init(memSize: nat): seq<Block> { [Block(0, memSize, false)] }

  function Malloc(bs: seq<Block>, memSize: nat, size: nat): (Pointer, seq<Block>) {
    var n := Request(size);
    if size == 0 || n > memSize then (Null, bs)
    else
      var i := FirstFit(bs, n, 0);
      if i == |bs| then (Null, bs) else (At(bs[i].Payload()), Take(bs, i, n))
  }

  predicate InHeap(p: Pointer, memSize: nat) { p.At? && 0 <= p.off < memSize }

  function Free(bs: seq<Block>, memSize: nat, p: Pointer): seq<Block> {
    if !InHeap(p, memSize) then bs
    else
      var i := Find(bs, p.off, 0);
      if i == |bs| then bs else Release(bs, i)
  }

  function Realloc(bs: seq<Block>, memSize: nat, p: Pointer, newsize: nat): (Pointer, seq<Block>) {
    var n := Request(newsize);
    if n > memSize then (Null, bs)
    else if !InHeap(p, memSize) then (p, bs)
    else
      var i := Find(bs, p.off, 0);
      if i == |bs| then (p, bs)
      else if n > bs[i].Room() then (Null, bs)
      else if n == bs[i].Room() then (p, bs)
      else (p, Shrink(bs, i, n))
  }

  datatype Call = MallocCall(size: nat) | FreeCall(p: Pointer) | ReallocCall(p: Pointer, newsize: nat)

  function Perform(bs: seq<Block>, memSize: nat, c: Call): seq<Block> {
    match c
    case MallocCall(size) => Malloc(bs, memSize, size).1
    case FreeCall(p) => Free(bs, memSize, p)
    case ReallocCall(p, newsize) => Realloc(bs, memSize, p, newsize).1
  }

  /** The heap after a run of calls from mem_init. */
  function Run(memSize: nat, calls: seq<Call>): seq<Block> {
    if calls == [] then Init(memSize) else Perform(Run(memSize, calls[..|calls|-1]), memSize, calls[|calls|-1])
  }

  ghost predicate ValidSize(memSize: nat) { HDR + MIN_SIZE <= memSize <= MAX_MEM && memSize % ALIGNMENT == 0 }

  /** Rounding up, and the minimum: the least multiple of four, not below twelve, that is as
      large as the size, as long as that fits sixteen bits. */
  lemma RequestAligned(size: nat)
    requires size < 0x1_0000
    ensures Request(size) >= 12 && Request(size) % 4 == 0
    ensures size <= 65532 ==> size <= Request(size) && (Request(size) < size + 4 || Request(size) == 12)
    ensures size > 65532 ==> Request(size) == 12
  {
  }

  /** What is left of a size once it is rounded up in sixteen bits. */
  function Asked(size: nat): nat { if size <= 65532 then size else 0 }

  /** A block is large enough for the rounded size exactly when it is for the size. */
  lemma EnoughRoom(b: Block, size: nat)
    requires size < 0x1_0000 && b.Room() >= 12 && b.Room() % 4 == 0
    ensures b.Room() >= Request(size) <==> b.Room() >= Asked(size)
  {
    RequestAligned(size);
  }

  lemma RoomAligned(bs: seq<Block>, memSize: nat, b: Block)
    requires WellFormed(bs, memSize) && b in bs
    ensures b.Room() >= 12 && b.Room() % 4 == 0 && b.next <= memSize
  {
    var i :| 0 <= i < |bs| && bs[i] == b;
    BlockPlace(bs, memSize, i);
    Ordered(bs, memSize);
  }

  /** What mem_free and mem_realloc may be given: a pointer that mem_malloc handed out and that
      was not freed since, NULL, or a pointer outside the heap, which they notice. */
  ghost predicate Handed(bs: seq<Block>, memSize: nat, p: Pointer) {
    InHeap(p, memSize) ==> exists b :: b in Live(bs) && b.Payload() == p.off
  }

  /** mem_size_t has sixteen bits. */
  ghost predicate Legal(bs: seq<Block>, memSize: nat, c: Call) {
    match c
    case MallocCall(size) => size < 0x1_0000
    case FreeCall(p) => Handed(bs, memSize, p)
    case ReallocCall(p, newsize) => Handed(bs, memSize, p) && newsize < 0x1_0000
  }

  ghost predicate LegalRun(memSize: nat, calls: seq<Call>) {
    calls != [] ==>
      LegalRun(memSize, calls[..|calls|-1]) && Legal(Run(memSize, calls[..|calls|-1]), memSize, calls[|calls|-1])
  }

  lemma PerformKeeps(bs: seq<Block>, memSize: nat, c: Call)
    requires WellFormed(bs, memSize) && Legal(bs, memSize, c)
    ensures WellFormed(Perform(bs, memSize, c), memSize)
  {
    match c
    case MallocCall(size) =>
      RequestAligned(size);
      var i := FirstFit(bs, Request(size), 0);
      if i < |bs| { TakeKeeps(bs, memSize, i, Request(size)); }
    case FreeCall(p) =>
      if p.At? {
        var i := Find(bs, p.off, 0);
        if i < |bs| { ReleaseKeeps(bs, memSize, i); }
      }
    case ReallocCall(p, newsize) =>
      RequestAligned(newsize);
      if p.At? {
        var i := Find(bs, p.off, 0);
        if i < |bs| && Request(newsize) < bs[i].Room() { ShrinkKeeps(bs, memSize, i, Request(newsize)); }
      }
  }

  /** Every heap reachable from mem_init by such calls is well formed. */
  lemma {:induction false} RunWellFormed(memSize: nat, calls: seq<Call>)
    requires ValidSize(memSize) && LegalRun(memSize, calls)
    ensures WellFormed(Run(memSize, calls), memSize)
  {
    if calls != [] {
      RunWellFormed(memSize, calls[..|calls|-1]);
      PerformKeeps(Run(memSize, calls[..|calls|-1]), memSize, calls[|calls|-1]);
    }
  }

  lemma NothingLive(bs: seq<Block>, memSize: nat)
    requires WellFormed(bs, memSize)
    ensures Live(bs) == {} <==> bs == Init(memSize)
  {
    assert |bs| > 1 ==> bs[0].used || bs[0+1].used;
    assert forall i :: 0 <= i < |bs| && bs[i].used ==> bs[i] in Live(bs);
  }

  /** Once everything is freed, the heap is one free block again, whatever came before. */
  lemma AllFreedIsInit(memSize: nat, calls: seq<Call>)
    requires ValidSize(memSize) && LegalRun(memSize, calls)
    ensures Live(Run(memSize, calls)) == {} <==> Run(memSize, calls) == Init(memSize)
  {
    RunWellFormed(memSize, calls);
    NothingLive(Run(memSize, calls), memSize);
  }

  /** Two live blocks never overlap. */
  lemma LiveDisjoint(bs: seq<Block>, memSize: nat, a: Block, b: Block)
    requires Tiles(bs, memSize) && a in Live(bs) && b in Live(bs) && a != b
    ensures a.next <= b.start || b.next <= a.start
    ensures a.next <= memSize
  {
    Ordered(bs, memSize);
  }

  /** b is free and has room for size bytes. */
  predicate FreeFor(b: Block, size: nat) { !b.used && b.Room() >= size }

  /** b is a block handed out at p for a request of size bytes: aligned, inside the heap, no larger
      than it has to be, lowest among the blocks that fit, apart from every block live before. */
  ghost predicate HandsOut(bs: seq<Block>, memSize: nat, size: nat, p: Pointer, b: Block) {
    && b.used && p == At(b.Payload()) && b.Payload() % ALIGNMENT == 0 && b.next <= memSize
    && Request(size) <= b.Room() < Request(size) + HDR + MIN_SIZE
    && Asked(size) <= b.Room() < 20 + (if Asked(size) < 12 then 12 else Asked(size) + 4)
    && (forall l :: l in Live(bs) ==> l.next <= b.start || b.next <= l.start)
    && (exists c :: c in bs && FreeFor(c, Asked(size)) && c.start == b.start)
    && (forall c :: c in bs && FreeFor(c, Asked(size)) ==> b.start <= c.start)
  }

  /** What mem_malloc hands out is sound, and it is the only change to the live blocks. */
  lemma MallocSound(bs: seq<Block>, memSize: nat, size: nat)
    requires WellFormed(bs, memSize) && size < 0x1_0000
    ensures var (p, bs') := Malloc(bs, memSize, size);
      if p.Null? then bs' == bs
      else exists b :: HandsOut(bs, memSize, size, p, b) && Live(bs') == Live(bs) + {b}
  {
    RequestAligned(size);
    var n := Request(size);
    var (p, bs') := Malloc(bs, memSize, size);
    if p.At? {
      var i := FirstFit(bs, n, 0);
      TakeKeeps(bs, memSize, i, n);
      TakeLive(bs, memSize, i, n);
      HandedOut(bs, memSize, i, size, bs'[i]);
    }
  }

  lemma HandedOut(bs: seq<Block>, memSize: nat, i: nat, size: nat, b: Block)
    requires WellFormed(bs, memSize) && size < 0x1_0000 && i < |bs| && bs[i].Fits(Request(size))
    requires forall j :: 0 <= j < i ==> !bs[j].Fits(Request(size))
    requires b.used && b.start == bs[i].start && b.next <= bs[i].next
    requires Request(size) <= b.Room() < Request(size) + HDR + MIN_SIZE
    ensures HandsOut(bs, memSize, size, At(b.Payload()), b)
  {
    hide WellFormed, Request, FreeFor, Live;
    FitAsAsked(bs, memSize, size);
    BlockPlace(bs, memSize, i);
    RequestAligned(size);
    BesideLive(bs, memSize, i, b);
    assert bs[i] in bs;
  }

  /** A block within a free one is apart from the live ones, and no lower than those before it. */
  lemma BesideLive(bs: seq<Block>, memSize: nat, i: nat, b: Block)
    requires WellFormed(bs, memSize) && i < |bs| && !bs[i].used && b.start == bs[i].start && b.next <= bs[i].next
    ensures b.next <= memSize && forall l :: l in Live(bs) ==> l.next <= b.start || b.next <= l.start
    ensures forall j :: i <= j < |bs| ==> b.start <= bs[j].start
  {
    Ordered(bs, memSize);
    forall l | l in Live(bs) ensures l.next <= b.start || b.next <= l.start {
      var j :| 0 <= j < |bs| && bs[j] == l;
      assert j != i;
    }
    forall j | i <= j < |bs| ensures b.start <= bs[j].start { if i < j { assert bs[i].next <= bs[j].start; } }
  }

  /** A free block fits the request exactly when it has room for the size. */
  lemma FitAsAsked(bs: seq<Block>, memSize: nat, size: nat)
    requires WellFormed(bs, memSize) && size < 0x1_0000
    ensures forall c :: c in bs ==> (c.Fits(Request(size)) <==> FreeFor(c, Asked(size)))
  {
    forall c | c in bs ensures c.Fits(Request(size)) <==> FreeFor(c, Asked(size)) {
      RoomAligned(bs, memSize, c);
      EnoughRoom(c, size);
    }
  }

  /** mem_malloc fails only for nothing, or when no free block is large enough for the size, or,
      when that wraps as it is rounded up, when there is no free block at all. */
  lemma MallocComplete(bs: seq<Block>, memSize: nat, size: nat)
    requires WellFormed(bs, memSize) && size < 0x1_0000
    ensures Malloc(bs, memSize, size).0.Null? <==> size == 0 || forall b :: b in bs ==> !FreeFor(b, Asked(size))
  {
    forall b | b in bs ensures (b.Fits(Request(size)) <==> FreeFor(b, Asked(size))) && b.Room() <= memSize {
      RoomAligned(bs, memSize, b);
      EnoughRoom(b, size);
    }
  }

  /** So the size that fits exactly is found. */
  lemma MallocBySize(bs: seq<Block>, memSize: nat, size: nat)
    requires WellFormed(bs, memSize) && 0 < size <= 65532
    ensures Malloc(bs, memSize, size).0.Null? <==> forall b :: b in bs ==> b.used || b.Room() < size
  {
    MallocComplete(bs, memSize, size);
    forall b | b in bs ensures FreeFor(b, size) <==> !(b.used || b.Room() < size) {}
  }

  /** The block is as large as asked for exactly when the request, rounded up,
      still fits 16 bits. */
  lemma MallocRoom(bs: seq<Block>, memSize: nat, size: nat, b: Block)
    requires WellFormed(bs, memSize) && ValidSize(memSize) && size < 0x1_0000
    requires var (p, bs') := Malloc(bs, memSize, size); p.At? && b in Live(bs') && b.Payload() == p.off
    ensures b.Room() >= size <==> size <= 65532
  {
    RequestAligned(size);
    PerformKeeps(bs, memSize, MallocCall(size));
    var bs' := Malloc(bs, memSize, size).1;
    var i := FirstFit(bs, Request(size), 0);
    TakeKeeps(bs, memSize, i, Request(size));
    Ordered(bs', memSize);
    assert b == bs'[i];
  }

  lemma FindsUsed(bs: seq<Block>, memSize: nat, i: nat)
    requires Tiles(bs, memSize) && i < |bs| && bs[i].used
    ensures Find(bs, bs[i].Payload(), 0) == i
  {
    Ordered(bs, memSize);
  }

  /** Freeing what was just allocated gives back the very same heap. */
  lemma FreeUndoesMalloc(bs: seq<Block>, memSize: nat, size: nat)
    requires WellFormed(bs, memSize) && size < 0x1_0000
    ensures Free(Malloc(bs, memSize, size).1, memSize, Malloc(bs, memSize, size).0) == bs
  {
    var (p, bs') := Malloc(bs, memSize, size);
    if p.At? {
      var n := Request(size);
      var i := FirstFit(bs, n, 0);
      RequestAligned(size);
      TakeKeeps(bs, memSize, i, n);
      FindsUsed(bs', memSize, i);
      assert InHeap(p, memSize) by { Ordered(bs, memSize); }
      ReleaseUndoesTake(bs, memSize, i, n);
    }
  }

  lemma ReleaseUndoesTake(bs: seq<Block>, memSize: nat, i: nat, n: nat)
    requires WellFormed(bs, memSize) && i < |bs| && bs[i].Fits(n) && n >= MIN_SIZE && n % ALIGNMENT == 0
    ensures |Take(bs, i, n)| > i && Release(Take(bs, i, n), i) == bs
  {
    var r := Take(bs, i, n);
    assert i > 0 ==> r[i-1] == bs[i-1];
    if bs[i].Room() >= n + HDR + MIN_SIZE {
      assert r[i+1] == Block(bs[i].start + HDR + n, bs[i].next, false);
    } else {
      assert i + 1 < |bs| ==> r[i+1] == bs[i+1];
    }
  }

  /** mem_free takes exactly the freed block out of the live ones. */
  lemma FreeLive(bs: seq<Block>, memSize: nat, b: Block)
    requires WellFormed(bs, memSize) && b in Live(bs)
    ensures Live(Free(bs, memSize, At(b.Payload()))) == Live(bs) - {b}
  {
    Ordered(bs, memSize);
    var i :| 0 <= i < |bs| && bs[i] == b;
    FindsUsed(bs, memSize, i);
    ReleaseLive(bs, memSize, i);
  }

  /** c is what is left of b for size bytes: no more than it has to be. */
  ghost predicate Shrinks(size: nat, b: Block, c: Block) {
    && c.used && c.start == b.start && c.Room() <= b.Room()
    && Request(size) <= c.Room() < Request(size) + HDR + MIN_SIZE
    && Asked(size) <= c.Room() < 20 + (if Asked(size) < 12 then 12 else Asked(size) + 4)
  }

  /** The block after b is free. */
  ghost predicate NextFree(bs: seq<Block>, b: Block) { exists f :: f in bs && !f.used && f.start == b.next }

  /** b became c, and no other live block changed. Next to free room, all that is not needed goes. */
  ghost predicate ShrinksOne(size: nat, b: Block, bs: seq<Block>, bs': seq<Block>) {
    exists c :: Shrinks(size, b, c) && Live(bs') == Live(bs) - {b} + {c}
      && (NextFree(bs, b) && Request(size) < b.Room() ==> c.Room() == Request(size))
  }

  /** mem_realloc never moves a block and never grows it; it fails exactly when asked to grow. */
  lemma ReallocEffect(bs: seq<Block>, memSize: nat, b: Block, newsize: nat)
    requires WellFormed(bs, memSize) && b in Live(bs) && newsize < 0x1_0000
    ensures var (p, bs') := Realloc(bs, memSize, At(b.Payload()), newsize);
      if Asked(newsize) > b.Room() then (p, bs') == (Null, bs)
      else p == At(b.Payload()) && ShrinksOne(newsize, b, bs, bs')
  {
    RoomAligned(bs, memSize, b);
    EnoughRoom(b, newsize);
    var i :| 0 <= i < |bs| && bs[i] == b;
    FindsUsed(bs, memSize, i);
    if Request(newsize) < b.Room() {
      ShrinkEffect(bs, memSize, i, newsize);
    } else if Request(newsize) == b.Room() {
      RequestAligned(newsize);
      assert Shrinks(newsize, b, b) && Live(bs) == Live(bs) - {b} + {b};
    }
  }

  lemma ShrinkEffect(bs: seq<Block>, memSize: nat, i: nat, newsize: nat)
    requires WellFormed(bs, memSize) && i < |bs| && bs[i].used && newsize < 0x1_0000 && Request(newsize) < bs[i].Room()
    ensures ShrinksOne(newsize, bs[i], bs, Shrink(bs, i, Request(newsize)))
  {
    hide Shrink, Live, NextFree, Request;
    RequestAligned(newsize);
    var n := Request(newsize);
    ShrinkKeeps(bs, memSize, i, n);
    ShrinkLive(bs, memSize, i, n);
    FollowsFree(bs, memSize, i);
    assert Shrinks(newsize, bs[i], Shrink(bs, i, n)[i]);
  }

  lemma FollowsFree(bs: seq<Block>, memSize: nat, i: nat)
    requires WellFormed(bs, memSize) && i < |bs|
    ensures NextFree(bs, bs[i]) <==> i + 1 < |bs| && !bs[i+1].used
  {
    Ordered(bs, memSize);
    BlockPlace(bs, memSize, i);
    forall f | f in bs && f.start == bs[i].next ensures i + 1 < |bs| && f == bs[i+1] {
      var j :| 0 <= j < |bs| && bs[j] == f;
    }
  }

  /** NULL and pointers outside the heap change nothing. */
  lemma ForeignSpared(bs: seq<Block>, memSize: nat, p: Pointer, newsize: nat)
    requires WellFormed(bs, memSize) && newsize < 0x1_0000 && !InHeap(p, memSize)
    ensures Free(bs, memSize, p) == bs
    ensures Realloc(bs, memSize, p, newsize) == (if newsize <= 65532 && newsize > memSize then Null else p, bs)
  {
    RequestAligned(newsize);
  }

  // ----- the live blocks determine the list -----

  /** Blocks but the first start where it ends, or later. */
  lemma {:induction false} Ahead(a: seq<Block>, lo: nat, hi: nat, i: nat)
    requires Covers(a, lo, hi) && i < |a|
    ensures a[i].start >= if i == 0 then lo else a[0].next
    ensures a[0].next > lo
  {
    if i > 1 {
      Ahead(a, lo, hi, i - 1);
      assert a[i-1].next == a[i].start;
    } else if i == 1 {
      assert a[0].next == a[1].start;
    }
  }

  /** The list without its first block. */
  lemma Rest(a: seq<Block>, lo: nat, hi: nat)
    requires Covers(a, lo, hi) && a != [] && NoTwoFree(a)
    ensures Covers(a[1..], a[0].next, hi) && NoTwoFree(a[1..])
    ensures Live(a[1..]) == Live(a) - {a[0]}
  {
    var r := a[1..];
    assert a == [a[0]] + r;
    forall i | 0 <= i < |r| ensures r[i] != a[0] { Ahead(a, lo, hi, i + 1); }
  }

  /** A live block of the one list at the start of the other is its first block. */
  lemma SameFirst(a: seq<Block>, b: seq<Block>, lo: nat, hi: nat)
    requires Covers(a, lo, hi) && Covers(b, lo, hi) && a != [] && Live(a) == Live(b) && a[0].used
    ensures b != [] && b[0] == a[0]
  {
    assert a[0] in Live(b);
    var j :| 0 <= j < |b| && b[j] == a[0];
    Ahead(b, lo, hi, j);
  }

  /** Where a free block ends, a live one starts, or the heap ends. */
  lemma FreeEnd(a: seq<Block>, b: seq<Block>, lo: nat, hi: nat)
    requires Covers(a, lo, hi) && Covers(b, lo, hi) && NoTwoFree(a) && NoTwoFree(b) && Live(a) == Live(b)
    requires a != [] && b != [] && !a[0].used && !b[0].used
    ensures b[0].next <= a[0].next
  {
    if |a| == 1 {
      Ahead(b, lo, hi, |b| - 1);
      if |b| > 1 { assert b[0].used || b[1].used; assert b[1] in Live(b); }
    } else {
      assert a[0].used || a[0+1].used;
      assert a[0].next == a[0+1].start && a[1] in Live(b);
      var j :| 0 <= j < |b| && b[j] == a[1];
      Ahead(b, lo, hi, j);
    }
  }

  lemma SameFree(a: seq<Block>, b: seq<Block>, lo: nat, hi: nat)
    requires Covers(a, lo, hi) && Covers(b, lo, hi) && NoTwoFree(a) && NoTwoFree(b) && Live(a) == Live(b) && a != []
    ensures b != [] && b[0] == a[0]
  {
    Ahead(a, lo, hi, |a| - 1);
    if a[0].used {
      SameFirst(a, b, lo, hi);
    } else {
      if b[0].used { SameFirst(b, a, lo, hi); }
      FreeEnd(a, b, lo, hi);
      FreeEnd(b, a, lo, hi);
    }
  }

  lemma NoneLeft(b: seq<Block>, lo: nat, hi: nat)
    requires Covers([], lo, hi) && Covers(b, lo, hi)
    ensures b == []
  {
    if b != [] { Ahead(b, lo, hi, |b| - 1); }
  }

  lemma {:induction false} SameBlocks(a: seq<Block>, b: seq<Block>, lo: nat, hi: nat)
    requires Covers(a, lo, hi) && Covers(b, lo, hi) && NoTwoFree(a) && NoTwoFree(b) && Live(a) == Live(b)
    ensures a == b
    decreases |a|
  {
    hide Covers, NoTwoFree, Live;
    if a == [] {
      NoneLeft(b, lo, hi);
    } else {
      SameFree(a, b, lo, hi);
      Rest(a, lo, hi);
      Rest(b, lo, hi);
      SameBlocks(a[1..], b[1..], a[0].next, hi);
      assert a == [a[0]] + a[1..] && b == [b[0]] + b[1..];
    }
  }

  /** A heap is known once its live blocks are: what is between them is one free block each. */
  lemma LiveDetermines(a: seq<Block>, b: seq<Block>, memSize: nat)
    requires WellFormed(a, memSize) && WellFormed(b, memSize) && Live(a) == Live(b)
    ensures a == b
  {
    SameBlocks(a, b, 0, memSize);
  }
}
