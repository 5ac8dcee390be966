/** How the block list is written into the bytes of `ram`. */
module HeapBytes {
  import opened Words
  import opened HeapBlocks

  // A header is six bytes: next and prev, low byte first, and the used flag.

  function Next(m: seq<byte>, o: nat): nat
    requires o + HDR <= |m|
  {
    m[o] as nat + 256 * m[o+1] as nat
  }

  function Prev(m: seq<byte>, o: nat): nat
    requires o + HDR <= |m|
  {
    m[o+2] as nat + 256 * m[o+3] as nat
  }

  function Used(m: seq<byte>, o: nat): bool
    requires o + HDR <= |m|
  {
    m[o+4] != 0
  }

  function PutNext(m: seq<byte>, o: nat, v: nat): (r: seq<byte>)
    requires o + HDR <= |m| && v < 0x1_0000
    ensures |r| == |m| && Next(r, o) == v
    ensures forall k :: 0 <= k < |m| && k != o && k != o + 1 ==> r[k] == m[k]
  {
    m[o := (v % 256) as byte][o+1 := (v / 256) as byte]
  }

  function PutPrev(m: seq<byte>, o: nat, v: nat): (r: seq<byte>)
    requires o + HDR <= |m| && v < 0x1_0000
    ensures |r| == |m| && Prev(r, o) == v
    ensures forall k :: 0 <= k < |m| && k != o + 2 && k != o + 3 ==> r[k] == m[k]
  {
    m[o+2 := (v % 256) as byte][o+3 := (v / 256) as byte]
  }

  function PutUsed(m: seq<byte>, o: nat, v: bool): (r: seq<byte>)
    requires o + HDR <= |m|
    ensures |r| == |m| && Used(r, o) == v
    ensures forall k :: 0 <= k < |m| && k != o + 4 ==> r[k] == m[k]
  {
    m[o+4 := if v then 1 else 0]
  }

  /** What block i's prev field has to say, when the block before the list is at prev. */
  function PrevOf(bs: seq<Block>, i: nat, prev: nat): nat
    requires i <= |bs|
  {
    if i == 0 then prev else bs[i-1].start
  }

  ghost predicate Header(m: seq<byte>, b: Block, prev: nat) {
    && b.start + HDR <= |m|
    && Next(m, b.start) == b.next && Used(m, b.start) == b.used && Prev(m, b.start) == prev
  }

  /** m holds the headers of bs, the first of them after a block at prev. */
  ghost predicate SpellsFrom(m: seq<byte>, bs: seq<Block>, prev: nat) {
    forall i {:trigger PrevOf(bs, i, prev)} :: 0 <= i < |bs| ==> Header(m, bs[i], PrevOf(bs, i, prev))
  }

  /** The end marker at memSize, whose own prev is not maintained. */
  ghost predicate EndMarker(m: seq<byte>, memSize: nat) {
    memSize + HDR <= |m| && Next(m, memSize) == memSize && Used(m, memSize)
  }

  ghost predicate Spells(m: seq<byte>, bs: seq<Block>, memSize: nat) {
    EndMarker(m, memSize) && SpellsFrom(m, bs, 0)
  }

  /** Byte k belongs to the payload of one of these blocks. */
  ghost predicate InPayload(live: set<Block>, k: int) {
    exists b :: b in live && b.Payload() <= k < b.next
  }

  /** m' differs from m only in [lo, hi) and in the prev field at hi. */
  ghost predicate OnlyBetween(m: seq<byte>, m': seq<byte>, lo: nat, hi: nat) {
    && |m'| == |m|
    && forall k :: 0 <= k < |m| && !(lo <= k < hi) && k != hi + 2 && k != hi + 3 ==> m'[k] == m[k]
  }

  lemma HeaderKept(m: seq<byte>, m': seq<byte>, lo: nat, hi: nat, b: Block, prev: nat)
    requires OnlyBetween(m, m', lo, hi) && lo <= hi && Header(m, b, prev)
    requires b.start + HDR <= lo || hi + HDR <= b.start
    ensures Header(m', b, prev)
  {
  }

  lemma HeaderAfter(m: seq<byte>, m': seq<byte>, lo: nat, hi: nat)
    requires OnlyBetween(m, m', lo, hi) && lo <= hi && hi + HDR <= |m|
    ensures Next(m', hi) == Next(m, hi) && Used(m', hi) == Used(m, hi)
  {
  }

  /** m' has the headers of mid in place of those of blocks i..j of bs. */
  ghost predicate Overwrites(m: seq<byte>, m': seq<byte>, bs: seq<Block>, memSize: nat, i: nat, j: nat,
      mid: seq<Block>) {
    && Tiles(bs, memSize) && Spells(m, bs, memSize)
    && i < j <= |bs| && |mid| > 0 && Covers(mid, bs[i].start, bs[j-1].next)
    && OnlyBetween(m, m', bs[i].start, bs[j-1].next)
    && SpellsFrom(m', mid, PrevOf(bs, i, 0))
    && (j < |bs| ==> bs[j].start + HDR <= |m| && Prev(m', bs[j].start) == mid[|mid|-1].start)
  }

  lemma BeforeKept(m: seq<byte>, m': seq<byte>, bs: seq<Block>, memSize: nat, i: nat, j: nat, mid: seq<Block>, k: nat)
    requires Overwrites(m, m', bs, memSize, i, j, mid) && k < i
    ensures Header(m', bs[k], PrevOf(bs, k, 0))
  {
    OrderedPair(bs, memSize, k, i);
    assert bs[i].start <= bs[j-1].next by { Ordered(bs, memSize); }
    HeaderKept(m, m', bs[i].start, bs[j-1].next, bs[k], PrevOf(bs, k, 0));
  }

  lemma AfterKept(m: seq<byte>, m': seq<byte>, bs: seq<Block>, memSize: nat, i: nat, j: nat, mid: seq<Block>, k: nat)
    requires Overwrites(m, m', bs, memSize, i, j, mid) && j <= k < |bs|
    ensures Header(m', bs[k], if k == j then mid[|mid|-1].start else PrevOf(bs, k, 0))
  {
    var lo, hi := bs[i].start, bs[j-1].next;
    assert lo <= hi by { Ordered(bs, memSize); }
    assert Header(m, bs[k], PrevOf(bs, k, 0));
    if k == j {
      assert bs[j-1].next == bs[j].start;
      HeaderAfter(m, m', lo, hi);
    } else {
      OrderedPair(bs, memSize, j, k);
      HeaderKept(m, m', lo, hi, bs[k], PrevOf(bs, k, 0));
    }
  }

  /** Writing the headers of mid in place of blocks i..j, and the prev field after them,
      spells the spliced list. */
  lemma SpliceSpells(m: seq<byte>, m': seq<byte>, bs: seq<Block>, memSize: nat, i: nat, j: nat, mid: seq<Block>)
    requires Overwrites(m, m', bs, memSize, i, j, mid)
    ensures Spells(m', Splice(bs, i, j, mid), memSize)
  {
    hide Header, EndMarker, OnlyBetween;
    var r := Splice(bs, i, j, mid);
    forall k | 0 <= k < |r| ensures Header(m', r[k], PrevOf(r, k, 0)) {
      if k < i {
        BeforeKept(m, m', bs, memSize, i, j, mid, k);
        assert r[k] == bs[k] && PrevOf(r, k, 0) == PrevOf(bs, k, 0);
      } else if k < i + |mid| {
        assert r[k] == mid[k-i] && PrevOf(r, k, 0) == PrevOf(mid, k - i, PrevOf(bs, i, 0));
      } else {
        var k' := k - |mid| - i + j;
        AfterKept(m, m', bs, memSize, i, j, mid, k');
        assert r[k] == bs[k'] && PrevOf(r, k, 0) == if k' == j then mid[|mid|-1].start else bs[k'-1].start;
      }
    }
    assert bs[i].start <= bs[j-1].next by { Ordered(bs, memSize); }
    EndMarkerKept(m, m', bs, memSize, bs[i].start, j);
  }

  lemma EndMarkerKept(m: seq<byte>, m': seq<byte>, bs: seq<Block>, memSize: nat, lo: nat, j: nat)
    requires Tiles(bs, memSize) && EndMarker(m, memSize) && 0 < j <= |bs| && lo <= bs[j-1].next
    requires OnlyBetween(m, m', lo, bs[j-1].next)
    ensures EndMarker(m', memSize)
  {
    Ordered(bs, memSize);
    if j < |bs| { assert bs[j-1].next == bs[j].start; }
    else { HeaderAfter(m, m', lo, memSize); }
  }

  /** ... and changes no byte of a live payload outside mid. */
  lemma SplicePayload(m: seq<byte>, m': seq<byte>, bs: seq<Block>, memSize: nat, i: nat, j: nat, mid: seq<Block>)
    requires Tiles(bs, memSize) && memSize <= |m|
    requires i < j <= |bs| && |mid| > 0
    requires OnlyBetween(m, m', bs[i].start, bs[j-1].next)
    requires forall k :: InPayload(Live(mid), k) && 0 <= k < |m| ==> m'[k] == m[k]
    ensures forall k :: InPayload(Live(Splice(bs, i, j, mid)), k) && 0 <= k < |m| ==> m'[k] == m[k]
  {
    hide Tiles;
    var r := Splice(bs, i, j, mid);
    forall k | InPayload(Live(r), k) && 0 <= k < |m| ensures m'[k] == m[k] {
      var b :| b in Live(r) && b.Payload() <= k < b.next;
      var q :| 0 <= q < |r| && r[q] == b;
      if i <= q < i + |mid| {
        assert b == mid[q-i] && b in Live(mid);
        assert InPayload(Live(mid), k);
      } else {
        var l := if q < i then q else q - |mid| - i + j;
        assert b == bs[l];
        PayloadKept(m, m', bs, memSize, i, j, l);
      }
    }
  }

  lemma PayloadKept(m: seq<byte>, m': seq<byte>, bs: seq<Block>, memSize: nat, i: nat, j: nat, l: nat)
    requires Tiles(bs, memSize) && memSize <= |m| && i < j <= |bs| && l < |bs| && (l < i || j <= l)
    requires OnlyBetween(m, m', bs[i].start, bs[j-1].next)
    ensures forall k :: bs[l].Payload() <= k < bs[l].next && k < |m| ==> |m'| == |m| && m'[k] == m[k]
  {
    Ordered(bs, memSize);
  }
}
