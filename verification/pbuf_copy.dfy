/** pbuf_copy, pbuf_copy_partial and pbuf_take of src/lwip/core/pbuf.c. */
module PbufCopy {
  import opened Words
  import opened Errors
  import opened PbufTypes
  import opened PbufBytes
  import opened PbufWalk

  ghost predicate Apart(s: seq<Pbuf>, t: seq<Pbuf>) {
    forall i, j :: 0 <= i < |s| && 0 <= j < |t| ==> s[i].data != t[j].data
  }

  /** MEMCPY of n bytes between different buffers. */
  method Memcpy(dst: array<byte>, to: nat, src: array<byte>, from: nat, n: nat)
    requires dst != src && to + n <= dst.Length && from + n <= src.Length
    modifies dst
    ensures dst[..] == Patch(old(dst[..]), to, src[from..from+n])
  {
    var k := 0;
    while k < n
      invariant 0 <= k <= n
      invariant forall i :: 0 <= i < dst.Length ==>
        dst[i] == if to <= i < to + k then src[from + (i - to)] else old(dst[i])
    {
      dst[to + k] := src[from + k];
      k := k + 1;
    }
  }

  /** Writing d at offset k of record i of the chain s. */
  lemma HoldsPatched(s: seq<Pbuf>, c: seq<seq<byte>>, c': seq<seq<byte>>, i: nat, k: nat, d: seq<byte>, was: seq<byte>)
    requires |s| == |c| && i < |s| && k + |d| <= |c[i]| && c' == c[i := Patch(c[i], k, d)]
    requires forall j {:trigger c[j]} :: 0 <= j < |s| ==> s[j].len == |c[j]| <= s[j].data.Length
    requires forall j {:trigger c[j]} :: 0 <= j < |s| && j != i ==> c[j] == s[j].data[..|c[j]|]
    requires |c[i]| <= |was| && c[i] == was[..|c[i]|] && s[i].data[..] == Patch(was, k, d)
    ensures Holds(s, c')
  {
    var n := |c[i]|;
    assert s[i].data[..n] == s[i].data[..][..n] == Patch(was, k, d)[..n] == Patch(was[..n], k, d);
    forall j | 0 <= j < |s| ensures |c'[j]| <= s[j].data.Length && c'[j] == s[j].data[..|c'[j]|] &&
      s[j].len == |c'[j]| {
      if j != i { assert c'[j] == c[j]; }
    }
  }

  /** Copy n bytes into record i of s at offset k. */
  method Store(ghost s: seq<Pbuf>, ghost c: seq<seq<byte>>, ghost i: nat, q: Pbuf, k: nat, src: array<byte>,
      from: nat, n: nat)
      returns (ghost c': seq<seq<byte>>)
    requires Holds(s, c) && OwnData(s) && i < |s| && q == s[i] && k + n <= q.len && from + n <= src.Length &&
      src != q.data
    modifies q.data
    ensures Holds(s, c') && c' == c[i := Patch(c[i], k, src[from..from+n])]
  {
    ghost var was := q.data[..];
    assert c[i] == was[..|c[i]|];
    Memcpy(q.data, k, src, from, n);
    c' := c[i := Patch(c[i], k, src[from..from+n])];
    forall j | 0 <= j < |s| && j != i ensures c[j] == s[j].data[..|c[j]|] {
      assert s[j].data != q.data;
      assert c[j] == old(s[j].data[..|c[j]|]);
    }
    HoldsPatched(s, c, c', i, k, src[from..from+n], was);
  }

  /** A cursor into s: record i, or past the end. */
  ghost predicate At(p: Pbuf?, s: seq<Pbuf>, i: nat, off: nat)
    reads s`len
  {
    i <= |s| && p == (if i < |s| then s[i] else null) && off <= if i < |s| then s[i].len else 0
  }

  /** Where the cursor stands in the packet. */
  ghost function Place(c: seq<seq<byte>>, i: nat, off: nat): nat
    requires i <= |c|
  {
    Start(c, i) + off
  }

  /** The record after p, and where it starts. */
  lemma Onward(p: Pbuf, s: seq<Pbuf>, c: seq<seq<byte>>, i: nat)
    requires Linked(s) && Holds(s, c) && i < |s| && At(p, s, i, 0)
    ensures At(p.next, s, i + 1, 0) && i + 1 <= |c| && Start(c, i + 1) == Start(c, i) + p.len
  {
    StartStep(c, i);
    assert s[i].len == |c[i]|;
  }

  /** On to the next record when this one is done. */
  method Advance(p: Pbuf, off: nat, ghost s: seq<Pbuf>, ghost c: seq<seq<byte>>, ghost i: nat)
      returns (p': Pbuf?, off': nat, ghost i': nat)
    requires Linked(s) && Holds(s, c) && i < |s| && At(p, s, i, off)
    ensures At(p', s, i', off') && Place(c, i', off') == Place(c, i, off)
    ensures i' == (if off < p.len then i else i + 1) && off' == (if off < p.len then off else 0)
  {
    if off >= p.len {
      StartStep(c, i);
      p', off', i' := p.next, 0, i + 1;
    } else {
      p', off', i' := p, off, i;
    }
  }

  /** The first n bytes of from over those of to. */
  function Over(from: seq<byte>, to: seq<byte>, n: nat): seq<byte>
    requires n <= |from| && n <= |to|
  {
    from[..n] + to[n..]
  }

  /** One copy of n bytes between the cursors, both at place at, extends the copied prefix by n. */
  lemma CopyStep(from: seq<byte>, to: seq<byte>, cf: seq<seq<byte>>, ct: seq<seq<byte>>, j: nat, of: nat, i: nat,
      ot: nat, n: nat, at: nat, ct': seq<seq<byte>>)
    requires j < |cf| && i < |ct| && of + n <= |cf[j]| && ot + n <= |ct[i]| && Concat(cf) == from
    requires Place(cf, j, of) == at == Place(ct, i, ot) && at <= |from| <= |to| && Concat(ct) == Over(from, to, at)
    requires ct' == ct[i := Patch(ct[i], ot, cf[j][of..of+n])]
    ensures Place(cf, j, of + n) == at + n == Place(ct', i, ot + n)
    ensures at + n <= |from| && Concat(ct') == Over(from, to, at + n)
  {
    hide Patch, Concat, Start, Place, Over;
    PlaceMore(cf, j, of, n);
    ReadHere(cf, j, of, n);
    WriteHere(ct, i, ot, cf[j][of..of+n]);
    OverMore(from, to, at, n, cf[j][of..of+n]);
  }

  lemma PlaceMore(c: seq<seq<byte>>, i: nat, k: nat, n: nat)
    requires i <= |c|
    ensures Place(c, i, k + n) == Place(c, i, k) + n
  {
  }

  lemma ReadHere(c: seq<seq<byte>>, i: nat, k: nat, n: nat)
    requires i < |c| && k + n <= |c[i]|
    ensures Place(c, i, k) + n <= |Concat(c)| && c[i][k..k+n] == Concat(c)[Place(c, i, k)..Place(c, i, k) + n]
  {
    ReadAt(c, i, k, n);
  }

  lemma WriteHere(c: seq<seq<byte>>, i: nat, k: nat, d: seq<byte>)
    requires i < |c| && k + |d| <= |c[i]|
    ensures Place(c, i, k) + |d| <= |Concat(c)|
    ensures var c' := c[i := Patch(c[i], k, d)];
      Concat(c') == Patch(Concat(c), Place(c, i, k), d) && Place(c', i, k + |d|) == Place(c, i, k) + |d|
  {
    hide Concat, Patch;
    WriteAt(c, i, k, d);
    StartSame(c, i, Patch(c[i], k, d));
  }

  lemma OverMore(from: seq<byte>, to: seq<byte>, at: nat, n: nat, piece: seq<byte>)
    requires at + n <= |from| <= |to| && from[at..at+n] == piece
    ensures Patch(Over(from, to, at), at, piece) == Over(from, to, at + n)
  {
    PatchPrefix(from, to, at, n);
  }

  lemma StartSame(c: seq<seq<byte>>, i: nat, d: seq<byte>)
    requires i < |c|
    ensures Start(c[i := d], i) == Start(c, i)
  {
    assert c[i := d][..i] == c[..i];
  }

  /** The packet-queue check inside the loop. */
  predicate QueueAt(p: Pbuf?)
    reads p
  {
    p != null && p.len == p.totLen && p.next != null
  }

  ghost function Lens(s: seq<Pbuf>): (l: seq<nat>)
    reads s`len
    ensures |l| == |s| && forall k :: 0 <= k < |s| ==> l[k] == s[k].len
  {
    if s == [] then [] else [s[0].len] + Lens(s[1..])
  }

  /** With right totals, a total is the sum of the lengths from there on. */
  lemma {:induction false} TotalsLens(s: seq<Pbuf>, l: seq<nat>, i: nat)
    requires Totals(s) && |l| == |s| && (forall k {:trigger s[k].len} :: 0 <= k < |s| ==> l[k] == s[k].len) && i < |s|
    ensures s[i].totLen == Sum(l[i..])
    decreases |s| - i
  {
    assert l[i..][1..] == l[i+1..] && l[i] == s[i].len;
    if i + 1 < |s| { TotalsLens(s, l, i + 1); }
  }

  lemma QueueMeans(p: Pbuf?, s: seq<Pbuf>, i: nat, off: nat)
    requires Totals(s) && Linked(s) && At(p, s, i, off)
    ensures QueueAt(p) <==> Queued(Lens(s)[i..])
  {
    if i < |s| {
      var l := Lens(s);
      TotalsLens(s, l, i);
      assert s[i].next == if i + 1 < |s| then s[i+1] else null;
      assert l[i..][1..] == l[i+1..];
      AllZeroSum(l[i+1..]);
    }
  }

  /** The next record and the offset in it, as the walk has them. */
  lemma PastMeans(l: seq<nat>, i: nat, off: nat, n: nat)
    requires i < |l|
    ensures Past(l[i..], off, n) == (l[(if off + n < l[i] then i else i + 1)..], if off + n < l[i] then off + n else 0)
  {
    assert l[i..][1..] == l[i+1..];
  }

  /** A cursor with the chain it runs along and the bytes that chain holds. */
  datatype Cursor = Cursor(s: seq<Pbuf>, c: seq<seq<byte>>, i: nat, off: nat)

  ghost predicate Sits(p: Pbuf?, off: nat, u: Cursor)
    reads u.s`len, u.s`next, Data(u.s)
  {
    At(p, u.s, u.i, off) && u.off == off && Linked(u.s) && Holds(u.s, u.c)
  }

  /** n bytes of from have been copied over the start of to, and both cursors stand there. */
  ghost predicate Midway(to: seq<byte>, w: Cursor, u: Cursor, n: nat)
  {
    && w.i <= |w.c| && u.i <= |u.c| && n == Place(w.c, w.i, w.off) == Place(u.c, u.i, u.off)
    && n <= |Concat(u.c)| <= |to| == |Concat(w.c)| && Concat(w.c) == Over(Concat(u.c), to, n)
  }

  /** How much the current turn copies. */
  function Share(p: Pbuf, q: Pbuf, ot: nat, of: nat): int
    reads p, q
  {
    if p.len - ot >= q.len - of then q.len - of else p.len - ot
  }

  /** One turn of the loop of pbuf_copy, up to its checks: p and q are the two current records. */
  method CopyOne(p: Pbuf, q: Pbuf, ot: nat, of: nat, ghost to: seq<byte>, ghost w: Cursor, ghost u: Cursor,
      ghost n: nat)
      returns (p': Pbuf?, q': Pbuf?, ot': nat, of': nat, ghost w': Cursor, ghost u': Cursor, ghost n': nat)
    requires Sits(p, ot, w) && Sits(q, of, u) && Midway(to, w, u, n) && OwnData(w.s) && Apart(u.s, w.s)
    modifies Data(w.s)
    ensures Sits(p', ot', w') && Sits(q', of', u') && Midway(to, w', u', n')
    ensures w'.s == w.s && u'.s == u.s && u'.c == u.c && w'.i + u'.i > w.i + u.i && w'.i >= w.i && u'.i >= u.i
    ensures w'.i == (if ot + Share(p, q, ot, of) < p.len then w.i else w.i + 1) &&
      ot' == (if w'.i == w.i then ot + Share(p, q, ot, of) else 0)
    ensures u'.i == (if of + Share(p, q, ot, of) < q.len then u.i else u.i + 1) &&
      of' == (if u'.i == u.i then of + Share(p, q, ot, of) else 0)
  {
    hide Concat, Patch;
    ghost var ct;
    var len := if p.len - ot >= q.len - of then q.len - of else p.len - ot;
    ghost var next := w.c[w.i := Patch(w.c[w.i], ot, u.c[u.i][of..of+len])];
    CopyStep(Concat(u.c), to, u.c, w.c, u.i, of, w.i, ot, len, n, next);
    assert u.c[u.i] == q.data[..q.len] && q.data[..q.len][of..of+len] == q.data[of..of+len];
    ct := Store(w.s, w.c, w.i, p, ot, q.data, of, len);
    assert Holds(u.s, u.c);
    ghost var i, j;
    p', ot', i := Advance(p, ot + len, w.s, ct, w.i);
    q', of', j := Advance(q, of + len, u.s, u.c, u.i);
    w', u', n' := Cursor(w.s, ct, i, ot'), u.(i := j, off := of'), Place(u.c, j, of');
  }

  /** What pbuf_copy returns, if it does. */
  datatype CopyResult = Returns(err: int) | NullDereferenced

  function Said(way: Way): CopyResult {
    match way
    case Done => Returns(ERR_OK)
    case Refused => Returns(ERR_VAL)
    case Crashed => NullDereferenced
  }

  /** Where the walk is, with the cursors at these places. */
  ghost function WayOn(t: seq<nat>, i: nat, ot: nat, f: seq<nat>, j: nat, of: nat): Way {
    if i <= |t| && j < |f| && of <= f[j] && (i < |t| ==> ot <= t[i]) then Walk(t[i..], ot, f[j..], of) else Crashed
  }

  /** One turn of the walk. */
  lemma WalkTurn(t: seq<nat>, i: nat, ot: nat, f: seq<nat>, j: nat, of: nat, len: nat, i': nat, ot': nat, j': nat,
      of': nat)
    requires i < |t| && j < |f| && ot <= t[i] && of <= f[j]
    requires len == if t[i] - ot >= f[j] - of then f[j] - of else t[i] - ot
    requires i' == (if ot + len < t[i] then i else i + 1) && ot' == (if i' == i then ot + len else 0)
    requires j' == (if of + len < f[j] then j else j + 1) && of' == (if j' == j then of + len else 0)
    ensures WayOn(t, i, ot, f, j, of) ==
      if Queued(f[j'..]) || Queued(t[i'..]) then Refused else if j' == |f| then Done else WayOn(t, i', ot', f, j', of')
  {
    PastMeans(t, i, ot, len);
    PastMeans(f, j, of, len);
  }

  /** One turn of the loop, with its checks. */
  method CopyTurn(p: Pbuf, q: Pbuf, ot: nat, of: nat, ghost to: seq<byte>, ghost w: Cursor, ghost u: Cursor,
      ghost n: nat)
      returns (p': Pbuf?, q': Pbuf?, ot': nat, of': nat, refused: bool, ghost w': Cursor, ghost u': Cursor,
        ghost n': nat)
    requires Sits(p, ot, w) && Sits(q, of, u) && Midway(to, w, u, n) && OwnData(w.s) && Apart(u.s, w.s)
    requires Totals(w.s) && Totals(u.s)
    modifies Data(w.s)
    ensures Sits(p', ot', w') && Sits(q', of', u') && Midway(to, w', u', n')
    ensures w'.s == w.s && u'.s == u.s && u'.c == u.c && w'.i + u'.i > w.i + u.i && w'.i >= w.i && u'.i >= u.i
    ensures WayOn(Lens(w.s), w.i, ot, Lens(u.s), u.i, of) ==
      if refused then Refused else if q' == null then Done else WayOn(Lens(w.s), w'.i, ot', Lens(u.s), u'.i, of')
  {
    hide Concat, Totals, Holds, Linked, OwnData, Apart, WayOn, Queued, QueueAt, Midway;
    ghost var len := Share(p, q, ot, of);
    p', q', ot', of', w', u', n' := CopyOne(p, q, ot, of, to, w, u, n);
    WalkTurn(Lens(w.s), w.i, ot, Lens(u.s), u.i, of, len, w'.i, ot', u'.i, of');
    QueueMeans(p', w.s, w'.i, ot');
    QueueMeans(q', u.s, u'.i, of');
    refused := QueueAt(q') || QueueAt(p');
  }

  /** The loop of pbuf_copy. */
  method CopyAll(pTo: Pbuf, pFrom: Pbuf, ghost st: seq<Pbuf>, ghost ct: seq<seq<byte>>, ghost sf: seq<Pbuf>,
      ghost cf: seq<seq<byte>>)
      returns (r: CopyResult, ghost ct': seq<seq<byte>>, ghost n: nat)
    requires Sits(pTo, 0, Cursor(st, ct, 0, 0)) && Totals(st) && OwnData(st)
    requires Sits(pFrom, 0, Cursor(sf, cf, 0, 0)) && Totals(sf) && Apart(sf, st) && |Concat(cf)| <= |Concat(ct)|
    modifies Data(st)
    ensures Holds(st, ct') && Holds(sf, cf) && r == Said(WayOn(Lens(st), 0, 0, Lens(sf), 0, 0))
    ensures n <= |Concat(cf)| && Concat(ct') == Concat(cf)[..n] + Concat(ct)[n..]
    ensures r == Returns(ERR_OK) ==> n == |Concat(cf)|
  {
    hide Concat, Totals, Holds, Linked, OwnData, Apart, Start, WayOn;
    StartEnds(ct);
    StartEnds(cf);
    ghost var to, w, u := Concat(ct), Cursor(st, ct, 0, 0), Cursor(sf, cf, 0, 0);
    ghost var way, lt, lf := WayOn(Lens(st), 0, 0, Lens(sf), 0, 0), Lens(st), Lens(sf);
    n := 0;
    var p: Pbuf?, q: Pbuf?, ot: nat, of: nat := pTo, pFrom, 0, 0;
    while q != null
      invariant Sits(p, ot, w) && Sits(q, of, u) && Midway(to, w, u, n)
      invariant w.s == st && u.s == sf && u.c == cf && lt == Lens(st) && lf == Lens(sf)
      invariant way == if q == null then Done else WayOn(lt, w.i, ot, lf, u.i, of)
      decreases |sf| - u.i + |st| - w.i
    {
      if p == null {
        CrashHere(lt, w.i, ot, lf, u.i, of);
        return NullDereferenced, w.c, n;
      }
      var refused;
      p, q, ot, of, refused, w, u, n := CopyTurn(p, q, ot, of, to, w, u, n);
      if refused { return Returns(ERR_VAL), w.c, n; }
    }
    PastEnd(sf, cf, u.i);
    r, ct' := Returns(ERR_OK), w.c;
  }

  /** pbuf_copy of packets sf and st with right totals; cf and ct are what they hold. n bytes
      are copied over the start of the target, which keeps the rest: all of the source exactly
      when the result is ERR_OK. */
  method Copy(pTo: Pbuf?, pFrom: Pbuf?, ghost st: seq<Pbuf>, ghost ct: seq<seq<byte>>, ghost sf: seq<Pbuf>,
      ghost cf: seq<seq<byte>>)
      returns (r: CopyResult, ghost ct': seq<seq<byte>>, ghost n: nat)
    requires Sits(pTo, 0, Cursor(st, ct, 0, 0)) && Totals(st) && OwnData(st)
    requires Sits(pFrom, 0, Cursor(sf, cf, 0, 0)) && Totals(sf) && Apart(sf, st)
    modifies Data(st)
    ensures Holds(st, ct') && Holds(sf, cf)
    ensures r == Returns(ERR_ARG) <==> pTo == null || pFrom == null || pTo.totLen < pFrom.totLen
    ensures r == Returns(ERR_ARG) ==> ct' == ct
    ensures r != Returns(ERR_ARG) ==>
      n <= |Concat(cf)| <= |Concat(ct)| && Concat(ct') == Concat(cf)[..n] + Concat(ct)[n..]
    ensures r == Returns(ERR_OK) ==> n == |Concat(cf)|
    ensures r != Returns(ERR_ARG) ==> st != [] && sf != []
    ensures r == Returns(ERR_VAL) <==> r != Returns(ERR_ARG) && Refuses(Lens(st), Lens(sf))
    ensures r == NullDereferenced <==> r != Returns(ERR_ARG) && Crashes(Lens(st), Lens(sf))
    ensures r == NullDereferenced || r == Returns(ERR_ARG) || r == Returns(ERR_VAL) || r == Returns(ERR_OK)
  {
    hide Concat, Totals, Holds, Linked, OwnData, Apart, Refuses, Crashes, WayOn;
    if pTo == null || pFrom == null || pTo.totLen < pFrom.totLen { return Returns(ERR_ARG), ct, 0; }
    TotalBytes(st, ct);
    TotalBytes(sf, cf);
    LensSettle(st, sf);
    r, ct', n := CopyAll(pTo, pFrom, st, ct, sf, cf);
  }

  lemma CrashHere(t: seq<nat>, i: nat, ot: nat, f: seq<nat>, j: nat, of: nat)
    requires i == |t|
    ensures WayOn(t, i, ot, f, j, of) == Crashed
  {
  }

  /** Which way it will go is settled by the lengths. */
  lemma LensSettle(st: seq<Pbuf>, sf: seq<Pbuf>)
    requires st != [] && sf != [] && Totals(st) && Totals(sf) && st[0].totLen >= sf[0].totLen
    ensures var way := WayOn(Lens(st), 0, 0, Lens(sf), 0, 0);
      && (way.Refused? <==> Refuses(Lens(st), Lens(sf))) && (way.Crashed? <==> Crashes(Lens(st), Lens(sf)))
  {
    hide Walk, Refuses, Crashes, Sum, Lens;
    var t, f := Lens(st), Lens(sf);
    TotalsLens(st, t, 0);
    TotalsLens(sf, f, 0);
    assert t[0..] == t && f[0..] == f;
    WalkExactly(t, f);
    CrashIsNoRefusal(t, f);
  }

  /** The bytes there are to copy from offset on, at most len. */
  function Clipped(f: seq<byte>, offset: nat, len: nat): (r: seq<byte>)
    ensures |r| == if offset >= |f| then 0 else if len <= |f| - offset then len else |f| - offset
    ensures forall k :: 0 <= k < |r| ==> r[k] == f[offset + k]
  {
    if offset >= |f| then [] else f[offset..Min(offset + len, |f|)]
  }

  function Slice(f: seq<byte>, o: nat, n: nat): (r: seq<byte>)
    ensures |r| <= n
  {
    if o + n <= |f| then f[o..o+n] else []
  }

  lemma PatchGrows(a: seq<byte>, f: seq<byte>, o: nat, n: nat, m: nat)
    requires o + n + m <= |f| && n + m <= |a|
    ensures Patch(Patch(a, 0, Slice(f, o, n)), n, f[o+n..o+n+m]) == Patch(a, 0, Slice(f, o, n + m))
  {
    assert f[o..o+n] + f[o+n..o+n+m] == f[o..o+n+m];
  }

  lemma SliceClipped(f: seq<byte>, o: nat, len: nat, left: nat)
    requires left <= len && (left > 0 ==> o + left <= |f|) && (left < len ==> o + left >= |f|)
    ensures Slice(f, o, left) == Clipped(f, o, len) && |Clipped(f, o, len)| == left
  {
  }

  /** The copying branch of pbuf_copy_partial: from record i at offset, left bytes are there already. */
  method CopyOut(p: Pbuf, dst: array<byte>, left: nat, offset: nat, len: nat,
      ghost s: seq<Pbuf>, ghost c: seq<seq<byte>>, ghost i: nat, ghost was: seq<byte>,
        ghost offset0: nat) returns (n: nat)
    requires At(p, s, i, offset) && Holds(s, c) && dst !in Data(s) && left + len <= dst.Length == |was|
    requires Start(c, i) + offset == offset0 + left && dst[..] == Patch(was, 0, Slice(Concat(c), offset0, left))
    modifies dst
    ensures n == (if p.len - offset > len then len else p.len - offset) && offset0 + left + n <= |Concat(c)|
    ensures dst[..] == Patch(was, 0, Slice(Concat(c), offset0, left + n))
  {
    hide Concat, Patch, Slice;
    n := if p.len - offset > len then len else p.len - offset;
    ReadAt(c, i, offset, n);
    assert c[i][offset..offset+n] == p.data[offset..offset+n];
    PatchGrows(was, Concat(c), offset0, left, n);
    Memcpy(dst, left, p.data, offset, n);
  }

  /** In the loop of pbuf_copy_partial: p is record i, left bytes are in dst, len are still asked
      for, and the first of them is offset bytes on. */
  ghost predicate Partway(p: Pbuf?, left: nat, len: nat, offset: nat,
      s: seq<Pbuf>, c: seq<seq<byte>>, i: nat, offset0: nat, len0: nat)
    reads s`len, s`next, Data(s)
  {
    && At(p, s, i, 0) && Linked(s) && Holds(s, c) && left + len == len0
    && (len > 0 ==> i <= |c| && Start(c, i) + offset == offset0 + left && (offset > 0 ==> left == 0))
    && (left > 0 ==> offset0 + left <= |Concat(c)|)
  }

  lemma PartwayDone(p: Pbuf?, left: nat, len: nat, offset: nat, s: seq<Pbuf>, c: seq<seq<byte>>, i: nat, offset0: nat,
      len0: nat)
    requires Partway(p, left, len, offset, s, c, i, offset0, len0) && (len == 0 || p == null)
    ensures Slice(Concat(c), offset0, left) == Clipped(Concat(c), offset0, len0) &&
      |Clipped(Concat(c), offset0, len0)| == left
  {
    hide Concat, Linked, Start, Slice, Clipped;
    if len > 0 { PastEnd(s, c, i); }
    SliceClipped(Concat(c), offset0, len0, left);
  }

  /** One turn of it. */
  method PartTurn(p: Pbuf, dst: array<byte>, left: nat, len: nat, offset: nat,
      ghost s: seq<Pbuf>, ghost c: seq<seq<byte>>, ghost i: nat, ghost was: seq<byte>, ghost offset0: nat,
        ghost len0: nat)
      returns (n: nat, offset': nat)
    requires Partway(p, left, len, offset, s, c, i, offset0, len0) && len > 0 && dst !in Data(s) &&
      len0 <= dst.Length == |was|
    requires dst[..] == Patch(was, 0, Slice(Concat(c), offset0, left))
    modifies dst
    ensures n <= len && i < |s| && Partway(p.next, left + n, len - n, offset', s, c, i + 1, offset0, len0)
    ensures dst[..] == Patch(was, 0, Slice(Concat(c), offset0, left + n))
  {
    hide Concat, Patch, Slice, Start;
    Onward(p, s, c, i);
    if offset != 0 && offset >= p.len {
      n, offset' := 0, offset - p.len;
    } else {
      n := CopyOut(p, dst, left, offset, len, s, c, i, was, offset0);
      offset' := 0;
    }
  }

  /** pbuf_copy_partial: the slice of the packet that starts at offset, clipped to len and to
      the end of the packet, into dst. */
  method CopyPartial(buf: Pbuf?, dst: array?<byte>, len0: nat, offset0: nat, ghost s: seq<Pbuf>,
      ghost c: seq<seq<byte>>)
      returns (copied: nat)
    requires Sits(buf, 0, Cursor(s, c, 0, 0))
    requires dst != null ==> len0 <= dst.Length && dst !in Data(s)
    modifies dst
    ensures copied == if buf == null || dst == null then 0 else |Clipped(Concat(c), offset0, len0)|
    ensures dst != null && buf != null ==> dst[..] == Patch(old(dst[..]), 0, Clipped(Concat(c), offset0, len0))
    ensures dst != null && buf == null ==> dst[..] == old(dst[..])
  {
    hide Concat, Patch, Holds, Linked, Slice, Clipped, Partway, Start;
    copied := 0;
    if buf == null || dst == null { return; }
    ghost var was, i := dst[..], 0;
    var left: nat, len: nat, offset: nat := 0, len0, offset0;
    PartwayStart(buf, len, offset, s, c);
    PatchNothing(was, Concat(c), offset0);
    var p: Pbuf? := buf;
    while len != 0 && p != null
      invariant Partway(p, left, len, offset, s, c, i, offset0, len0) && left == copied && left + len == len0
      invariant dst[..] == Patch(was, 0, Slice(Concat(c), offset0, left))
      decreases |s| - i
    {
      var n;
      n, offset := PartTurn(p, dst, left, len, offset, s, c, i, was, offset0, len0);
      copied := copied + n;
      left := left + n;
      len := len - n;
      p := p.next;
      i := i + 1;
    }
    PartwayDone(p, left, len, offset, s, c, i, offset0, len0);
  }

  lemma PartwayStart(p: Pbuf, len: nat, offset: nat, s: seq<Pbuf>, c: seq<seq<byte>>)
    requires Sits(p, 0, Cursor(s, c, 0, 0))
    ensures Partway(p, 0, len, offset, s, c, 0, offset, len)
  {
    StartEnds(c);
  }

  lemma PatchNothing(a: seq<byte>, f: seq<byte>, o: nat)
    ensures Slice(f, o, 0) == [] && Patch(a, 0, Slice(f, o, 0)) == a
  {
  }

  /** One turn of the loop of pbuf_take: fill record i, from src[copied] on. */
  method TakeOne(p: Pbuf, src: array<byte>, total: nat, copied: nat,
      ghost s: seq<Pbuf>, ghost c: seq<seq<byte>>, ghost i: nat, ghost from: seq<byte>, ghost to: seq<byte>)
      returns (n: nat, ghost c': seq<seq<byte>>)
    requires At(p, s, i, 0) && Holds(s, c) && OwnData(s) && src !in Data(s)
    requires copied + total <= src.Length && from == src[..copied+total] && |from| <= |to| == |Concat(c)|
    requires Start(c, i) == copied && Concat(c) == Over(from, to, copied)
    modifies p.data
    ensures Holds(s, c') && n == (if total > p.len then p.len else total)
    ensures i < |c'| && Start(c', i) == copied && |Concat(c')| == |to|
    ensures Concat(c') == Over(from, to, copied + n)
  {
    hide Concat, Patch;
    n := if total > p.len then p.len else total;
    WriteAt(c, i, 0, src[copied..copied+n]);
    PatchPrefix(from, to, copied, n);
    assert from[copied..copied+n] == src[copied..copied+n];
    c' := Store(s, c, i, p, 0, src, copied, n);
    assert c'[..i] == c[..i];
  }

  /** The loop of pbuf_take. */
  method TakeAll(buf: Pbuf, src: array<byte>, len: nat, ghost s: seq<Pbuf>, ghost c: seq<seq<byte>>)
      returns (ghost c': seq<seq<byte>>)
    requires At(buf, s, 0, 0) && Linked(s) && Holds(s, c) && OwnData(s)
    requires len <= src.Length && src !in Data(s) && len <= |Concat(c)|
    modifies Data(s)
    ensures Holds(s, c') && Concat(c') == Over(old(src[..len]), Concat(c), len)
  {
    hide Concat, Holds, Linked, OwnData, Over;
    c' := c;
    ghost var from, to, i := src[..len], Concat(c), 0;
    StartEnds(c);
    OverNothing(from, to);
    var total: nat, copied: nat, p: Pbuf? := len, 0, buf;
    while total != 0
      invariant At(p, s, i, 0) && Holds(s, c') && total + copied == len <= |to| == |Concat(c')|
      invariant total > 0 ==> i <= |c'| && Start(c', i) == copied
      invariant Concat(c') == Over(from, to, copied) && src[..len] == from
      decreases |s| - i
    {
      assert i < |s| by { if i >= |s| { PastEnd(s, c', i); } }
      var n;
      n, c' := TakeOne(p, src, total, copied, s, c', i, from, to);
      Onward(p, s, c', i);
      total := total - n;
      copied := copied + n;
      p := p.next;
      i := i + 1;
    }
  }

  lemma OverNothing(from: seq<byte>, to: seq<byte>)
    ensures Over(from, to, 0) == to
  {
  }

  lemma PastEnd(s: seq<Pbuf>, c: seq<seq<byte>>, i: nat)
    requires Holds(s, c) && |s| <= i <= |c|
    ensures Start(c, i) == |Concat(c)|
  {
    StartEnds(c);
  }

  /** pbuf_take: fill the packet with len bytes from src. For missing arguments the result is
      0, which is ERR_OK, although nothing was taken. */
  method Take(buf: Pbuf?, src: array?<byte>, len: nat, ghost s: seq<Pbuf>, ghost c: seq<seq<byte>>)
      returns (r: int, ghost c': seq<seq<byte>>)
    requires Sits(buf, 0, Cursor(s, c, 0, 0)) && Totals(s) && OwnData(s)
    requires src != null ==> len <= src.Length && src !in Data(s)
    modifies Data(s)
    ensures Holds(s, c')
    ensures r == if buf == null || src == null then 0 else if buf.totLen < len then ERR_ARG else ERR_OK
    ensures buf == null || src == null || buf.totLen < len ==> c' == c
    ensures buf != null && src != null && len <= buf.totLen ==>
      len <= |Concat(c)| && Concat(c') == old(src[..len]) + Concat(c)[len..]
  {
    c' := c;
    if buf == null || src == null { return 0, c'; }
    if buf.totLen < len { return ERR_ARG, c'; }
    TotalBytes(s, c);
    c' := TakeAll(buf, src, len, s, c);
    assert old(src[..len])[..len] == old(src[..len]);
    r := ERR_OK;
  }

  /** What pbuf_take put into a packet, pbuf_copy_partial gets back. */
  method TakeThenCopy(buf: Pbuf, src: array<byte>, dst: array<byte>, len: nat, ghost s: seq<Pbuf>,
      ghost c: seq<seq<byte>>) returns (copied: nat)
    requires Sits(buf, 0, Cursor(s, c, 0, 0)) && Totals(s) && OwnData(s)
    requires len <= src.Length && src !in Data(s) && len <= dst.Length && dst !in Data(s) && len <= buf.totLen
    modifies Data(s), dst
    ensures copied == len && dst[..len] == old(src[..len])
  {
    var r, c' := Take(buf, src, len, s, c);
    copied := CopyPartial(buf, dst, len, 0, s, c');
    assert Clipped(Concat(c'), 0, len) == old(src[..len]);
  }
}
