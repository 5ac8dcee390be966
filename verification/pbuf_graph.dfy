/** Reference counting in src/lwip/core/pbuf.c, on the graph of live pbufs: who links to
    whom, each count, and how many references callers hold. */
module PbufGraph {
  import opened Words
  import opened PbufTypes

  datatype Graph = Graph(next: map<Pbuf, Pbuf?>, ref: map<Pbuf, nat>, held: map<Pbuf, nat>)

  /** The live pbufs whose next is p. */
  ghost function Preds(g: Graph, p: Pbuf): set<Pbuf> { set q | q in g.next && g.next[q] == p }

  /** s lists the records from p to the end of its chain. */
  ghost predicate IsChain(g: Graph, p: Pbuf?, older s: seq<Pbuf>) {
    if s == [] then p == null
    else p == s[0] && s[0] in g.next && IsChain(g, g.next[s[0]], s[1..])
  }

  ghost predicate Ends(g: Graph, p: Pbuf) { exists s :: IsChain(g, p, s) }

  ghost predicate Shaped(g: Graph) {
    g.ref.Keys == g.next.Keys && g.held.Keys == g.next.Keys
  }

  /** p's count is the callers' references plus the links to it, plus one it is about to
      lose when it is extra. */
  ghost predicate CountOk(g: Graph, p: Pbuf, extra: Pbuf?) {
    p in g.ref && p in g.held && g.ref[p] == g.held[p] + |Preds(g, p)| + (if p == extra then 1 else 0)
  }

  ghost predicate Counted(g: Graph, extra: Pbuf?) {
    && Shaped(g)
    && (forall p {:trigger CountOk(g, p, extra)} :: p in g.next ==> CountOk(g, p, extra))
    && (forall p {:trigger Ends(g, p)} :: p in g.next ==> Ends(g, p))
  }

  /** The invariant of the whole module: counts are exact, chains end. */
  ghost predicate Inv(g: Graph) { Counted(g, null) && NoneDead(g) }

  /** Every live pbuf is referenced at least once. */
  ghost predicate NoneDead(g: Graph) {
    forall p :: p in g.ref ==> g.ref[p] > 0
  }

  // ----- the operations -----

  function Without(g: Graph, p: Pbuf): Graph {
    Graph(g.next - {p}, g.ref - {p}, g.held - {p})
  }

  /** The loop of pbuf_free: p loses a count; at zero it dies and its successor loses one. */
  ghost function Release(g: Graph, p: Pbuf?): (r: Graph)
    requires Shaped(g)
    ensures Shaped(r)
    decreases g.next.Keys
  {
    if p == null || p !in g.next || g.ref[p] == 0 then g
    else if g.ref[p] > 1 then g.(ref := g.ref[p := g.ref[p] - 1])
    else Release(Without(g, p), g.next[p])
  }

  /** One turn of that loop, and the pbuf next to lose a count. */
  function Step(g: Graph, p: Pbuf): Graph
    requires p in g.ref && g.ref[p] > 0
  {
    if g.ref[p] == 1 then Without(g, p) else g.(ref := g.ref[p := g.ref[p] - 1])
  }

  function After(g: Graph, p: Pbuf): Pbuf?
    requires p in g.ref && p in g.next
  {
    if g.ref[p] == 1 then g.next[p] else null
  }

  ghost function Free(g: Graph, p: Pbuf): Graph
    requires Shaped(g) && p in g.next && g.held[p] > 0
  {
    Release(g.(held := g.held[p := g.held[p] - 1]), p)
  }

  function AddRef(g: Graph, p: Pbuf): Graph
    requires p in g.ref && p in g.held
  {
    g.(ref := g.ref[p := g.ref[p] + 1], held := g.held[p := g.held[p] + 1])
  }

  /** pbuf_ref as it is: the count is a u16_t. */
  function AddRefU16(g: Graph, p: Pbuf): Graph
    requires p in g.ref && p in g.held
  {
    g.(ref := g.ref[p := (g.ref[p] + 1) % U16], held := g.held[p := g.held[p] + 1])
  }

  /** pbuf_cat: last, the end of the head chain, gets the link; the caller's reference to t
      becomes that link. */
  function Cat(g: Graph, last: Pbuf, t: Pbuf): Graph
    requires t in g.held && g.held[t] > 0
  {
    g.(next := g.next[last := t], held := g.held[t := g.held[t] - 1])
  }

  /** pbuf_dechain. */
  ghost function Dechain(g: Graph, p: Pbuf): Graph
    requires Shaped(g) && p in g.next
  {
    if g.next[p] == null then g else Release(g.(next := g.next[p := null]), g.next[p])
  }

  /** A fresh pbuf whose one reference is the caller's. */
  function Alloc(g: Graph, p: Pbuf): Graph {
    Graph(g.next[p := null], g.ref[p := 1], g.held[p := 1])
  }

  // ----- facts about chains -----

  lemma {:induction false} ChainUnique(g: Graph, p: Pbuf?, s: seq<Pbuf>, t: seq<Pbuf>)
    requires IsChain(g, p, s) && IsChain(g, p, t)
    ensures s == t
  {
    if s != [] {
      ChainUnique(g, g.next[s[0]], s[1..], t[1..]);
      assert s == [s[0]] + s[1..] && t == [t[0]] + t[1..];
    }
  }

  /** The chain from a record inside a chain is the rest of it. */
  lemma {:induction false} ChainRest(g: Graph, p: Pbuf?, s: seq<Pbuf>, i: nat)
    requires IsChain(g, p, s) && i <= |s|
    ensures IsChain(g, if i < |s| then s[i] else null, s[i..])
  {
    if i > 0 {
      ChainRest(g, g.next[s[0]], s[1..], i - 1);
      assert s[1..][i-1..] == s[i..];
    }
  }

  lemma ChainDistinct(g: Graph, p: Pbuf?, s: seq<Pbuf>, i: nat, j: nat)
    requires IsChain(g, p, s) && i < j < |s|
    ensures s[i] != s[j]
  {
    ChainRest(g, p, s, i);
    ChainRest(g, p, s, j);
    if s[i] == s[j] { ChainUnique(g, s[i], s[i..], s[j..]); }
  }

  /** A chain, index by index. */
  lemma ChainFacts(g: Graph, p: Pbuf?, s: seq<Pbuf>)
    requires IsChain(g, p, s)
    ensures p == if s == [] then null else s[0]
    ensures forall i {:trigger g.next[s[i]]} :: 0 <= i < |s| ==>
      s[i] in g.next && g.next[s[i]] == if i + 1 < |s| then s[i+1] else null
    ensures forall i :: 0 <= i < |s| ==> s[i] in g.next
    ensures forall i, j :: 0 <= i < j < |s| ==> s[i] != s[j]
  {
    forall i | 0 <= i < |s| ensures s[i] in g.next && g.next[s[i]] == if i + 1 < |s| then s[i+1] else null {
      ChainRest(g, p, s, i);
      assert s[i..][1..] == s[i+1..];
      ChainRest(g, p, s, i + 1);
    }
    forall i, j | 0 <= i < j < |s| ensures s[i] != s[j] { ChainDistinct(g, p, s, i, j); }
  }

  /** Graphs that agree on the links of a chain have that chain. */
  lemma {:induction false} ChainSame(g: Graph, g': Graph, p: Pbuf?, s: seq<Pbuf>)
    requires IsChain(g, p, s)
    requires forall q :: q in s ==> q in g.next && q in g'.next && g'.next[q] == g.next[q]
    ensures IsChain(g', p, s)
  {
    if s != [] { ChainSame(g, g', g.next[s[0]], s[1..]); }
  }

  lemma {:induction false} ChainLive(g: Graph, p: Pbuf?, s: seq<Pbuf>)
    requires IsChain(g, p, s)
    ensures forall q :: q in s ==> q in g.next
  {
    if s != [] { ChainLive(g, g.next[s[0]], s[1..]); }
  }

  /** A record nobody links to is in no chain but its own. */
  lemma {:induction false} ChainAvoids(g: Graph, p: Pbuf?, s: seq<Pbuf>, d: Pbuf)
    requires IsChain(g, p, s) && Preds(g, d) == {} && p != d
    ensures d !in s
  {
    if s != [] {
      assert s[0] !in Preds(g, d);
      ChainAvoids(g, g.next[s[0]], s[1..], d);
    }
  }

  // ----- the invariant is kept -----

  lemma WithoutKeeps(g: Graph, d: Pbuf)
    requires Counted(g, d) && d in g.next && g.ref[d] == 1
    ensures Counted(Without(g, d), g.next[d])
    ensures g.next[d] != null ==> g.next[d] in Without(g, d).next
  {
    var g' := Without(g, d);
    assert CountOk(g, d, d) && Preds(g, d) == {};
    forall p | p in g'.next ensures CountOk(g', p, g.next[d]) {
      assert CountOk(g, p, d);
      if g.next[d] == p {
        assert Preds(g, p) == Preds(g', p) + {d};
      } else {
        assert Preds(g, p) == Preds(g', p);
      }
    }
    forall p | p in g'.next ensures Ends(g', p) {
      assert Ends(g, p);
      var s :| IsChain(g, p, s);
      ChainAvoids(g, p, s, d);
      ChainLive(g, p, s);
      ChainSame(g, g', p, s);
    }
    if g.next[d] != null {
      assert Ends(g, d);
      var s :| IsChain(g, d, s);
      ChainLive(g, d, s);
      assert IsChain(g, g.next[d], s[1..]) && s[1..] != [];
      assert s[1..][0] in s;
      assert d !in Preds(g, d);
    }
  }

  lemma StepKeeps(g: Graph, p: Pbuf)
    requires Counted(g, p) && NoneDead(g) && p in g.next
    ensures Counted(Step(g, p), After(g, p)) && NoneDead(Step(g, p))
    ensures After(g, p) != null ==> After(g, p) in Step(g, p).next
    ensures Release(Step(g, p), After(g, p)) == Release(g, p)
  {
    if g.ref[p] == 1 { WithoutKeeps(g, p); } else { DecKeeps(g, p); }
  }

  lemma OneLess(s: set<Pbuf>, p: Pbuf)
    requires p in s
    ensures |s - {p}| + 1 == |s|
  {
    assert s == s - {p} + {p};
  }

  lemma {:induction false} ReleaseKeeps(g: Graph, p: Pbuf?)
    requires Counted(g, p) && NoneDead(g) && (p != null ==> p in g.next)
    ensures Inv(Release(g, p))
    decreases g.next.Keys
  {
    if p != null {
      if g.ref[p] > 1 {
        DecKeeps(g, p);
      } else {
        WithoutKeeps(g, p);
        ReleaseKeeps(Without(g, p), g.next[p]);
      }
    }
  }

  lemma DecKeeps(g: Graph, p: Pbuf)
    requires Counted(g, p) && NoneDead(g) && p in g.next && g.ref[p] > 1
    ensures Inv(g.(ref := g.ref[p := g.ref[p] - 1]))
  {
    var g' := g.(ref := g.ref[p := g.ref[p] - 1]);
    forall q | q in g'.next ensures CountOk(g', q, null) {
      assert CountOk(g, q, p) && Preds(g', q) == Preds(g, q);
    }
    EndsSame(g, g');
  }

  /** Changing counts changes no chain. */
  lemma EndsSame(g: Graph, g': Graph)
    requires g'.next == g.next && forall p {:trigger Ends(g, p)} :: p in g.next ==> Ends(g, p)
    ensures forall p {:trigger Ends(g', p)} :: p in g'.next ==> Ends(g', p)
  {
    forall p | p in g'.next ensures Ends(g', p) {
      assert Ends(g, p);
      var s :| IsChain(g, p, s);
      ChainLive(g, p, s);
      ChainSame(g, g', p, s);
    }
  }

  lemma GiveUp(g: Graph, p: Pbuf)
    requires Inv(g) && p in g.next && g.held[p] > 0
    ensures Counted(g.(held := g.held[p := g.held[p] - 1]), p)
  {
    var g' := g.(held := g.held[p := g.held[p] - 1]);
    forall q | q in g'.next ensures CountOk(g', q, p) {
      assert CountOk(g, q, null) && Preds(g', q) == Preds(g, q);
    }
    EndsSame(g, g');
  }

  lemma FreeKeeps(g: Graph, p: Pbuf)
    requires Inv(g) && p in g.next && g.held[p] > 0
    ensures Inv(Free(g, p))
  {
    GiveUp(g, p);
    ReleaseKeeps(g.(held := g.held[p := g.held[p] - 1]), p);
  }

  lemma AddRefKeeps(g: Graph, p: Pbuf)
    requires Inv(g) && p in g.next
    ensures Inv(AddRef(g, p))
  {
    var g' := AddRef(g, p);
    forall q | q in g'.next ensures CountOk(g', q, null) {
      assert CountOk(g, q, null) && Preds(g', q) == Preds(g, q);
    }
    EndsSame(g, g');
  }

  /** The sixteen bits suffice exactly when the count is not yet at its limit. */
  lemma AddRefWidth(g: Graph, p: Pbuf)
    requires Inv(g) && p in g.next && g.ref[p] < U16
    ensures Inv(AddRefU16(g, p)) <==> g.ref[p] < U16 - 1
    ensures g.ref[p] < U16 - 1 ==> AddRefU16(g, p) == AddRef(g, p)
  {
    if g.ref[p] < U16 - 1 {
      AddRefKeeps(g, p);
    } else {
      assert AddRefU16(g, p).ref[p] == 0;
    }
  }

  lemma AllocKeeps(g: Graph, p: Pbuf)
    requires Inv(g) && p !in g.next
    ensures Inv(Alloc(g, p))
  {
    var g' := Alloc(g, p);
    assert IsChain(g', p, [p]);
    forall q | q in g'.next ensures CountOk(g', q, null) && Ends(g', q) {
      if q == p {
        assert Preds(g', p) == {} by {
          forall r | r in Preds(g', p) ensures false { LinkLive(g, r); }
        }
      } else {
        assert CountOk(g, q, null) && Preds(g', q) == Preds(g, q);
        assert Ends(g, q);
        var s :| IsChain(g, q, s);
        ChainLive(g, q, s);
        ChainSame(g, g', q, s);
      }
    }
  }

  /** Links of live pbufs lead to live pbufs. */
  lemma LinkLive(g: Graph, p: Pbuf)
    requires p in g.next && Ends(g, p)
    ensures g.next[p] != null ==> g.next[p] in g.next
  {
    var s :| IsChain(g, p, s);
    if g.next[p] != null { assert IsChain(g, g.next[p], s[1..]) && s[1..] != []; }
  }

  /** A record that ends a chain through it is the last one of that chain. */
  lemma {:induction false} ChainLast(g: Graph, p: Pbuf?, s: seq<Pbuf>, last: Pbuf)
    requires IsChain(g, p, s) && last in s && last in g.next && g.next[last] == null
    ensures s[|s|-1] == last
  {
    if s[0] == last {
      assert IsChain(g, null, s[1..]);
      assert s[1..] == [];
    } else {
      ChainLast(g, g.next[s[0]], s[1..], last);
    }
  }

  /** Appending the chain of t after last. */
  lemma {:induction false} ChainAppend(g: Graph, g': Graph, p: Pbuf?, s: seq<Pbuf>, last: Pbuf, st: seq<Pbuf>)
    requires IsChain(g, p, s) && s != [] && s[|s|-1] == last
    requires g'.next == g.next[last := if st == [] then null else st[0]] &&
      IsChain(g', if st == [] then null else st[0], st)
    requires last !in s[..|s|-1]
    ensures IsChain(g', p, s + st)
  {
    if |s| == 1 {
      assert s + st == [last] + st && (s + st)[1..] == st;
    } else {
      assert s[0] in s[..|s|-1] && s[1..][..|s|-2] == s[..|s|-1][1..];
      ChainAppend(g, g', g.next[s[0]], s[1..], last, st);
      assert (s + st)[1..] == s[1..] + st;
    }
  }

  /** pbuf_cat keeps the invariant exactly when the head chain's end is not on the tail chain. */
  lemma CatKeeps(g: Graph, last: Pbuf, t: Pbuf, st: seq<Pbuf>)
    requires Inv(g) && last in g.next && g.next[last] == null
    requires IsChain(g, t, st) && t in g.held && g.held[t] > 0
    ensures Inv(Cat(g, last, t)) <==> last !in st
  {
    if last in st {
      CatCycles(g, last, t, st);
    } else {
      CatCounts(g, last, t);
      CatEnds(g, last, t, st);
    }
  }

  lemma PredsGrow(g: Graph, last: Pbuf, t: Pbuf)
    requires last in g.next && g.next[last] == null && t in g.held && g.held[t] > 0
    ensures |Preds(Cat(g, last, t), t)| == |Preds(g, t)| + 1
  {
    assert Preds(Cat(g, last, t), t) == Preds(g, t) + {last} && last !in Preds(g, t);
  }

  lemma CatCounts(g: Graph, last: Pbuf, t: Pbuf)
    requires Inv(g) && last in g.next && g.next[last] == null && t in g.next && g.held[t] > 0
    ensures forall q {:trigger CountOk(Cat(g, last, t), q, null)} :: q in g.next ==> CountOk(Cat(g, last, t), q, null)
    ensures Cat(g, last, t).next.Keys == g.next.Keys
  {
    var g' := Cat(g, last, t);
    forall q | q in g.next ensures CountOk(g', q, null) {
      assert CountOk(g, q, null);
      if q == t {
        PredsGrow(g, last, t);
      } else {
        assert Preds(g', q) == Preds(g, q);
      }
    }
  }

  lemma LastNotBefore(g: Graph, p: Pbuf?, s: seq<Pbuf>)
    requires IsChain(g, p, s) && s != []
    ensures s[|s|-1] !in s[..|s|-1]
  {
    if s[|s|-1] in s[..|s|-1] {
      var i :| 0 <= i < |s| - 1 && s[i] == s[|s|-1];
      ChainDistinct(g, p, s, i, |s| - 1);
    }
  }

  lemma CatEnds(g: Graph, last: Pbuf, t: Pbuf, st: seq<Pbuf>)
    requires Inv(g) && last in g.next && g.next[last] == null && t in g.next && g.held[t] > 0
    requires IsChain(g, t, st) && last !in st
    ensures forall q {:trigger Ends(Cat(g, last, t), q)} :: q in g.next ==> Ends(Cat(g, last, t), q)
  {
    var g' := Cat(g, last, t);
    ChainLive(g, t, st);
    ChainSame(g, g', t, st);
    forall q | q in g.next ensures Ends(g', q) {
      assert Ends(g, q);
      var s :| IsChain(g, q, s);
      ChainLive(g, q, s);
      if last in s {
        ChainLast(g, q, s, last);
        LastNotBefore(g, q, s);
        ChainAppend(g, g', q, s, last, st);
      } else {
        ChainSame(g, g', q, s);
      }
    }
  }

  lemma CatCycles(g: Graph, last: Pbuf, t: Pbuf, st: seq<Pbuf>)
    requires last in g.next && IsChain(g, t, st) && last in st && t in g.held && g.held[t] > 0
    ensures !Ends(Cat(g, last, t), last)
  {
    var g' := Cat(g, last, t);
    forall s | IsChain(g', last, s) ensures false {
      assert s != [] && IsChain(g', t, s[1..]);
      var j := ReachesLast(g, g', t, st, last, s[1..]);
      ChainDistinct(g', last, s, 0, j + 1);
    }
  }

  /** Along unchanged links, a chain of g' meets last wherever the chain of g does. */
  lemma {:induction false} ReachesLast(g: Graph, g': Graph, p: Pbuf?, s: seq<Pbuf>, last: Pbuf, s': seq<Pbuf>)
      returns (j: nat)
    requires IsChain(g, p, s) && last in s && IsChain(g', p, s')
    requires forall q :: q in g.next && q != last ==> q in g'.next && g'.next[q] == g.next[q]
    ensures j < |s'| && s'[j] == last
  {
    if s[0] == last { j := 0; }
    else {
      j := ReachesLast(g, g', g.next[s[0]], s[1..], last, s'[1..]);
      j := j + 1;
    }
  }

  /** The front of a chain, cut off after p. */
  lemma {:induction false} ChainCut(g: Graph, g': Graph, h: Pbuf?, s: seq<Pbuf>, p: Pbuf) returns (s': seq<Pbuf>)
    requires IsChain(g, h, s) && p in s && g'.next == g.next[p := null]
    ensures IsChain(g', h, s')
  {
    if s[0] == p { s' := [p]; }
    else {
      s' := ChainCut(g, g', g.next[s[0]], s[1..], p);
      s' := [s[0]] + s';
    }
  }

  /** No pbuf links to itself. */
  lemma NoLoop(g: Graph, p: Pbuf)
    requires p in g.next && Ends(g, p)
    ensures g.next[p] != p
  {
    var s :| IsChain(g, p, s);
    ChainFacts(g, p, s);
    assert g.next[s[0]] == if 1 < |s| then s[1] else null;
  }

  lemma Unlink(g: Graph, p: Pbuf)
    requires Inv(g) && p in g.next && g.next[p] != null
    ensures g.next[p] in g.next && Counted(g.(next := g.next[p := null]), g.next[p])
  {
    var t := g.next[p];
    var g' := g.(next := g.next[p := null]);
    assert Ends(g, p);
    LinkLive(g, p);
    forall q | q in g'.next ensures CountOk(g', q, t) {
      assert CountOk(g, q, null);
      if q == t {
        assert Preds(g, t) == Preds(g', t) + {p} && p !in Preds(g', t);
      } else {
        assert Preds(g', q) == Preds(g, q);
      }
    }
    forall q | q in g'.next ensures Ends(g', q) {
      assert Ends(g, q);
      EndsCut(g, g', p, q);
    }
  }

  lemma EndsCut(g: Graph, g': Graph, p: Pbuf, q: Pbuf)
    requires Ends(g, q) && p in g.next && g'.next == g.next[p := null]
    ensures Ends(g', q)
  {
    var s :| IsChain(g, q, s);
    ChainLive(g, q, s);
    if p in s { var s' := ChainCut(g, g', q, s, p); } else { ChainSame(g, g', q, s); }
  }

  lemma DechainKeeps(g: Graph, p: Pbuf)
    requires Inv(g) && p in g.next
    ensures Inv(Dechain(g, p))
  {
    if g.next[p] != null {
      Unlink(g, p);
      ReleaseKeeps(g.(next := g.next[p := null]), g.next[p]);
    }
  }

  /** The pbuf that is cut off survives. */
  lemma DechainSpares(g: Graph, p: Pbuf)
    requires Inv(g) && p in g.next && g.next[p] != null
    ensures p in Dechain(g, p).next
  {
    Unlink(g, p);
    var g' := g.(next := g.next[p := null]);
    assert Ends(g, p);
    var s :| IsChain(g, p, s);
    RestApart(g, p, s);
    ChainSame(g, g', g.next[p], s[1..]);
    ReleaseEffect(g', g.next[p], s[1..]);
  }

  /** pbuf_chain followed by pbuf_dechain on a single pbuf h gives back the very same graph. */
  lemma DechainUndoesChain(g: Graph, h: Pbuf, t: Pbuf)
    requires Inv(g) && h in g.next && g.next[h] == null && t in g.next && g.held[t] > 0
    ensures Dechain(AddRef(Cat(g, h, t), t), h) == g
  {
    var g1 := AddRef(Cat(g, h, t), t);
    assert g1.next[h := null] == g.next;
    assert g1.held == g.held;
    assert g1.ref[t := g1.ref[t] - 1] == g.ref;
    assert CountOk(g, t, null);
  }

  // ----- which pbufs die -----

  /** The number of records at the head of chain s whose only reference is about to go. */
  ghost function DeadRun(g: Graph, s: seq<Pbuf>): (k: nat)
    requires forall q :: q in s ==> q in g.ref
    ensures k <= |s|
    ensures forall j :: 0 <= j < k ==> g.ref[s[j]] <= 1
    ensures k < |s| ==> g.ref[s[k]] > 1
  {
    if s == [] || g.ref[s[0]] > 1 then 0 else 1 + DeadRun(g, s[1..])
  }

  ghost function Elems(s: seq<Pbuf>): set<Pbuf> { set q | q in s }

  function Minus(g: Graph, dead: set<Pbuf>): Graph {
    Graph(g.next - dead, g.ref - dead, g.held - dead)
  }

  /** The graph after the first k records of s died and the next one lost a reference. */
  ghost function Outcome(g: Graph, s: seq<Pbuf>, k: nat): Graph
    requires k <= |s|
  {
    var g0 := Minus(g, Elems(s[..k]));
    if k < |s| && s[k] in g.ref && g.ref[s[k]] > 0 then g0.(ref := g0.ref[s[k] := g.ref[s[k]] - 1]) else g0
  }

  /** Releasing a chain deallocates exactly its longest head run of single references, takes
      one reference from the record after that run, and touches nothing else. */
  lemma {:induction false} ReleaseEffect(g: Graph, p: Pbuf?, s: seq<Pbuf>)
    requires Shaped(g) && NoneDead(g) && IsChain(g, p, s) && forall q :: q in s ==> q in g.ref
    ensures Release(g, p) == Outcome(g, s, DeadRun(g, s))
    decreases |s|
  {
    if s == [] {
      assert Elems(s[..0]) == {} && Minus(g, {}) == g;
    } else if g.ref[s[0]] > 1 {
      assert Elems(s[..0]) == {} && Minus(g, {}) == g;
    } else {
      var g' := Without(g, p);
      RestApart(g, p, s);
      ChainSame(g, g', g.next[p], s[1..]);
      DeadRunSame(g, g', s[1..]);
      ReleaseEffect(g', g.next[p], s[1..]);
      OutcomeStep(g, s, DeadRun(g, s[1..]));
    }
  }

  /** So many die. */
  lemma ReleaseCount(g: Graph, p: Pbuf?, s: seq<Pbuf>)
    requires Shaped(g) && NoneDead(g) && IsChain(g, p, s) && forall q :: q in s ==> q in g.ref
    ensures |g.next.Keys| - |Release(g, p).next.Keys| == DeadRun(g, s)
  {
    var k := DeadRun(g, s);
    assert Release(g, p).next.Keys == g.next.Keys - Elems(s[..k]) by { ReleaseEffect(g, p, s); }
    assert |Elems(s[..k])| == k && Elems(s[..k]) <= g.next.Keys by {
      ChainFacts(g, p, s);
      DistinctSize(s[..k]);
    }
    DifferenceSize(g.next.Keys, Elems(s[..k]));
  }

  lemma DifferenceSize(a: set<Pbuf>, b: set<Pbuf>)
    requires b <= a
    ensures |a - b| == |a| - |b|
  {
    assert a == (a - b) + b;
  }

  lemma {:induction false} DistinctSize(s: seq<Pbuf>)
    requires forall i, j :: 0 <= i < j < |s| ==> s[i] != s[j]
    ensures |Elems(s)| == |s|
  {
    if s != [] {
      assert s == [s[0]] + s[1..] && s[0] !in Elems(s[1..]);
      DistinctSize(s[1..]);
      assert Elems(s) == {s[0]} + Elems(s[1..]);
    }
  }

  lemma RestApart(g: Graph, p: Pbuf?, s: seq<Pbuf>)
    requires IsChain(g, p, s) && s != []
    ensures s[0] !in s[1..] && forall q :: q in s[1..] ==> q in s && q in g.next && q != s[0]
  {
    ChainLive(g, p, s);
    if s[0] in s[1..] {
      var i :| 0 <= i < |s| - 1 && s[1..][i] == s[0];
      ChainDistinct(g, p, s, 0, i + 1);
    }
  }

  lemma OutcomeStep(g: Graph, s: seq<Pbuf>, k: nat)
    requires s != [] && k < |s| && s[0] !in s[1..]
    ensures Outcome(Without(g, s[0]), s[1..], k) == Outcome(g, s, k + 1)
  {
    assert s[..k+1] == [s[0]] + s[1..][..k];
    assert Elems(s[..k+1]) == {s[0]} + Elems(s[1..][..k]);
  }

  lemma {:induction false} DeadRunSame(g: Graph, g': Graph, s: seq<Pbuf>)
    requires forall q :: q in s ==> q in g.ref && q in g'.ref && g'.ref[q] == g.ref[q]
    ensures DeadRun(g', s) == DeadRun(g, s)
  {
    if s != [] { DeadRunSame(g, g', s[1..]); }
  }

  // ----- what pbuf_dechain deallocates -----

  ghost function ChainOf(g: Graph, p: Pbuf): seq<Pbuf>
    requires Ends(g, p)
  {
    var s :| IsChain(g, p, s); s
  }

  /** The number of pbufs that die when p is cut off from what follows it. */
  ghost function Orphans(g: Graph, p: Pbuf): nat
    requires Inv(g) && p in g.next
  {
    if g.next[p] == null then 0
    else
      LinkLive(g, p);
      var rest := ChainOf(g, g.next[p]);
      ChainLive(g, g.next[p], rest);
      DeadRun(g, rest)
  }

  /** So many fewer are live after it, and the tail is gone exactly when there are any. */
  lemma DechainCount(g: Graph, p: Pbuf)
    requires Inv(g) && p in g.next
    ensures |g.next.Keys| - |Dechain(g, p).next.Keys| == Orphans(g, p)
    ensures g.next[p] != null ==> (g.next[p] in Dechain(g, p).next <==> Orphans(g, p) == 0)
  {
    if g.next[p] != null {
      var t := g.next[p];
      var g' := g.(next := g.next[p := null]);
      Unlink(g, p);
      var rest := ChainOf(g, t);
      ChainLive(g, t, rest);
      assert IsChain(g, p, [p] + rest) by { assert ([p] + rest)[1..] == rest; }
      RestApart(g, p, [p] + rest);
      assert ([p] + rest)[1..] == rest;
      ChainSame(g, g', t, rest);
      DeadRunSame(g, g', rest);
      ReleaseCount(g', t, rest);
      ReleaseEffect(g', t, rest);
      HeadDies(g', rest, DeadRun(g', rest));
      assert g'.next.Keys == g.next.Keys;
    }
  }

  lemma HeadDies(g: Graph, s: seq<Pbuf>, k: nat)
    requires s != [] && k <= |s| && s[0] in g.next
    ensures s[0] in Outcome(g, s, k).next <==> k == 0
  {
    if k > 0 { assert s[..k][0] == s[0]; } else { assert Elems(s[..0]) == {}; }
  }

  /** These records as one chain, built back to front by pbuf_alloc and pbuf_cat: the caller
      holds the first. */
  ghost function Strung(s: seq<Pbuf>): (g: Graph)
    requires s != [] && forall i, j :: 0 <= i < j < |s| ==> s[i] != s[j]
    ensures s[0] in g.held && g.held[s[0]] == 1 && g.next.Keys == Elems(s)
  {
    if |s| == 1 then Alloc(Graph(map[], map[], map[]), s[0])
    else
      assert s == [s[0]] + s[1..];
      Cat(Alloc(Strung(s[1..]), s[0]), s[0], s[1])
  }

  lemma StrungStep(g: Graph, h: Pbuf, s: seq<Pbuf>)
    requires Inv(g) && s != [] && IsChain(g, s[0], s) && h !in g.next && s[0] in g.held && g.held[s[0]] == 1
    ensures Inv(Cat(Alloc(g, h), h, s[0])) && IsChain(Cat(Alloc(g, h), h, s[0]), h, [h] + s)
  {
    hide Inv, Counted;
    var g1, t := Alloc(g, h), s[0];
    var g2 := Cat(g1, h, t);
    ChainLive(g, t, s);
    AllocKeeps(g, h);
    ChainSame(g, g1, t, s);
    CatKeeps(g1, h, t, s);
    ChainSame(g1, g2, t, s);
    assert ([h] + s)[1..] == s;
  }

  lemma {:induction false} StrungChain(s: seq<Pbuf>)
    requires s != [] && forall i, j :: 0 <= i < j < |s| ==> s[i] != s[j]
    ensures Inv(Strung(s)) && IsChain(Strung(s), s[0], s)
    ensures forall q :: q in s ==> q in Strung(s).ref && Strung(s).ref[q] == 1
  {
    hide Inv, IsChain;
    if |s| == 1 {
      StrungOne(s[0]);
      assert s == [s[0]];
    } else {
      assert s == [s[0]] + s[1..] && s[0] !in Elems(s[1..]);
      StrungChain(s[1..]);
      StrungStep(Strung(s[1..]), s[0], s[1..]);
    }
  }

  lemma StrungOne(p: Pbuf)
    ensures Inv(Alloc(Graph(map[], map[], map[]), p)) && IsChain(Alloc(Graph(map[], map[], map[]), p), p, [p])
  {
    AllocKeeps(Graph(map[], map[], map[]), p);
  }

  lemma {:induction false} AllDead(g: Graph, s: seq<Pbuf>)
    requires forall q :: q in s ==> q in g.ref && g.ref[q] == 1
    ensures DeadRun(g, s) == |s|
  {
    if s != [] { AllDead(g, s[1..]); }
  }

  lemma AllOrphans(g: Graph, p: Pbuf, s: seq<Pbuf>)
    requires Inv(g) && p in g.next && IsChain(g, p, s) && forall q :: q in s ==> q in g.ref && g.ref[q] == 1
    ensures Orphans(g, p) == |s| - 1
  {
    assert IsChain(g, g.next[p], s[1..]);
    if g.next[p] != null {
      LinkLive(g, p);
      var rest := ChainOf(g, g.next[p]);
      ChainUnique(g, g.next[p], rest, s[1..]);
      AllDead(g, rest);
    }
  }

  /** pbuf_dechain on such a chain deallocates all of its records but the first; when those
      are a positive multiple of 256, the eight-bit count that should tell shows zero. */
  lemma StrungOrphans(s: seq<Pbuf>)
    requires s != [] && forall i, j :: 0 <= i < j < |s| ==> s[i] != s[j]
    ensures Inv(Strung(s)) && s[0] in Strung(s).next && Orphans(Strung(s), s[0]) == |s| - 1
    ensures |s| == 257 ==> Orphans(Strung(s), s[0]) == 256 && CountU8(Orphans(Strung(s), s[0])) == 0
  {
    hide Inv, Strung, Orphans, IsChain, CountU8;
    StrungChain(s);
    ChainLive(Strung(s), s[0], s);
    AllOrphans(Strung(s), s[0], s);
    CountU8Mod(|s| - 1);
  }

  // ----- runs -----

  datatype Call =
    | AllocCall(p: Pbuf)
    | RefCall(p: Pbuf)
    | FreeCall(p: Pbuf)
    | CatCall(h: Pbuf, t: Pbuf)
    | ChainCall(h: Pbuf, t: Pbuf)
    | DechainCall(p: Pbuf)

  ghost function LastOf(g: Graph, h: Pbuf): Pbuf
    requires h in g.next && Ends(g, h)
  {
    var s := ChainOf(g, h);
    s[|s|-1]
  }

  lemma {:induction false} LastEnds(g: Graph, p: Pbuf?, s: seq<Pbuf>)
    requires IsChain(g, p, s) && s != []
    ensures s[|s|-1] in g.next && g.next[s[|s|-1]] == null
  {
    if |s| == 1 { assert IsChain(g, g.next[s[0]], s[1..]); }
    else { LastEnds(g, g.next[s[0]], s[1..]); }
  }

  /** What the interface asks of callers: pass live pbufs, give up only references they
      hold, never chain a packet onto itself, and never take so many references to a pbuf that
      its count, a u16_t, would wrap. */
  ghost predicate Legal(g: Graph, c: Call)
    requires Inv(g)
  {
    match c
    case AllocCall(p) => p !in g.next
    case RefCall(p) => p in g.next && g.ref[p] < U16 - 1
    case FreeCall(p) => p in g.next && g.held[p] > 0
    case CatCall(h, t) => Joinable(g, h, t)
    case ChainCall(h, t) => Joinable(g, h, t) && g.ref[t] < U16 - 1
    case DechainCall(p) => p in g.next
  }

  ghost predicate Joinable(g: Graph, h: Pbuf, t: Pbuf) {
    h in g.next && t in g.next && t in g.held && g.held[t] > 0 && Ends(g, h) && Ends(g, t) &&
      LastOf(g, h) !in ChainOf(g, t)
  }

  ghost function Perform(g: Graph, c: Call): Graph
    requires Inv(g) && Legal(g, c)
  {
    match c
    case AllocCall(p) => Alloc(g, p)
    case RefCall(p) => AddRef(g, p)
    case FreeCall(p) => Free(g, p)
    case CatCall(h, t) => Cat(g, LastOf(g, h), t)
    case ChainCall(h, t) => AddRef(Cat(g, LastOf(g, h), t), t)
    case DechainCall(p) => Dechain(g, p)
  }

  /** Every count fits sixteen bits. */
  ghost predicate Narrow(g: Graph) { forall p :: p in g.ref ==> g.ref[p] < U16 }

  lemma {:induction false} ReleaseLowers(g: Graph, p: Pbuf?)
    requires Shaped(g)
    ensures forall q :: q in Release(g, p).ref ==> q in g.ref && Release(g, p).ref[q] <= g.ref[q]
    decreases g.next.Keys
  {
    if p != null && p in g.next && g.ref[p] == 1 { ReleaseLowers(Without(g, p), g.next[p]); }
  }

  lemma PerformKeeps(g: Graph, c: Call)
    requires Inv(g) && Legal(g, c)
    ensures Inv(Perform(g, c)) && (Narrow(g) ==> Narrow(Perform(g, c)))
  {
    PerformInv(g, c);
    match c
    case FreeCall(p) => ReleaseLowers(g.(held := g.held[p := g.held[p] - 1]), p);
    case DechainCall(p) => if g.next[p] != null { ReleaseLowers(g.(next := g.next[p := null]), g.next[p]); }
    case _ =>
  }

  lemma PerformInv(g: Graph, c: Call)
    requires Inv(g) && Legal(g, c)
    ensures Inv(Perform(g, c))
  {
    match c
    case AllocCall(p) => AllocKeeps(g, p);
    case RefCall(p) => AddRefKeeps(g, p);
    case FreeCall(p) => FreeKeeps(g, p);
    case CatCall(h, t) => JoinKeeps(g, h, t);
    case ChainCall(h, t) => JoinKeeps(g, h, t); AddRefKeeps(Cat(g, LastOf(g, h), t), t);
    case DechainCall(p) => DechainKeeps(g, p);
  }

  /** A tail that can be joined is nowhere on the head chain. */
  lemma JoinApart(g: Graph, h: Pbuf, t: Pbuf)
    requires Inv(g) && Joinable(g, h, t)
    ensures forall q :: q in ChainOf(g, h) ==> q !in ChainOf(g, t)
    ensures t !in ChainOf(g, h)
  {
    var sh, st := ChainOf(g, h), ChainOf(g, t);
    ChainFacts(g, h, sh);
    ChainFacts(g, t, st);
    forall q | q in sh ensures q !in st {
      if q in st {
        var i :| 0 <= i < |sh| && sh[i] == q;
        var j :| 0 <= j < |st| && st[j] == q;
        SharedEnd(g, h, sh, i, t, st, j);
      }
    }
  }

  /** Two chains with a record in common end alike. */
  lemma SharedEnd(g: Graph, h: Pbuf?, sh: seq<Pbuf>, i: nat, t: Pbuf?, st: seq<Pbuf>, j: nat)
    requires IsChain(g, h, sh) && IsChain(g, t, st) && i < |sh| && j < |st| && sh[i] == st[j]
    ensures sh[|sh|-1] == st[|st|-1] && sh[|sh|-1] in st
  {
    ChainRest(g, h, sh, i);
    ChainRest(g, t, st, j);
    ChainUnique(g, sh[i], sh[i..], st[j..]);
    assert sh[|sh|-1] == sh[i..][|sh|-1-i] == st[j..][|st|-1-j] == st[|st|-1];
  }

  lemma JoinKeeps(g: Graph, h: Pbuf, t: Pbuf)
    requires Inv(g) && Joinable(g, h, t)
    ensures Inv(Cat(g, LastOf(g, h), t)) && t in Cat(g, LastOf(g, h), t).next
  {
    LastEnds(g, h, ChainOf(g, h));
    CatKeeps(g, LastOf(g, h), t, ChainOf(g, t));
  }

  lemma JoinReady(g: Graph, h: Pbuf, t: Pbuf)
    requires Inv(g) && Joinable(g, h, t)
    ensures Ends(g, h) && Ends(g, t) && IsChain(g, h, ChainOf(g, h)) && IsChain(g, t, ChainOf(g, t))
    ensures t !in ChainOf(g, h) && forall q :: q in ChainOf(g, h) ==> q !in ChainOf(g, t)
    ensures Inv(Cat(g, LastOf(g, h), t)) && LastOf(g, h) in g.next && ChainOf(g, h) != []
    ensures Cat(g, LastOf(g, h), t).next.Keys == g.next.Keys
  {
    JoinApart(g, h, t);
    JoinKeeps(g, h, t);
    LastEnds(g, h, ChainOf(g, h));
  }

  lemma SingleChain(g: Graph, h: Pbuf)
    requires Inv(g) && h in g.next && g.next[h] == null
    ensures Ends(g, h) && ChainOf(g, h) == [h] && LastOf(g, h) == h
  {
    assert IsChain(g, h, [h]);
    ChainUnique(g, h, ChainOf(g, h), [h]);
  }

  /** The chain that results from joining. */
  lemma JoinedChain(g: Graph, h: Pbuf, t: Pbuf)
    requires Inv(g) && Joinable(g, h, t)
    ensures IsChain(Cat(g, LastOf(g, h), t), h, ChainOf(g, h) + ChainOf(g, t))
  {
    var sh, st := ChainOf(g, h), ChainOf(g, t);
    var g' := Cat(g, LastOf(g, h), t);
    hide Inv, Counted;
    LastEnds(g, h, sh);
    LastNotBefore(g, h, sh);
    ChainLive(g, t, st);
    ChainSame(g, g', t, st);
    assert st != [] && st[0] == t;
    ChainAppend(g, g', h, sh, LastOf(g, h), st);
  }

  ghost predicate LegalRun(g: Graph, calls: seq<Call>)
    requires Inv(g)
    decreases |calls|
  {
    calls != [] ==> Legal(g, calls[0]) && (PerformKeeps(g, calls[0]); LegalRun(Perform(g, calls[0]), calls[1..]))
  }

  /** Whatever legal calls are made, in whatever order, the invariant holds after each, and no
      count wraps. */
  ghost function Run(g: Graph, calls: seq<Call>): (r: Graph)
    requires Inv(g) && Narrow(g) && LegalRun(g, calls)
    ensures Inv(r) && Narrow(r)
    decreases |calls|
  {
    if calls == [] then g else (PerformKeeps(g, calls[0]); Run(Perform(g, calls[0]), calls[1..]))
  }

  lemma {:induction false} ChainLength(g: Graph, p: Pbuf?, s: seq<Pbuf>)
    requires IsChain(g, p, s)
    ensures |Elems(s)| == |s| && Elems(s) <= g.next.Keys
  {
    if s != [] {
      ChainLength(g, g.next[s[0]], s[1..]);
      RestApart(g, p, s);
      assert Elems(s) == {s[0]} + Elems(s[1..]);
    }
  }

  lemma {:induction false} Unheld(g: Graph, p: Pbuf, s: seq<Pbuf>)
    requires Inv(g) && IsChain(g, p, s) && p in g.next && forall q :: q in g.held ==> g.held[q] == 0
    ensures false
    decreases |g.next.Keys| - |s|
  {
    assert CountOk(g, p, null);
    var q :| q in Preds(g, p);
    var s' := [q] + s;
    assert s'[1..] == s;
    ChainLength(g, q, s');
    DifferenceSize(g.next.Keys, Elems(s'));
    Unheld(g, q, s');
  }

  /** No pbuf outlives the last reference to the packets: when callers hold none, none is live. */
  lemma NothingLeaks(g: Graph)
    requires Inv(g)
    ensures (forall q :: q in g.held ==> g.held[q] == 0) <==> g.next.Keys == {}
  {
    if (forall q :: q in g.held ==> g.held[q] == 0) && g.next.Keys != {} {
      var p :| p in g.next;
      assert Ends(g, p);
      Unheld(g, p, ChainOf(g, p));
    }
  }
}
