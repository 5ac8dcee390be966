/** Which pbufs survive pbuf_free and pbuf_dechain of src/lwip/core/pbuf.c: exactly those that
    can still be reached from a reference that callers hold. */
module PbufReach {
  import opened PbufTypes
  import opened PbufGraph

  /** q is on the chain of a pbuf that callers hold. */
  ghost predicate Reached(g: Graph, q: Pbuf) {
    exists r: Pbuf, s: seq<Pbuf> {:trigger IsChain(g, r, s)} ::
      r in g.held && g.held[r] > 0 && IsChain(g, r, s) && q in s
  }

  lemma ChainLength(g: Graph, p: Pbuf?, s: seq<Pbuf>)
    requires IsChain(g, p, s)
    ensures |s| <= |g.next.Keys|
  {
    ChainFacts(g, p, s);
    DistinctSize(s);
    DifferenceSize(g.next.Keys, Elems(s));
  }

  /** Going back from a live pbuf along the links comes to one that callers hold. */
  lemma {:induction false} HeldFrom(g: Graph, q: Pbuf, s: seq<Pbuf>) returns (r: Pbuf, t: seq<Pbuf>)
    requires Inv(g) && q in g.next && IsChain(g, q, s)
    ensures r in g.held && g.held[r] > 0 && IsChain(g, r, t) && q in t
    decreases |g.next.Keys| - |s|
  {
    assert CountOk(g, q, null);
    if g.held[q] > 0 {
      r, t := q, s;
    } else {
      assert Preds(g, q) != {};
      var p :| p in Preds(g, q);
      assert ([p] + s)[1..] == s;
      ChainLength(g, p, [p] + s);
      r, t := HeldFrom(g, p, [p] + s);
      ChainFacts(g, r, t);
      var i :| 0 <= i < |t| && t[i] == p;
      assert t[i+1] == q;
    }
  }

  /** Between the calls the live pbufs are exactly those that callers can reach. */
  lemma LiveReached(g: Graph)
    requires Inv(g)
    ensures forall q: Pbuf :: q in g.next <==> Reached(g, q)
  {
    forall q: Pbuf ensures q in g.next <==> Reached(g, q) {
      if q in g.next {
        assert Ends(g, q);
        var s :| IsChain(g, q, s);
        var r, t := HeldFrom(g, q, s);
      } else if Reached(g, q) {
        var r, s :| r in g.held && g.held[r] > 0 && IsChain(g, r, s) && q in s;
        ChainLive(g, r, s);
      }
    }
  }

  /** g' is what is left of g: some pbufs that nobody holds are gone. */
  ghost predicate LeftOf(g: Graph, g': Graph) {
    && g'.next.Keys <= g.next.Keys && Shaped(g) && Shaped(g')
    && (forall q :: q in g'.next ==> g'.next[q] == g.next[q] && g'.held[q] == g.held[q])
    && (forall q :: q in g.next && q !in g'.next ==> g.held[q] == 0)
  }

  lemma {:induction false} ReleaseLeaves(g: Graph, p: Pbuf?)
    requires Counted(g, p) && NoneDead(g) && (p != null ==> p in g.next)
    ensures LeftOf(g, Release(g, p))
    decreases g.next.Keys
  {
    if p != null && g.ref[p] == 1 {
      assert CountOk(g, p, p);
      WithoutKeeps(g, p);
      ReleaseLeaves(Without(g, p), g.next[p]);
    }
  }

  lemma LiveEnds(g: Graph, q: Pbuf)
    requires Inv(g) && q in g.next
    ensures Ends(g, q) && q in g.held
  {
  }

  lemma WasReached(g: Graph, g': Graph, q: Pbuf)
    requires LeftOf(g, g') && Inv(g') && q in g'.next
    ensures Reached(g, q)
  {
    hide Inv;
    LiveEnds(g', q);
    var c :| IsChain(g', q, c);
    var r, s := HeldFrom(g', q, c);
    ChainLive(g', r, s);
    ChainSame(g', g, r, s);
  }

  lemma StillReached(g: Graph, g': Graph, q: Pbuf)
    requires LeftOf(g, g') && Inv(g') && Reached(g, q)
    ensures q in g'.next
  {
    hide Inv;
    var r, s :| r in g.held && g.held[r] > 0 && IsChain(g, r, s) && q in s;
    LiveEnds(g', r);
    var t :| IsChain(g', r, t);
    ChainLive(g', r, t);
    ChainSame(g', g, r, t);
    ChainUnique(g, r, s, t);
  }

  /** The pbufs of g' are those that can be reached in g, with their links and holders, and each
      count is again right. */
  ghost predicate Survivors(g: Graph, g': Graph) {
    && Inv(g') && g'.next.Keys <= g.next.Keys
    && (forall q :: q in g.next ==> (q in g'.next <==> Reached(g, q)))
    && forall q :: q in g'.next ==> q in g'.held && q in g.held && g'.next[q] == g.next[q] && g'.held[q] == g.held[q]
  }

  /** What is left and keeps the invariant is what can be reached. */
  lemma LeftSurvives(g: Graph, g': Graph)
    requires LeftOf(g, g') && Inv(g')
    ensures Survivors(g, g')
  {
    hide Inv, Reached;
    forall q | q in g.next ensures q in g'.next <==> Reached(g, q) {
      if q in g'.next { WasReached(g, g', q); }
      if Reached(g, q) { StillReached(g, g', q); }
    }
    forall q | q in g'.next ensures q in g'.held && q in g.held { LiveEnds(g', q); }
  }

  lemma SameCount(a: Graph, b: Graph, q: Pbuf)
    requires Inv(a) && Inv(b) && a.next == b.next && a.held == b.held && q in a.next
    ensures q in a.ref && q in b.ref && a.ref[q] == b.ref[q]
  {
    assert CountOk(a, q, null) && CountOk(b, q, null) && Preds(a, q) == Preds(b, q);
  }

  lemma LiveKeys(g: Graph)
    requires Inv(g)
    ensures Shaped(g)
  {
  }

  /** That is only one graph: holders and links determine the counts. */
  lemma OneOutcome(g: Graph, a: Graph, b: Graph)
    requires Survivors(g, a) && Survivors(g, b)
    ensures a == b
  {
    hide Inv, Reached;
    LiveKeys(a);
    LiveKeys(b);
    assert a.next.Keys == b.next.Keys;
    assert a.next == b.next && a.held == b.held;
    forall q | q in a.next ensures a.ref[q] == b.ref[q] { SameCount(a, b, q); }
    assert a.ref == b.ref;
  }

  lemma FreeSurvives(g: Graph, p: Pbuf)
    requires Inv(g) && p in g.next && g.held[p] > 0
    ensures Survivors(g.(held := g.held[p := g.held[p] - 1]), Free(g, p))
  {
    hide Counted, Survivors, LeftOf, Release;
    LiveKeys(g);
    var left := g.(held := g.held[p := g.held[p] - 1]);
    GiveUp(g, p);
    ReleaseKeeps(left, p);
    ReleaseLeaves(left, p);
    LeftSurvives(left, Free(g, p));
  }

  lemma DechainSurvives(g: Graph, p: Pbuf)
    requires Inv(g) && p in g.next
    ensures Survivors(g.(next := g.next[p := null]), Dechain(g, p))
  {
    hide Counted, Survivors, LeftOf, Release;
    LiveKeys(g);
    var left := g.(next := g.next[p := null]);
    if g.next[p] == null {
      SameLeft(left, g);
    } else {
      Unlink(g, p);
      ReleaseKeeps(left, g.next[p]);
      ReleaseLeaves(left, g.next[p]);
    }
    LeftSurvives(left, Dechain(g, p));
  }

  lemma SameLeft(g: Graph, g': Graph)
    requires Inv(g') && g.next == g'.next && g.held == g'.held && g.ref.Keys == g'.ref.Keys
    ensures LeftOf(g, g')
  {
  }

  /** What a call is for, by links and holders alone: counts stay as they are and nothing dies. */
  ghost function Meant(g: Graph, c: Call): Graph
    requires Inv(g) && Legal(g, c)
  {
    match c
    case AllocCall(p) => Graph(g.next[p := null], g.ref[p := 1], g.held[p := 1])
    case RefCall(p) => g.(held := g.held[p := g.held[p] + 1])
    case FreeCall(p) => g.(held := g.held[p := g.held[p] - 1])
    case CatCall(h, t) => g.(next := g.next[LastOf(g, h) := t], held := g.held[t := g.held[t] - 1])
    case ChainCall(h, t) => g.(next := g.next[LastOf(g, h) := t])
    case DechainCall(p) => g.(next := g.next[p := null])
  }

  lemma MeantLeft(g: Graph, c: Call)
    requires Inv(g) && Legal(g, c) && !c.FreeCall? && !c.DechainCall?
    ensures Inv(Perform(g, c)) && LeftOf(Meant(g, c), Perform(g, c))
  {
    PerformInv(g, c);
    if c.CatCall? || c.ChainCall? { JoinReady(g, c.h, c.t); }
    SameLeft(Meant(g, c), Perform(g, c));
  }

  /** Counting references comes to this: after each call exactly those pbufs are live that can
      be reached once it has done what it is for, and every count is right. */
  lemma CallExactly(g: Graph, c: Call, g': Graph)
    requires Inv(g) && Legal(g, c)
    ensures g' == Perform(g, c) <==> Survivors(Meant(g, c), g')
  {
    hide Survivors, LeftOf;
    if c.FreeCall? {
      FreeSurvives(g, c.p);
    } else if c.DechainCall? {
      DechainSurvives(g, c.p);
    } else {
      MeantLeft(g, c);
      LeftSurvives(Meant(g, c), Perform(g, c));
    }
    if Survivors(Meant(g, c), g') { OneOutcome(Meant(g, c), g', Perform(g, c)); }
  }
}
