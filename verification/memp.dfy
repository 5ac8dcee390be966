/** The pools of src/lwip/core/memp.c. */
module Memp {
  /** struct memp: the link an element holds while it is free. */
  class Elem {
    var next: Elem?

    constructor ()
      ensures next == null
    {
      next := null;
    }
  }

  ghost function Elems(s: seq<Elem>): set<Elem> { set p | p in s }

  /** The pools by value: each pool's free list, and the elements it has handed out. */
  datatype Lists = Lists(free: seq<seq<Elem>>, out: seq<set<Elem>>)

  predicate HasPool(l: Lists, pool: nat) { pool < |l.free| && pool < |l.out| }

  /** memp_malloc and memp_free on the value. */
  function Taken(l: Lists, pool: nat): (Elem?, Lists) {
    if !HasPool(l, pool) || l.free[pool] == [] then (null, l)
    else
      var e := l.free[pool][0];
      (e, Lists(l.free[pool := l.free[pool][1..]], l.out[pool := l.out[pool] + {e}]))
  }

  function Given(l: Lists, pool: nat, e: Elem): Lists
    requires HasPool(l, pool)
  {
    Lists(l.free[pool := [e] + l.free[pool]], l.out[pool := l.out[pool] - {e}])
  }

  ghost predicate Distinct(s: seq<Elem>) { forall k, l :: 0 <= k < l < |s| ==> s[k] != s[l] }

  /** Pool i hands no element out twice, and free and handed-out elements are the carved ones. */
  ghost predicate Conserves(l: Lists, carved: seq<set<Elem>>, i: nat) {
    HasPool(l, i) && i < |carved| && Distinct(l.free[i])
    && Elems(l.free[i]) !! l.out[i] && Elems(l.free[i]) + l.out[i] == carved[i]
  }

  ghost predicate Sound(l: Lists, carved: seq<set<Elem>>) {
    |l.free| == |l.out| == |carved| && forall i {:trigger Conserves(l, carved, i)} :: 0 <= i < |carved| ==>
      Conserves(l, carved, i)
  }

  lemma TakenSound(l: Lists, carved: seq<set<Elem>>, pool: nat)
    requires Sound(l, carved)
    ensures var (e, l') := Taken(l, pool);
      Sound(l', carved) && (e != null ==> HasPool(l, pool) && e in Elems(l.free[pool]) && e !in l.out[pool])
    ensures Taken(l, pool).0 == null <==> pool >= |carved| || carved[pool] == l.out[pool]
  {
    var (e, l') := Taken(l, pool);
    assert pool < |carved| ==> Conserves(l, carved, pool);
    if e != null {
      HeadApart(l.free[pool]);
      forall i | 0 <= i < |carved| ensures Conserves(l', carved, i) { assert Conserves(l, carved, i); }
    } else if pool < |carved| {
      assert Elems([]) == {};
    }
  }

  lemma HeadApart(s: seq<Elem>)
    requires s != [] && Distinct(s)
    ensures Elems(s) == {s[0]} + Elems(s[1..]) && s[0] !in Elems(s[1..]) && Distinct(s[1..])
  {
    assert s == [s[0]] + s[1..];
  }

  lemma GivenSound(l: Lists, carved: seq<set<Elem>>, pool: nat, e: Elem)
    requires Sound(l, carved) && pool < |carved| && e in l.out[pool]
    ensures Sound(Given(l, pool, e), carved)
  {
    var l' := Given(l, pool, e);
    assert Conserves(l, carved, pool);
    assert e !in Elems(l.free[pool]);
    assert Elems([e] + l.free[pool]) == {e} + Elems(l.free[pool]);
    forall i | 0 <= i < |carved| ensures Conserves(l', carved, i) { assert Conserves(l, carved, i); }
  }

  /** memp_free right after memp_malloc restores the pools. */
  lemma GivenUndoesTaken(l: Lists, carved: seq<set<Elem>>, pool: nat)
    requires Sound(l, carved) && Taken(l, pool).0 != null
    ensures Given(Taken(l, pool).1, pool, Taken(l, pool).0) == l
  {
    assert Conserves(l, carved, pool);
    var e := l.free[pool][0];
    assert [e] + l.free[pool][1..] == l.free[pool];
    assert l.out[pool] + {e} - {e} == l.out[pool];
    var l' := Given(Taken(l, pool).1, pool, e);
    assert l'.free == l.free && l'.out == l.out;
  }

  /** head, and from there the next fields, run through the elements of s and end. */
  ghost predicate Linked(head: Elem?, s: seq<Elem>)
    reads s
  {
    && head == (if s == [] then null else s[0])
    && (forall k {:trigger s[k].next} :: 0 <= k < |s| ==> s[k].next == if k + 1 < |s| then s[k+1] else null)
    && (forall k, l :: 0 <= k < l < |s| ==> s[k] != s[l])
  }

  lemma LinkedTail(s: seq<Elem>)
    requires s != [] && Linked(s[0], s)
    ensures Linked(s[0].next, s[1..])
    ensures Elems(s) == {s[0]} + Elems(s[1..]) && s[0] !in s[1..]
  {
    assert s == [s[0]] + s[1..];
  }

  lemma LinkedCons(p: Elem, s: seq<Elem>)
    requires p.next == (if s == [] then null else s[0]) && Linked(p.next, s) && p !in s
    ensures Linked(p, [p] + s) && Elems([p] + s) == {p} + Elems(s)
  {
  }

  class Pools {
    /** memp_tab: the first free element of each pool. */
    const tab: array<Elem?>
    /** For each pool, its free list, the elements handed out, and everything carved for it. */
    ghost var free: seq<seq<Elem>>
    ghost var out: seq<set<Elem>>
    ghost var carved: seq<set<Elem>>
    ghost var memory: set<Elem>

    ghost function State(): Lists
      reads this
    {
      Lists(free, out)
    }

    /** Pool i: its list is sound, and free and handed out elements are what was carved. */
    ghost predicate PoolOk(i: nat)
      reads this, tab, memory
    {
      && i < tab.Length && Conserves(State(), carved, i) && carved[i] <= memory
      && (forall p :: p in free[i] ==> p in memory)
      && Linked(tab[i], free[i])
    }

    ghost predicate Valid()
      reads this, tab, memory
    {
      && |free| == |out| == |carved| == tab.Length
      && (forall i {:trigger PoolOk(i)} :: 0 <= i < tab.Length ==> PoolOk(i))
      && (forall i, j :: 0 <= i < j < tab.Length ==> carved[i] !! carved[j])
    }

    /** In value terms. */
    lemma ValidSound()
      requires Valid()
      ensures Sound(State(), carved)
    {
      forall i | 0 <= i < |carved| ensures Conserves(State(), carved, i) { assert PoolOk(i); }
    }

    /** The first i pools have been carved, the others not yet. */
    ghost predicate CarvedTo(num: seq<nat>, mem: seq<Elem>, i: nat)
      requires |mem| == Total(num)
      reads this, tab, memory
    {
      && i <= |num| == tab.Length && |free| == |out| == |carved| == i && memory == Elems(mem)
      && (forall k {:trigger PoolOk(k)} :: 0 <= k < i ==> PoolOk(k))
      && (forall k :: 0 <= k < i ==> |free[k]| == num[k] && out[k] == {} && carved[k] == Elems(Share(num, mem, k)))
    }

    /** memp_init: carve num[i] elements for each pool i, in order, from the records of mem. */
    constructor (num: seq<nat>, mem: seq<Elem>)
      requires |mem| == Total(num) && forall k, l :: 0 <= k < l < |mem| ==> mem[k] != mem[l]
      modifies mem
      ensures Valid() && fresh(tab) && tab.Length == |num| && memory == Elems(mem)
      ensures forall i :: 0 <= i < |num| ==> |free[i]| == num[i] && out[i] == {}
      ensures forall i :: 0 <= i < |num| ==> carved[i] == Elems(Share(num, mem, i))
    {
      tab := new Elem?[|num|];
      free, out, carved, memory := [], [], [], Elems(mem);
      new;
      var memp := 0;
      var i := 0;
      while i < |num|
        invariant 0 <= i <= |num| && memp == Total(num[..i]) && fresh(tab) && CarvedTo(num, mem, i)
      {
        CarveNext(num, mem, i, memp);
        TotalUpTo(num, i);
        memp := memp + num[i];
        i := i + 1;
      }
      assert num[..|num|] == num;
      forall k, l | 0 <= k < l < |num| ensures carved[k] !! carved[l] { SharesApart(num, mem, k, l); }
    }

    /** The next pool's turn. */
    method CarveNext(num: seq<nat>, mem: seq<Elem>, i: nat, memp: nat)
      requires |mem| == Total(num) && forall k, l :: 0 <= k < l < |mem| ==> mem[k] != mem[l]
      requires i < |num| && memp == Total(num[..i]) && CarvedTo(num, mem, i)
      modifies this, tab, mem
      ensures CarvedTo(num, mem, i + 1)
    {
      hide PoolOk, Total;
      TotalUpTo(num, i);
      forall k | 0 <= k < i ensures carved[k] !! Elems(mem[memp..memp+num[i]]) { SharesApart(num, mem, k, i); }
      ghost var before := free;
      CarvePool(i, mem, memp, num[i]);
      assert forall k :: 0 <= k < i ==> free[k] == before[k];
    }

    /** The inner loop of memp_init: the next pool gets the n records from lo on. */
    method CarvePool(pool: nat, mem: seq<Elem>, lo: nat, n: nat)
      requires lo + n <= |mem| && forall k, l :: 0 <= k < l < |mem| ==> mem[k] != mem[l]
      requires |free| == |out| == |carved| == pool < tab.Length && memory == Elems(mem)
      requires forall k {:trigger PoolOk(k)} :: 0 <= k < pool ==> PoolOk(k)
      requires forall k :: 0 <= k < pool ==> carved[k] !! Elems(mem[lo..lo+n])
      modifies this, tab, mem[lo..lo+n]
      ensures |free| == pool + 1 && old(free) == free[..pool] && |free[pool]| == n
      ensures out == old(out) + [{}] && carved == old(carved) + [Elems(mem[lo..lo+n])] && memory == old(memory)
      ensures forall k {:trigger PoolOk(k)} :: 0 <= k <= pool ==> PoolOk(k)
    {
      ghost var f: seq<Elem> := [];
      tab[pool] := null;
      var i := 0;
      while i < n
        modifies tab, mem[lo..lo+n]
        invariant 0 <= i <= n && |f| == i && Linked(tab[pool], f) && Elems(f) == Elems(mem[lo..lo+i])
        invariant forall k :: 0 <= k < pool ==> tab[k] == old(tab[k])
      {
        var memp := mem[lo+i];
        assert memp == mem[lo..lo+n][i];
        assert mem[lo..lo+i+1] == mem[lo..lo+i] + [memp];
        assert memp !in Elems(mem[lo..lo+i]);
        memp.next := tab[pool];
        tab[pool] := memp;
        LinkedCons(memp, f);
        f := [memp] + f;
        i := i + 1;
      }
      free, out, carved := free + [f], out + [{}], carved + [Elems(mem[lo..lo+n])];
      forall k | 0 <= k <= pool ensures PoolOk(k) {
        if k < pool {
          assert old(PoolOk(k));
          assert old(carved)[k] !! Elems(mem[lo..lo+n]);
          assert free[k] == old(free)[k] && Elems(free[k]) <= carved[k] == old(carved)[k];
          forall p | p in free[k] ensures p in memory && p !in mem[lo..lo+n] {
            assert p in carved[k] && p !in Elems(mem[lo..lo+n]);
          }
          assert forall j :: 0 <= j < |free[k]| ==> free[k][j] in free[k];
        } else {
          forall p | p in f ensures p in memory { assert p in Elems(mem[lo..lo+n]); }
        }
      }
    }

    /** memp_malloc. */
    method Malloc(pool: nat) returns (p: Elem?)
      requires Valid()
      modifies this, tab
      ensures Valid() && carved == old(carved) && memory == old(memory)
      ensures (p, State()) == Taken(old(State()), pool) && Sound(State(), carved)
    {
      ValidSound();
      TakenSound(State(), carved, pool);
      if pool >= tab.Length { return null; }
      p := tab[pool];
      assert PoolOk(pool);
      if p != null {
        LinkedTail(free[pool]);
        tab[pool] := p.next;
        free := free[pool := free[pool][1..]];
        out := out[pool := out[pool] + {p}];
        forall i | 0 <= i < tab.Length ensures PoolOk(i) {
          assert old(PoolOk(i));
        }
      }
    }

    /** memp_free. */
    method Free(pool: nat, p: Elem?)
      requires Valid()
      requires p != null ==> pool < tab.Length && p in out[pool]
      modifies this, tab, p
      ensures Valid() && carved == old(carved) && memory == old(memory)
      ensures State() == (if p == null then old(State()) else Given(old(State()), pool, p)) && Sound(State(), carved)
    {
      ValidSound();
      if p == null { return; }
      GivenSound(State(), carved, pool, p);
      assert PoolOk(pool);
      p.next := tab[pool];
      tab[pool] := p;
      LinkedCons(p, free[pool]);
      forall i | 0 <= i < tab.Length && i != pool ensures p !in free[i] && Linked(tab[i], free[i]) {
        assert old(PoolOk(i));
        assert p in carved[pool];
        assert carved[i] !! carved[pool];
      }
      free := free[pool := [p] + free[pool]];
      out := out[pool := out[pool] - {p}];
      forall i | 0 <= i < tab.Length ensures PoolOk(i) {
        assert old(PoolOk(i));
      }
    }
  }

  function Total(num: seq<nat>): nat {
    if num == [] then 0 else Total(num[..|num|-1]) + num[|num|-1]
  }

  lemma {:induction false} TotalUpTo(num: seq<nat>, i: nat)
    requires i < |num|
    ensures Total(num[..i+1]) == Total(num[..i]) + num[i] <= Total(num)
    decreases |num|
  {
    assert num[..i+1][..i] == num[..i];
    if i + 1 < |num| {
      TotalUpTo(num[..|num|-1], i);
      assert num[..|num|-1][..i+1] == num[..i+1] && num[..|num|-1][..i] == num[..i];
    } else {
      assert num[..i+1] == num;
    }
  }

  /** The records pool i is carved from. */
  ghost function Share(num: seq<nat>, mem: seq<Elem>, i: nat): seq<Elem>
    requires i < |num| && |mem| == Total(num)
  {
    TotalUpTo(num, i);
    mem[Total(num[..i])..Total(num[..i+1])]
  }

  lemma {:induction false} TotalMonotone(num: seq<nat>, i: nat, j: nat)
    requires i <= j <= |num|
    ensures Total(num[..i]) <= Total(num[..j])
    decreases j
  {
    if i < j {
      TotalMonotone(num, i, j - 1);
      TotalUpTo(num, j - 1);
    }
  }

  lemma SharesApart(num: seq<nat>, mem: seq<Elem>, i: nat, j: nat)
    requires i < j < |num| && |mem| == Total(num) && forall k, l :: 0 <= k < l < |mem| ==> mem[k] != mem[l]
    ensures Elems(Share(num, mem, i)) !! Elems(Share(num, mem, j))
  {
    TotalUpTo(num, i);
    TotalUpTo(num, j);
    TotalMonotone(num, i + 1, j);
    var a, b := Share(num, mem, i), Share(num, mem, j);
    forall p, q | 0 <= p < |a| && 0 <= q < |b| ensures a[p] != b[q] {
      assert a[p] == mem[Total(num[..i]) + p] && b[q] == mem[Total(num[..j]) + q];
    }
  }
}
