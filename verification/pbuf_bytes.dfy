/** The bytes a chain of pbufs carries. */
module PbufBytes {
  import opened Words
  import opened PbufTypes

  ghost function Concat(c: seq<seq<byte>>): seq<byte> {
    if c == [] then [] else c[0] + Concat(c[1..])
  }

  /** The data of each record of s starts with the bytes of c. */
  ghost predicate Carries(s: seq<Pbuf>, c: seq<seq<byte>>)
    reads set q | q in s :: q.data
  {
    |c| == |s| && forall k {:trigger c[k]} :: 0 <= k < |s| ==> |c[k]| <= s[k].data.Length && c[k] == s[k].data[..|c[k]|]
  }

  /** Record by record, c is what the chain s carries. */
  ghost predicate Holds(s: seq<Pbuf>, c: seq<seq<byte>>)
    reads s`len, set q | q in s :: q.data
  {
    Carries(s, c) && forall k {:trigger c[k]} :: 0 <= k < |s| ==> s[k].len == |c[k]|
  }

  lemma SameCount(s: seq<Pbuf>, c: seq<seq<byte>>)
    requires Holds(s, c)
    ensures |s| == |c|
  {
  }

  /** tot_len is len plus the tot_len of what follows. */
  ghost predicate Totals(s: seq<Pbuf>)
    reads s`totLen, s`len
  {
    forall k {:trigger s[k].len} :: 0 <= k < |s| ==>
      s[k].totLen == s[k].len + (if k + 1 < |s| then s[k+1].totLen else 0)
  }

  lemma {:induction false} TotalsSum(s: seq<Pbuf>, c: seq<seq<byte>>, k: nat)
    requires Totals(s) && Holds(s, c) && k < |s|
    ensures s[k].totLen == |Concat(c[k..])|
    decreases |s| - k
  {
    assert c[k..][1..] == c[k+1..] && |c[k]| == s[k].len;
    if k + 1 < |s| { TotalsSum(s, c, k + 1); }
  }

  /** The first record's tot_len is the size of the packet. */
  lemma TotalBytes(s: seq<Pbuf>, c: seq<seq<byte>>)
    requires Totals(s) && Holds(s, c) && s != []
    ensures s[0].totLen == |Concat(c)|
  {
    TotalsSum(s, c, 0);
    assert c[0..] == c;
  }

  ghost function TotLens(s: seq<Pbuf>): (r: seq<nat>)
    reads s`totLen
    ensures |r| == |s| && forall k :: 0 <= k < |s| ==> r[k] == s[k].totLen
  {
    if s == [] then [] else [s[0].totLen] + TotLens(s[1..])
  }

  /** The totals of the records of s by themselves, and after t's total was added to each in
      sixteen bits. */
  ghost predicate Added(s: seq<Pbuf>, was: seq<nat>, t: nat)
    reads s`totLen, s`len
  {
    |was| == |s| && forall k {:trigger s[k].len} :: 0 <= k < |s| ==>
      was[k] == s[k].len + (if k + 1 < |s| then was[k+1] else 0) && s[k].totLen == AddU16(was[k], t)
  }

  lemma {:induction false} AddedTotals(s: seq<Pbuf>, was: seq<nat>, t: seq<Pbuf>, k: nat)
    requires t != [] && Added(s, was, t[0].totLen) && Totals(s + t) && k < |s|
    ensures s[k].totLen == was[k] + t[0].totLen
    decreases |s| - k
  {
    assert (s + t)[k].len == s[k].len && s[k].totLen == s[k].len + (s + t)[k+1].totLen;
    if k + 1 < |s| { AddedTotals(s, was, t, k + 1); }
  }

  lemma {:induction false} AddedFits(s: seq<Pbuf>, was: seq<nat>, t: nat, k: nat)
    requires Added(s, was, t) && k < |s| && was[0] + t < U16
    ensures was[k] <= was[0] && s[k].totLen == was[k] + t
  {
    if k > 0 {
      AddedFits(s, was, t, k - 1);
      assert s[k-1].len >= 0;
    }
    assert s[k].len >= 0;
  }

  /** The joined chain has right totals exactly when the two totals together fit sixteen bits. */
  lemma JoinTotals(s: seq<Pbuf>, was: seq<nat>, t: seq<Pbuf>)
    requires s != [] && t != [] && Added(s, was, t[0].totLen) && Totals(t)
    ensures Totals(s + t) <==> was[0] + t[0].totLen < U16
  {
    var r := s + t;
    if Totals(r) {
      AddedTotals(s, was, t, 0);
      assert s[0].len >= 0;
    }
    if was[0] + t[0].totLen < U16 {
      forall k | 0 <= k < |r| ensures r[k].totLen == r[k].len + (if k + 1 < |r| then r[k+1].totLen else 0) {
        if k < |s| {
          AddedFits(s, was, t[0].totLen, k);
          if k + 1 < |s| { AddedFits(s, was, t[0].totLen, k + 1); }
          assert s[k].len >= 0;
        } else {
          assert t[k-|s|].len >= 0;
        }
      }
    }
  }

  lemma {:induction false} ConcatSplit(a: seq<seq<byte>>, b: seq<seq<byte>>)
    ensures Concat(a + b) == Concat(a) + Concat(b)
  {
    if a == [] {
      assert a + b == b;
    } else {
      ConcatSplit(a[1..], b);
      assert (a + b)[1..] == a[1..] + b && (a + b)[0] == a[0];
      Associates(a[0], Concat(a[1..]), Concat(b));
    }
  }

  lemma Associates(x: seq<byte>, y: seq<byte>, z: seq<byte>)
    ensures x + (y + z) == (x + y) + z
  {
  }

  /** Keeping k chunks and the first m bytes of the next keeps a prefix. */
  lemma ConcatPrefix(c: seq<seq<byte>>, k: nat, m: nat)
    requires k < |c| && m <= |c[k]|
    ensures Concat(c[..k] + [c[k][..m]]) <= Concat(c)
    ensures |Concat(c[..k] + [c[k][..m]])| == |Concat(c[..k])| + m
  {
    ConcatSplit(c[..k], [c[k][..m]]);
    ConcatSplit(c[..k], c[k..]);
    assert c == c[..k] + c[k..] && Concat(c[k..]) == c[k] + Concat(c[k..][1..]);
    assert Concat([c[k][..m]]) == c[k][..m] + Concat([]);
  }

  /** The next fields run through s. */
  ghost predicate Linked(s: seq<Pbuf>)
    reads s`next
  {
    && (forall k {:trigger s[k].next} :: 0 <= k < |s| ==> s[k].next == if k + 1 < |s| then s[k+1] else null)
    && (forall k, l :: 0 <= k < l < |s| ==> s[k] != s[l])
  }

  /** No two records share their bytes. */
  ghost predicate OwnData(s: seq<Pbuf>) {
    forall i, j :: 0 <= i < j < |s| ==> s[i].data != s[j].data
  }

  ghost function Data(s: seq<Pbuf>): set<array<byte>> { set p | p in s :: p.data }

  lemma OwnDataGrows(s: seq<Pbuf>, q: Pbuf)
    requires OwnData(s) && q.data !in Data(s)
    ensures OwnData(s + [q]) && Data(s + [q]) == Data(s) + {q.data}
  {
    var t := s + [q];
    forall i, j | 0 <= i < j < |t| ensures t[i].data != t[j].data {
      if j == |s| { assert s[i].data in Data(s); }
    }
    assert forall p :: p in t <==> p in s || p == q;
  }

  /** What a chain holds, whatever it is. */
  lemma {:induction false} Contents(s: seq<Pbuf>) returns (c: seq<seq<byte>>)
    requires forall k :: 0 <= k < |s| ==> s[k].len <= s[k].data.Length
    ensures Holds(s, c)
  {
    if s == [] {
      c := [];
    } else {
      var front := Contents(s[..|s|-1]);
      c := front + [s[|s|-1].data[..s[|s|-1].len]];
      forall k | 0 <= k < |s| ensures |c[k]| <= s[k].data.Length && c[k] == s[k].data[..|c[k]|] && s[k].len == |c[k]| {
        if k < |s| - 1 { assert c[k] == front[k] && s[k] == s[..|s|-1][k]; }
      }
    }
  }

  /** Where record i starts in the packet. */
  ghost function Start(c: seq<seq<byte>>, i: nat): nat
    requires i <= |c|
  {
    |Concat(c[..i])|
  }

  lemma StartStep(c: seq<seq<byte>>, i: nat)
    requires i < |c|
    ensures Start(c, i + 1) == Start(c, i) + |c[i]|
  {
    ConcatSplit(c[..i], [c[i]]);
    assert c[..i+1] == c[..i] + [c[i]] && Concat([c[i]]) == c[i] + Concat([]);
  }

  lemma StartEnds(c: seq<seq<byte>>)
    ensures Start(c, 0) == 0 && Start(c, |c|) == |Concat(c)|
  {
    assert c[..|c|] == c && c[..0] == [];
  }

  lemma Around(c: seq<seq<byte>>, i: nat)
    requires i < |c|
    ensures Concat(c) == Concat(c[..i]) + c[i] + Concat(c[i+1..])
  {
    ConcatSplit(c[..i], c[i..]);
    assert c == c[..i] + c[i..] && c[i..][1..] == c[i+1..];
  }

  /** n bytes of record i from offset k are the packet's bytes from there. */
  lemma ReadAt(c: seq<seq<byte>>, i: nat, k: nat, n: nat)
    requires i < |c| && k + n <= |c[i]|
    ensures Start(c, i) + k + n <= |Concat(c)|
    ensures c[i][k..k+n] == Concat(c)[Start(c, i) + k..Start(c, i) + k + n]
  {
    Around(c, i);
    SliceOfThree(Concat(c[..i]), c[i], Concat(c[i+1..]), k, n);
  }

  lemma SliceOfThree(a: seq<byte>, b: seq<byte>, d: seq<byte>, k: nat, n: nat)
    requires k + n <= |b|
    ensures (a + b + d)[|a| + k..|a| + k + n] == b[k..k+n]
  {
  }

  /** d over the bytes of a from offset k on. */
  function Patch(a: seq<byte>, k: nat, d: seq<byte>): seq<byte>
    requires k + |d| <= |a|
  {
    a[..k] + d + a[k+|d|..]
  }

  /** Writing within a record is writing in the packet. */
  lemma WriteAt(c: seq<seq<byte>>, i: nat, k: nat, d: seq<byte>)
    requires i < |c| && k + |d| <= |c[i]|
    ensures Start(c, i) + k + |d| <= |Concat(c)|
    ensures Concat(c[i := Patch(c[i], k, d)]) == Patch(Concat(c), Start(c, i) + k, d)
  {
    var c' := c[i := Patch(c[i], k, d)];
    Around(c, i);
    Around(c', i);
    assert c'[..i] == c[..i] && c'[i+1..] == c[i+1..];
    PatchMiddle(Concat(c[..i]), c[i], Concat(c[i+1..]), k, d);
  }

  lemma PatchMiddle(a: seq<byte>, b: seq<byte>, e: seq<byte>, k: nat, d: seq<byte>)
    requires k + |d| <= |b|
    ensures a + Patch(b, k, d) + e == Patch(a + b + e, |a| + k, d)
  {
  }

  /** Extending a copied prefix. */
  lemma PatchPrefix(from: seq<byte>, to: seq<byte>, n: nat, m: nat)
    requires n + m <= |from| && n + m <= |to|
    ensures Patch(from[..n] + to[n..], n, from[n..n+m]) == from[..n+m] + to[n+m..]
  {
    assert from[..n+m] == from[..n] + from[n..n+m];
  }

  lemma {:induction false} StartMonotone(c: seq<seq<byte>>, i: nat, j: nat)
    requires i <= j <= |c|
    ensures Start(c, i) <= Start(c, j)
    decreases j
  {
    if i < j {
      StartMonotone(c, i, j - 1);
      StartStep(c, j - 1);
    }
  }
}
