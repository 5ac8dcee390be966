/** Which way pbuf_copy of src/lwip/core/pbuf.c goes, given only the lengths of the records of
    its two chains, whose totals are right. */
module PbufWalk {
  import opened Words

  function Sum(l: seq<nat>): nat { if l == [] then 0 else l[0] + Sum(l[1..]) }

  predicate AllZero(l: seq<nat>) { forall k :: 0 <= k < |l| ==> l[k] == 0 }

  /** The first record holds all there is and is not the last: its len equals its tot_len
      and its next is not NULL. */
  predicate Queued(l: seq<nat>) { |l| > 1 && AllZero(l[1..]) }

  /** pbuf_copy gets to the end, says ERR_VAL, or dereferences NULL. */
  datatype Way = Done | Refused | Crashed

  /** The records that are left and the offset in the first of them, k bytes on. */
  function Past(l: seq<nat>, o: nat, k: nat): (seq<nat>, nat)
    requires l != []
  {
    if o + k < l[0] then (l, o + k) else (l[1..], 0)
  }

  /** The loop of pbuf_copy, from where t and f are left. */
  function Walk(t: seq<nat>, ot: nat, f: seq<nat>, of: nat): Way
    requires f != [] && of <= f[0] && (t != [] ==> ot <= t[0])
    decreases |t| + |f|
  {
    if t == [] then Crashed
    else
      var k := Min(t[0] - ot, f[0] - of);
      var ((t', ot'), (f', of')) := (Past(t, ot, k), Past(f, of, k));
      if Queued(f') || Queued(t') then Refused
      else if f' == [] then Done
      else Walk(t', ot', f', of')
  }

  /** The last record that is not empty, or the first one when all are. */
  function LastFull(l: seq<nat>): (r: nat)
    ensures l != [] ==> r < |l|
  {
    if |l| <= 1 || AllZero(l[1..]) then 0 else 1 + LastFull(l[1..])
  }

  /** There are records after it. */
  predicate Trailing(l: seq<nat>) { |l| > 1 && l[|l|-1] == 0 }

  lemma {:induction false} AllZeroSum(l: seq<nat>)
    ensures AllZero(l) <==> Sum(l) == 0
  {
    if l != [] {
      AllZeroSum(l[1..]);
      assert AllZero(l) <==> l[0] == 0 && AllZero(l[1..]) by {
        if l[0] == 0 && AllZero(l[1..]) {
          forall k | 0 <= k < |l| ensures l[k] == 0 { if k > 0 { assert l[1..][k-1] == 0; } }
        }
        if AllZero(l) { assert l[0] == 0; }
      }
    }
  }

  /** What holds between the turns of the loop. */
  predicate Between(t: seq<nat>, ot: nat, f: seq<nat>, of: nat) {
    && t != [] && f != [] && (ot == 0 || ot < t[0]) && (of == 0 || of < f[0])
    && Sum(f) - of <= Sum(t) - ot && !Queued(t) && !Queued(f)
  }

  /** A source whose last record is empty is refused, since its last full one is looked at. */
  lemma {:induction false} TrailingRefused(t: seq<nat>, ot: nat, f: seq<nat>, of: nat)
    requires Between(t, ot, f, of) && Trailing(f)
    ensures Walk(t, ot, f, of) == Refused
    decreases |t| + |f|
  {
    var k := Min(t[0] - ot, f[0] - of);
    var ((t', ot'), (f', of')) := (Past(t, ot, k), Past(f, of, k));
    AllZeroSum(f[1..]);
    AllZeroSum(t[1..]);
    if !Queued(f') && !Queued(t') {
      TrailingRefused(t', ot', f', of');
    }
  }

  /** Whether the copy of n bytes into t from offset ot on comes to the last full record of t. */
  predicate Reaches(t: seq<nat>, ot: nat, n: nat) {
    var last := LastFull(t);
    && last < |t|
    && var before := Sum(t[..last]) - ot;
    before < n || (before == n && last > 0 && (t[last-1] > 0 || last == 1))
  }

  lemma {:induction false} FullStep(t: seq<nat>)
    requires |t| > 1 && !Queued(t)
    ensures LastFull(t) == 1 + LastFull(t[1..]) && Sum(t[..LastFull(t)]) == t[0] + Sum(t[1..][..LastFull(t[1..])])
    ensures Trailing(t) ==> |t| > 2 && Trailing(t[1..])
    ensures |t| > 2 && Trailing(t[1..]) ==> Trailing(t)
  {
    var r := LastFull(t);
    assert t[..r][1..] == t[1..][..r-1];
  }

  /** Queued after the first record: the last full record is the second. */
  lemma QueuedNext(t: seq<nat>)
    requires |t| > 1 && !Queued(t) && Queued(t[1..])
    ensures Trailing(t) && LastFull(t) == 1 && t[1] > 0 && Sum(t[..1]) == t[0]
  {
    assert t[1..][1..] == t[2..] && t[|t|-1] == t[1..][1..][|t|-3];
    assert LastFull(t[1..]) == 0;
    assert t[..1][1..] == [];
  }

  /** A target that is not left with its last full record has more to hold than its first. */
  lemma ReachesNot(t: seq<nat>, ot: nat, n: nat)
    requires t != [] && ot <= t[0] && !Queued(t) && Trailing(t)
    requires n < t[0] - ot || (n == t[0] - ot && !Queued(t[1..]))
    ensures !Reaches(t, ot, n)
  {
    FullStep(t);
    FullStep2(t);
  }

  lemma FullStep2(t: seq<nat>)
    requires |t| > 2 && !Queued(t) && Trailing(t)
    ensures LastFull(t) == 1 ==> Queued(t[1..])
    ensures LastFull(t) > 1 ==> Sum(t[..LastFull(t)]) >= t[0] + t[LastFull(t)-1]
  {
    FullStep(t);
    var r := LastFull(t) - 1;
    if r > 0 { SumLast(t[1..][..r]); }
  }

  lemma {:induction false} SumLast(l: seq<nat>)
    requires l != []
    ensures Sum(l) >= l[|l|-1]
  {
    if |l| > 1 { SumLast(l[1..]); }
  }

  lemma ReachesFirst(t: seq<nat>, ot: nat, n: nat)
    requires |t| > 1 && !Queued(t) && Queued(t[1..]) && ot <= t[0] && t[0] - ot <= n
    ensures Reaches(t, ot, n)
  {
    QueuedNext(t);
  }

  /** k bytes on, it reaches what it reaches. */
  lemma ReachesOn(t: seq<nat>, ot: nat, n: nat, k: nat)
    requires t != [] && k < n && ot + k <= t[0] && !Queued(t)
    requires var t' := Past(t, ot, k).0; t' != [] && !Queued(t')
    ensures var (t', ot') := Past(t, ot, k); Trailing(t) && Reaches(t, ot, n) <==>
      Trailing(t') && Reaches(t', ot', n - k)
  {
    if ot + k == t[0] { FullStep(t); }
  }

  /** Otherwise the copy is refused exactly when the target ends in empty records and it comes
      to the last full one before them. */
  lemma {:induction false} WalkOn(t: seq<nat>, ot: nat, f: seq<nat>, of: nat)
    requires Between(t, ot, f, of) && !Trailing(f)
    ensures Walk(t, ot, f, of) == if Trailing(t) && Reaches(t, ot, Sum(f) - of) then Refused else Done
    decreases |t| + |f|
  {
    hide Reaches, LastFull, AllZero;
    var k := Min(t[0] - ot, f[0] - of);
    var ((t', ot'), (f', of')) := (Past(t, ot, k), Past(f, of, k));
    PlainNext(t, ot, f, of);
    if Queued(t') {
      ReachesFirst(t, ot, Sum(f) - of);
      QueuedNext(t);
    } else if f' == [] {
      if Trailing(t) { ReachesNot(t, ot, Sum(f) - of); }
    } else {
      WalkOn(t', ot', f', of');
      ReachesOn(t, ot, Sum(f) - of, k);
    }
  }

  /** One turn keeps what holds between turns. */
  lemma PlainNext(t: seq<nat>, ot: nat, f: seq<nat>, of: nat)
    requires Between(t, ot, f, of) && !Trailing(f)
    ensures var k := Min(t[0] - ot, f[0] - of);
      var ((t', ot'), (f', of')) := (Past(t, ot, k), Past(f, of, k));
      && !Queued(f') && !Trailing(f') && k <= Sum(f) - of && (f' == [] <==> Sum(f) - of == k)
      && (f' != [] && !Queued(t') ==> Between(t', ot', f', of') && Sum(f') - of' == Sum(f) - of - k)
  {
    AllZeroSum(f[1..]);
    AllZeroSum(t[1..]);
    if |f| > 1 { QueuedNot(f); }
  }

  lemma QueuedNot(f: seq<nat>)
    requires |f| > 1 && !Trailing(f)
    ensures !Queued(f[1..]) && !Trailing(f[1..]) && !AllZero(f[1..])
  {
    assert f[1..][|f|-2] == f[|f|-1];
    assert |f| > 2 ==> f[1..][1..][|f|-3] == f[|f|-1];
  }

  /** A source of two records, of which only the first holds something, that the target's first
      record can take: its second record is not looked at before it is reached. */
  predicate SlipsThrough(t: seq<nat>, f: seq<nat>) { |f| == 2 && f[1] == 0 && t != [] && f[0] <= t[0] }

  /** When pbuf_copy says ERR_VAL for packets with right totals, though they are no queues: the
      source ends in an empty record, and does not slip through; or the target does, and the
      copy comes to its last full record. */
  predicate Refuses(t: seq<nat>, f: seq<nat>)
    requires t != [] && f != []
  {
    if SlipsThrough(t, f) then
      Trailing(t) && if f[0] < t[0] then LastFull(t) == 0
        else (|t| > 2 && LastFull(t) <= 1) || (|t| > 3 && LastFull(t) == 2 && t[1] == 0)
    else if Trailing(f) then true
    else Trailing(t) && if LastFull(t) == 0 then t != [Sum(f), 0] || f != [Sum(f)] else Reaches(t, 0, Sum(f))
  }

  /** When it dereferences NULL: the source slips through, and fills the target's only record. */
  predicate Crashes(t: seq<nat>, f: seq<nat>) { |f| == 2 && f[1] == 0 && t == [f[0]] }

  lemma CrashIsNoRefusal(t: seq<nat>, f: seq<nat>)
    requires t != [] && f != []
    ensures Crashes(t, f) ==> !Refuses(t, f)
  {
  }

  /** The way it goes, for all packets. */
  lemma WalkExactly(t: seq<nat>, f: seq<nat>)
    requires t != [] && f != [] && Sum(f) <= Sum(t)
    ensures Walk(t, 0, f, 0) == if Refuses(t, f) then Refused else if Crashes(t, f) then Crashed else Done
  {
    if SlipsThrough(t, f) {
      WalkSlipping(t, f);
    } else if Trailing(f) {
      WalkTrailing(t, f);
    } else {
      WalkPlain(t, f);
    }
  }

  lemma QueuedTrailing(l: seq<nat>)
    requires Queued(l)
    ensures Trailing(l) && LastFull(l) == 0 && Sum(l) == l[0]
  {
    assert l[1..][|l|-2] == l[|l|-1];
    AllZeroSum(l[1..]);
  }

  lemma WalkSlipping(t: seq<nat>, f: seq<nat>)
    requires SlipsThrough(t, f) && Sum(f) <= Sum(t)
    ensures Walk(t, 0, f, 0) == if Refuses(t, f) then Refused else if Crashes(t, f) then Crashed else Done
  {
    assert f[1..] == [0] && Past(f, 0, f[0]) == ([0], 0);
    if Queued(t) { QueuedTrailing(t); }
    if f[0] < t[0] {
      if !Queued(t) {
        WalkOn(t, f[0], [0], 0);
        if Trailing(t) { ReachesNot(t, f[0], 0); }
      }
    } else if |t| > 1 {
      var u := t[1..];
      if Queued(u) {
        QueuedTrailing(u);
        if !Queued(t) { QueuedNext(t); }
      } else {
        WalkOn(u, 0, [0], 0);
        SlipReaches(t);
      }
    }
  }

  lemma SlipReaches(t: seq<nat>)
    requires |t| > 1 && !Queued(t[1..])
    ensures Trailing(t[1..]) && Reaches(t[1..], 0, 0) <==>
      Trailing(t) && ((|t| > 2 && LastFull(t) <= 1) || (|t| > 3 && LastFull(t) == 2 && t[1] == 0))
  {
    var u := t[1..];
    assert Trailing(u) ==> u[|u|-1] == t[|t|-1];
    if |t| > 2 {
      assert !Queued(t) && !AllZero(u) by {
        if AllZero(u) {
          forall k | 0 <= k < |u| - 1 ensures u[1..][k] == 0 { assert u[k+1] == 0; }
        }
      }
      FullStep(t);
      var r := LastFull(u);
      assert u[..r] != [];
      SumLast(u[..r]);
      assert r == 1 ==> u[..1][1..] == [] && Sum(u[..1]) == t[1];
    }
  }

  lemma WalkTrailing(t: seq<nat>, f: seq<nat>)
    requires t != [] && Trailing(f) && !SlipsThrough(t, f) && Sum(f) <= Sum(t)
    ensures Walk(t, 0, f, 0) == Refused
  {
    var k := Min(t[0], f[0]);
    var ((t', ot'), (f', of')) := (Past(t, 0, k), Past(f, 0, k));
    AllZeroSum(f[1..]);
    AllZeroSum(t[1..]);
    if !Queued(f') && !Queued(t') { TrailingRefused(t', ot', f', of'); }
  }

  lemma WalkPlain(t: seq<nat>, f: seq<nat>)
    requires t != [] && f != [] && !Trailing(f) && Sum(f) <= Sum(t)
    ensures Walk(t, 0, f, 0) == if Refuses(t, f) then Refused else Done
  {
    if Queued(t) {
      WalkQueued(t, f);
    } else {
      WalkFirst(t, f);
    }
  }

  lemma WalkQueued(t: seq<nat>, f: seq<nat>)
    requires Queued(t) && f != [] && !Trailing(f) && Sum(f) <= Sum(t)
    ensures Walk(t, 0, f, 0) == if t == [Sum(f), 0] && f == [Sum(f)] then Done else Refused
    ensures Trailing(t) && LastFull(t) == 0
  {
    QueuedTrailing(t);
    AllZeroSum(f[1..]);
    if t[0] <= f[0] {
      if |f| > 1 { QueuedTrailing(f); }
      assert f == [t[0]];
      assert |t| > 2 ==> Queued(t[1..]) by { assert t[1..][1..] == t[2..]; }
    }
  }

  lemma WalkFirst(t: seq<nat>, f: seq<nat>)
    requires t != [] && f != [] && !Queued(t) && !Trailing(f) && Sum(f) <= Sum(t)
    ensures Walk(t, 0, f, 0) == if Trailing(t) && Reaches(t, 0, Sum(f)) then Refused else Done
    ensures Trailing(t) ==> LastFull(t) > 0
  {
    if !Queued(f) {
      WalkOn(t, 0, f, 0);
    } else {
      QueuedTrailing(f);
    }
  }

  /** Packets that do not end in empty records are copied. */
  lemma WholePacketsDone(t: seq<nat>, f: seq<nat>)
    requires t != [] && f != [] && Sum(f) <= Sum(t) && !Trailing(t) && !Trailing(f)
    ensures Walk(t, 0, f, 0) == Done
  {
    WalkExactly(t, f);
  }

  /** An empty record at the end of the source, and one more at the end of the target, make all
      the difference. */
  lemma CrashInputs()
    ensures Walk([5], 0, [5, 0], 0) == Crashed
    ensures Walk([5], 0, [3, 2, 0], 0) == Refused
    ensures Walk([5, 0], 0, [5, 0], 0) == Done
  {
    var one, two, three := [5], [5, 0], [3, 2, 0];
    assert one[1..] == [] && two[1..] == [0] && three[1..] == [2, 0];
    WalkExactly(one, two);
    assert Queued([2, 0]);
    assert Past(one, 0, 3) == (one, 3) && Past(three, 0, 3) == ([2, 0], 0);
    WalkExactly(two, two);
  }
}
