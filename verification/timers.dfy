/** The timeout list of src/lwip/core/sys.c: entries hold the time after the entry before
    them; what they mean is a sorted list of expiry times. */
module Timers {
  import opened Words

  /** struct sys_timeo: a time, a handler and its argument. */
  datatype Timeout = Timeout(time: nat, h: nat, arg: nat)

  // ----- on the differences, as the code does it -----

  function Insert(l: seq<Timeout>, t: Timeout): seq<Timeout> {
    if l == [] then [t]
    else if l[0].time > t.time then [t, l[0].(time := l[0].time - t.time)] + l[1..]
    else [l[0]] + Insert(l[1..], t.(time := t.time - l[0].time))
  }

  predicate Matches(t: Timeout, h: nat, arg: nat) { t.h == h && t.arg == arg }

  function Remove(l: seq<Timeout>, h: nat, arg: nat): seq<Timeout> {
    if l == [] then []
    else if !Matches(l[0], h, arg) then [l[0]] + Remove(l[1..], h, arg)
    else if |l| == 1 then []
    else [l[1].(time := l[1].time + l[0].time)] + l[2..]
  }

  /** ms milliseconds pass without the first entry being due. */
  function Wait(l: seq<Timeout>, ms: nat): seq<Timeout> {
    if l == [] then [] else [l[0].(time := if ms < l[0].time then l[0].time - ms else 0)] + l[1..]
  }

  // ----- on absolute expiry times -----

  /** The entries with the times at which they expire, when the list starts at time from. */
  function Expiries(l: seq<Timeout>, from: nat): (a: seq<Timeout>)
    ensures |a| == |l|
  {
    if l == [] then [] else [l[0].(time := from + l[0].time)] + Expiries(l[1..], from + l[0].time)
  }

  ghost predicate Sorted(a: seq<Timeout>) { forall i, j :: 0 <= i < j < |a| ==> a[i].time <= a[j].time }

  /** Behind everything that expires no later. */
  function Schedule(a: seq<Timeout>, t: Timeout): seq<Timeout> {
    if a == [] || a[0].time > t.time then [t] + a else [a[0]] + Schedule(a[1..], t)
  }

  function Cancel(a: seq<Timeout>, h: nat, arg: nat): seq<Timeout> {
    if a == [] then [] else if Matches(a[0], h, arg) then a[1..] else [a[0]] + Cancel(a[1..], h, arg)
  }

  /** b is a, every entry d milliseconds nearer. */
  ghost predicate Nearer(a: seq<Timeout>, b: seq<Timeout>, d: nat) {
    |a| == |b| && forall k :: 0 <= k < |a| ==> a[k].time >= d && b[k] == a[k].(time := a[k].time - d)
  }

  lemma {:induction false} ExpiriesSorted(l: seq<Timeout>, from: nat)
    ensures Sorted(Expiries(l, from)) && forall k :: 0 <= k < |l| ==> Expiries(l, from)[k].time >= from
  {
    if l != [] { ExpiriesSorted(l[1..], from + l[0].time); }
  }

  lemma {:induction false} ExpiriesNearer(l: seq<Timeout>, from: nat, d: nat)
    ensures Nearer(Expiries(l, from + d), Expiries(l, from), d)
  {
    if l != [] { ExpiriesNearer(l[1..], from + l[0].time, d); }
  }

  /** Inserting by differences puts the timeout where it expires, and moves no other expiry. */
  lemma {:induction false} InsertSchedules(l: seq<Timeout>, from: nat, t: Timeout)
    ensures Expiries(Insert(l, t), from) == Schedule(Expiries(l, from), t.(time := from + t.time))
  {
    if l == [] {
    } else if l[0].time > t.time {
      var r := Insert(l, t);
      assert r[1..] == [l[0].(time := l[0].time - t.time)] + l[1..];
      assert r[1..][1..] == l[1..];
    } else {
      InsertSchedules(l[1..], from + l[0].time, t.(time := t.time - l[0].time));
    }
  }

  /** Removing by differences cancels the first match, and moves no other expiry. */
  lemma {:induction false} RemoveCancels(l: seq<Timeout>, from: nat, h: nat, arg: nat)
    ensures Expiries(Remove(l, h, arg), from) == Cancel(Expiries(l, from), h, arg)
  {
    if l != [] {
      if !Matches(l[0], h, arg) {
        RemoveCancels(l[1..], from + l[0].time, h, arg);
      } else if |l| > 1 {
        assert l[1..][1..] == l[2..];
      }
    }
  }

  /** Time passing brings every expiry nearer by what passed, but never past the first. */
  lemma WaitAdvances(l: seq<Timeout>, ms: nat)
    requires l != []
    ensures Nearer(Expiries(l, 0), Expiries(Wait(l, ms), 0), if ms < l[0].time then ms else l[0].time)
  {
    hide Expiries, Nearer;
    var d := if ms < l[0].time then ms else l[0].time;
    ExpiriesNearer(l[1..], l[0].time - d, d);
    assert Wait(l, ms)[1..] == l[1..];
    ExpiriesUnfold(l, 0);
    ExpiriesUnfold(Wait(l, ms), 0);
    NearerCons(l[0].(time := 0 + l[0].time), Expiries(l[1..], l[0].time),
      Wait(l, ms)[0].(time := 0 + Wait(l, ms)[0].time), Expiries(l[1..], l[0].time - d), d);
  }

  lemma ExpiriesUnfold(l: seq<Timeout>, from: nat)
    requires l != []
    ensures Expiries(l, from) == [l[0].(time := from + l[0].time)] + Expiries(l[1..], from + l[0].time)
  {
  }

  lemma NearerCons(x: Timeout, a: seq<Timeout>, y: Timeout, b: seq<Timeout>, d: nat)
    requires Nearer(a, b, d) && x.time >= d && y == x.(time := x.time - d)
    ensures Nearer([x] + a, [y] + b, d)
  {
  }

  /** When the first entry is due and leaves, the others have come nearer by its time. */
  lemma FireAdvances(l: seq<Timeout>)
    requires l != []
    ensures Nearer(Expiries(l, 0)[1..], Expiries(l[1..], 0), l[0].time)
  {
    hide Expiries, Nearer;
    ExpiriesNearer(l[1..], 0, l[0].time);
    ExpiriesUnfold(l, 0);
    assert Expiries(l, 0)[1..] == Expiries(l[1..], l[0].time);
  }

  /** Where a timeout goes: after all that expire no later, before all that expire later. */
  lemma {:induction false} SchedulePlace(a: seq<Timeout>, t: Timeout) returns (i: nat)
    requires Sorted(a)
    ensures i <= |a| && Schedule(a, t) == a[..i] + [t] + a[i..]
    ensures (forall k :: 0 <= k < i ==> a[k].time <= t.time) && (forall k :: i <= k < |a| ==> a[k].time > t.time)
  {
    if a == [] || a[0].time > t.time {
      i := 0;
    } else {
      i := SchedulePlace(a[1..], t);
      assert [a[0]] + (a[1..][..i] + [t] + a[1..][i..]) == a[..i+1] + [t] + a[i+1..];
      forall k | 0 <= k < i + 1 ensures a[k].time <= t.time { if k > 0 { assert a[k] == a[1..][k-1]; } }
      forall k | i + 1 <= k < |a| ensures a[k].time > t.time { assert a[k] == a[1..][k-1]; }
      i := i + 1;
    }
  }

  /** Removing what was just inserted, when nothing before it matches, restores the list. */
  lemma {:induction false} RemoveUndoesInsert(l: seq<Timeout>, t: Timeout)
    requires forall k :: 0 <= k < |l| ==> !Matches(l[k], t.h, t.arg)
    ensures Remove(Insert(l, t), t.h, t.arg) == l
  {
    if l != [] {
      if l[0].time > t.time {
        var r := Insert(l, t);
        assert r[1] == l[0].(time := l[0].time - t.time) && r[2..] == l[1..];
      } else {
        var u := t.(time := t.time - l[0].time);
        RemoveUndoesInsert(l[1..], u);
        assert Insert(l, t)[1..] == Insert(l[1..], u);
      }
    }
  }

  // ----- runs -----

  /** sys_timeout that gets an entry, sys_untimeout, time that passes, the first entry falling due. */
  datatype Event = Set(t: Timeout) | Unset(h: nat, arg: nat) | Pass(ms: nat) | Due

  /** The list and the time it starts from; and, with the times at which they were to expire,
      the timeouts set so far, those cancelled, and those whose handlers were called, in order. */
  datatype Trace = Trace(l: seq<Timeout>, now: nat, set_: multiset<Timeout>, cancelled: multiset<Timeout>,
    fired: seq<Timeout>)

  function At(t: Timeout, from: nat): Timeout { t.(time := from + t.time) }

  function Step(s: Trace, e: Event): Trace {
    match e
    case Set(t) => s.(l := Insert(s.l, t), set_ := s.set_ + multiset{At(t, s.now)})
    case Unset(h, arg) => s.(l := Remove(s.l, h, arg), cancelled := s.cancelled + Match(Expiries(s.l, s.now), h, arg))
    case Pass(ms) => s.(l := Wait(s.l, ms), now := s.now + if s.l == [] then ms else Min(ms, s.l[0].time))
    case Due =>
      if s.l == [] then s else s.(l := s.l[1..], now := s.now + s.l[0].time, fired := s.fired + [At(s.l[0], s.now)])
  }

  /** The first match, if there is one. */
  function Match(a: seq<Timeout>, h: nat, arg: nat): multiset<Timeout> {
    if a == [] then multiset{} else if Matches(a[0], h, arg) then multiset{a[0]} else Match(a[1..], h, arg)
  }

  ghost function Run(s: Trace, es: seq<Event>): Trace
    decreases |es|
  {
    if es == [] then s else Run(Step(s, es[0]), es[1..])
  }

  /** Every timeout set is in one place: cancelled, called, or waiting with the expiry it was
      set for. Handlers were called in the order of the expiries, none of them before its time
      by the list's clock. */
  ghost predicate Accounted(s: Trace) {
    s.set_ == s.cancelled + multiset(s.fired) + multiset(Expiries(s.l, s.now)) && InOrder(s.fired, s.now)
  }

  ghost predicate InOrder(fired: seq<Timeout>, now: nat) {
    Sorted(fired) && forall k :: 0 <= k < |fired| ==> fired[k].time <= now
  }

  lemma OrderKept(fired: seq<Timeout>, now: nat, now': nat, x: Timeout)
    requires InOrder(fired, now) && now <= now'
    ensures InOrder(fired, now') && (x.time == now' ==> InOrder(fired + [x], now'))
  {
  }

  lemma {:induction false} ScheduleAdds(a: seq<Timeout>, t: Timeout)
    ensures multiset(Schedule(a, t)) == multiset(a) + multiset{t}
  {
    if a != [] && a[0].time <= t.time {
      ScheduleAdds(a[1..], t);
      assert a == [a[0]] + a[1..];
    }
  }

  lemma {:induction false} CancelTakes(a: seq<Timeout>, h: nat, arg: nat)
    ensures multiset(a) == multiset(Cancel(a, h, arg)) + Match(a, h, arg)
  {
    if a != [] {
      assert a == [a[0]] + a[1..];
      if !Matches(a[0], h, arg) { CancelTakes(a[1..], h, arg); }
    }
  }

  lemma PassKeeps(l: seq<Timeout>, now: nat, ms: nat)
    requires l != []
    ensures Expiries(Wait(l, ms), now + Min(ms, l[0].time)) == Expiries(l, now)
  {
    assert Wait(l, ms)[1..] == l[1..];
  }

  lemma SetAccounts(s: Trace, t: Timeout)
    requires Accounted(s)
    ensures Accounted(Step(s, Set(t)))
  {
    hide Expiries, Insert, Schedule, InOrder;
    InsertSchedules(s.l, s.now, t);
    ScheduleAdds(Expiries(s.l, s.now), At(t, s.now));
  }

  lemma UnsetAccounts(s: Trace, h: nat, arg: nat)
    requires Accounted(s)
    ensures Accounted(Step(s, Unset(h, arg)))
  {
    hide Expiries, Remove, Cancel, Match, InOrder;
    RemoveCancels(s.l, s.now, h, arg);
    CancelTakes(Expiries(s.l, s.now), h, arg);
    Moved(s.cancelled, Match(Expiries(s.l, s.now), h, arg), multiset(s.fired),
      multiset(Expiries(Remove(s.l, h, arg), s.now)));
  }

  lemma Moved(c: multiset<Timeout>, m: multiset<Timeout>, f: multiset<Timeout>, e: multiset<Timeout>)
    ensures c + f + (e + m) == (c + m) + f + e == c + (f + m) + e
  {
  }

  lemma DueAccounts(s: Trace)
    requires Accounted(s) && s.l != []
    ensures Accounted(Step(s, Due))
  {
    hide Expiries, InOrder;
    var x, rest := At(s.l[0], s.now), Expiries(s.l[1..], s.now + s.l[0].time);
    ExpiriesUnfold(s.l, s.now);
    OrderKept(s.fired, s.now, s.now + s.l[0].time, x);
    assert multiset([x] + rest) == multiset(rest) + multiset{x};
    assert multiset(s.fired + [x]) == multiset(s.fired) + multiset{x};
    Moved(s.cancelled, multiset{x}, multiset(s.fired), multiset(rest));
  }

  lemma PassAccounts(s: Trace, ms: nat)
    requires Accounted(s)
    ensures Accounted(Step(s, Pass(ms)))
  {
    hide Expiries, InOrder, Wait;
    OrderKept(s.fired, s.now, Step(s, Pass(ms)).now, Timeout(0, 0, 0));
    if s.l == [] { NoneLeft(s.now, s.now + ms, ms); } else { PassKeeps(s.l, s.now, ms); }
  }

  lemma StepAccounts(s: Trace, e: Event)
    requires Accounted(s)
    ensures Accounted(Step(s, e))
  {
    hide Accounted;
    match e {
      case Set(t) => SetAccounts(s, t);
      case Unset(h, arg) => UnsetAccounts(s, h, arg);
      case Pass(ms) => PassAccounts(s, ms);
      case Due => if s.l != [] { DueAccounts(s); }
    }
  }

  lemma NoneLeft(from: nat, to: nat, ms: nat)
    ensures Expiries([], from) == Expiries([], to) == [] && Wait([], ms) == []
  {
  }

  /** Over every run. */
  lemma {:induction false} RunAccounts(s: Trace, es: seq<Event>)
    requires Accounted(s)
    ensures Accounted(Run(s, es))
    decreases |es|
  {
    if es != [] {
      StepAccounts(s, es[0]);
      RunAccounts(Step(s, es[0]), es[1..]);
    }
  }

  // ----- thirty-two bits suffice -----

  /** The time of the last expiry. */
  function Span(l: seq<Timeout>): nat { if l == [] then 0 else l[0].time + Span(l[1..]) }

  lemma {:induction false} InsertSpan(l: seq<Timeout>, t: Timeout)
    ensures Span(Insert(l, t)) == if Span(l) > t.time then Span(l) else t.time
  {
    if l == [] {
      assert [t][1..] == [];
    } else if l[0].time > t.time {
      var r := Insert(l, t);
      assert r[1..][0] == l[0].(time := l[0].time - t.time) && r[1..][1..] == l[1..];
    } else {
      InsertSpan(l[1..], t.(time := t.time - l[0].time));
    }
  }

  lemma {:induction false} RemoveSpan(l: seq<Timeout>, h: nat, arg: nat)
    ensures Span(Remove(l, h, arg)) <= Span(l)
  {
    if l != [] {
      if !Matches(l[0], h, arg) { RemoveSpan(l[1..], h, arg); }
      else if |l| > 1 { assert l[1..][1..] == l[2..]; }
    }
  }

  lemma {:induction false} SpanBounds(l: seq<Timeout>, k: nat)
    requires k < |l|
    ensures Span(l[k..]) <= Span(l) && l[k].time <= Span(l[k..])
    ensures k + 1 < |l| ==> l[k].time + l[k+1].time <= Span(l)
  {
    if k > 0 {
      SpanBounds(l[1..], k - 1);
      assert l[1..][k-1..] == l[k..];
    } else if |l| > 1 {
      assert l[1..][0] == l[1];
    }
  }

  // ----- the linked list -----

  /** c between entries k and k + 1, whose time is counted from c on. */
  function Placed(l: seq<Timeout>, k: nat, c: Timeout): seq<Timeout>
    requires k < |l| && (k + 1 < |l| ==> c.time <= l[k+1].time)
  {
    l[..k+1] + [c] + if k + 1 < |l| then [l[k+1].(time := l[k+1].time - c.time)] + l[k+2..] else []
  }

  /** Stepping over an entry that expires no later. */
  lemma InsertStep(l: seq<Timeout>, k: nat, c: Timeout)
    requires k < |l| && l[k].time <= c.time
    ensures var d := c.(time := c.time - l[k].time);
      && l[..k] + Insert(l[k..], c) == l[..k+1] + Insert(l[k+1..], d)
      && (k + 1 == |l| || l[k+1].time > d.time ==> l[..k] + Insert(l[k..], c) == Placed(l, k, d))
  {
    var d := c.(time := c.time - l[k].time);
    assert l[k..][1..] == l[k+1..] && l[..k+1] == l[..k] + [l[k]];
    if k + 1 < |l| { assert l[k+1..][1..] == l[k+2..]; }
  }

  /** The list without entry k, whose time goes to the next. */
  function Dropped(l: seq<Timeout>, k: nat): seq<Timeout>
    requires k < |l|
  {
    l[..k] + if k + 1 < |l| then [l[k+1].(time := l[k+1].time + l[k].time)] + l[k+2..] else []
  }

  lemma RemoveStep(l: seq<Timeout>, k: nat, h: nat, arg: nat)
    requires k < |l|
    ensures !Matches(l[k], h, arg) ==> l[..k] + Remove(l[k..], h, arg) == l[..k+1] + Remove(l[k+1..], h, arg)
    ensures Matches(l[k], h, arg) ==> l[..k] + Remove(l[k..], h, arg) == Dropped(l, k)
  {
    assert l[k..][1..] == l[k+1..] && l[..k+1] == l[..k] + [l[k]];
    if k + 1 < |l| { assert l[k..][2..] == l[k+2..]; }
  }

  class SysTimeo {
    var next: SysTimeo?
    var time: nat
    var h: nat
    var arg: nat

    constructor (time: nat, h: nat, arg: nat)
      ensures next == null && View() == Timeout(time, h, arg)
    {
      next, this.time, this.h, this.arg := null, time, h, arg;
    }

    ghost function View(): Timeout
      reads `time, `h, `arg
    {
      Timeout(time, h, arg)
    }
  }

  ghost function Views(s: seq<SysTimeo>): (v: seq<Timeout>)
    reads s`time, s`h, s`arg
    ensures |v| == |s| && forall i :: 0 <= i < |s| ==> v[i] == s[i].View()
  {
    if s == [] then [] else [s[0].View()] + Views(s[1..])
  }

  ghost predicate Linked(head: SysTimeo?, s: seq<SysTimeo>)
    reads s`next
  {
    && head == (if s == [] then null else s[0])
    && (forall k {:trigger s[k].next} :: 0 <= k < |s| ==> s[k].next == if k + 1 < |s| then s[k+1] else null)
    && (forall k, l :: 0 <= k < l < |s| ==> s[k] != s[l])
  }

  lemma PlacedIs(s: seq<SysTimeo>, v: seq<Timeout>, k: nat, c: Timeout, r: seq<SysTimeo>)
    requires k < |s| == |v| && (k + 1 < |v| ==> c.time <= v[k+1].time)
    requires |r| == |s| + 1 && r[k+1].View() == c && (forall i :: 0 <= i <= k ==> r[i].View() == v[i])
    requires k + 1 < |v| ==> r[k+2].View() == v[k+1].(time := v[k+1].time - c.time)
    requires forall i :: k + 1 < i < |v| ==> r[i+1].View() == v[i]
    ensures Views(r) == Placed(v, k, c)
  {
    var p := Placed(v, k, c);
    forall i | 0 <= i < |r| ensures r[i].View() == p[i] {
      if i > k + 2 { assert r[(i-1)+1].View() == v[i-1] && p[i] == v[i-1]; }
    }
  }

  lemma FirstIs(s: seq<SysTimeo>, v: seq<Timeout>, c: Timeout)
    requires |s| == |v| + 1 && v != [] && s[0].View() == c && c.time < v[0].time
    requires s[1].View() == v[0].(time := v[0].time - c.time) && forall i :: 1 < i < |s| ==> s[i].View() == v[i-1]
    ensures Views(s) == Insert(v, c)
  {
    var r := Insert(v, c);
    assert r == [c, v[0].(time := v[0].time - c.time)] + v[1..];
    forall i | 0 <= i < |s| ensures s[i].View() == r[i] {
      if i > 1 { assert r[i] == v[i-1]; }
    }
  }

  lemma DroppedIs(s: seq<SysTimeo>, v: seq<Timeout>, k: nat, r: seq<SysTimeo>)
    requires k < |s| == |v| && |r| == |s| - 1 && (forall i :: 0 <= i < k ==> r[i].View() == v[i])
    requires k + 1 < |v| ==> r[k].View() == v[k+1].(time := v[k+1].time + v[k].time)
    requires forall i :: k < i < |r| ==> r[i].View() == v[i+1]
    ensures Views(r) == Dropped(v, k)
  {
    var p := Dropped(v, k);
    forall i | 0 <= i < |r| ensures r[i].View() == p[i] {
      if i > k { assert p[i] == v[i+1]; }
    }
  }

  class SysTimeouts {
    var next: SysTimeo?
    ghost var s: seq<SysTimeo>

    ghost predicate Valid()
      reads this, s
    {
      Linked(next, s) && Span(Views(s)) < U32
    }

    constructor ()
      ensures Valid() && Views(s) == []
    {
      next, s := null, [];
    }

    /** sys_timeout; room says whether memp_malloc has an entry. */
    method SysTimeout(msecs: nat, h: nat, arg: nat, room: bool)
      requires Valid() && msecs < U32
      modifies this, s
      ensures Valid() && Views(s) == if room then Insert(old(Views(s)), Timeout(msecs, h, arg)) else old(Views(s))
    {
      hide Views, Insert, Span, Linked;
      if !room { return; }
      var timeout := new SysTimeo(msecs, h, arg);
      InsertSpan(Views(s), Timeout(msecs, h, arg));
      if next != null { HeadIs(Views(s)); }
      if next == null {
        InsertOnly(timeout);
      } else if next.time > msecs {
        InsertFirst(timeout);
      } else {
        InsertAfter(timeout);
      }
    }

    /** sys_timeout on an empty list. */
    method InsertOnly(timeout: SysTimeo)
      requires Linked(next, s) && next == null && timeout.next == null
      modifies this
      ensures Linked(next, s) && Views(s) == Insert(old(Views(s)), timeout.View())
    {
      next := timeout;
      s := [timeout];
    }

    /** sys_timeout before every other entry. */
    method InsertFirst(timeout: SysTimeo)
      requires Valid() && timeout !in s && next != null && timeout.time < next.time
      modifies this, next`time, timeout`next
      ensures Linked(next, s) && Views(s) == Insert(old(Views(s)), timeout.View())
    {
      hide Span, Views, Insert;
      ghost var v, was := Views(s), s;
      SpanBounds(v, 0);
      FitsU32(next.time, timeout.time);
      next.time := SubU32(next.time, timeout.time);
      Push(timeout);
      assert forall i :: 1 < i < |s| ==> s[i] == was[i-1];
      FirstIs(s, v, timeout.View());
    }

    method Push(timeout: SysTimeo)
      requires Linked(next, s) && timeout !in s
      modifies this, timeout`next
      ensures Linked(next, s) && s == [timeout] + old(s)
    {
      timeout.next := next;
      next := timeout;
      s := [timeout] + s;
    }

    /** The insertion, with the first k entries stepped over and c what is left to insert. */
    ghost function Onward(v: seq<Timeout>, k: nat, c: Timeout): seq<Timeout>
      requires k <= |v|
    {
      v[..k] + Insert(v[k..], c)
    }

    lemma OnwardStart(v: seq<Timeout>, c: Timeout)
      ensures Onward(v, 0, c) == Insert(v, c)
    {
      assert v[0..] == v;
    }

    /** The time of t comes off the new entry's. */
    method StepPast(t: SysTimeo, timeout: SysTimeo, ghost v: seq<Timeout>, ghost k: nat, ghost t0: Timeout)
      requires Linked(next, s) && v == Views(s) && k < |s| && t == s[k] && timeout !in s &&
        v[k].time <= timeout.time < U32
      requires Insert(v, t0) == Onward(v, k, timeout.View())
      modifies timeout`time
      ensures Linked(next, s) && v == Views(s) && timeout.time < U32
      ensures Insert(v, t0) == Onward(v, k + 1, timeout.View())
      ensures k + 1 == |v| || v[k+1].time > timeout.time ==> Insert(v, t0) == Placed(v, k, timeout.View())
      ensures t.next == (if k + 1 < |s| then s[k+1] else null) && (t.next != null ==> t.next.time == v[k+1].time)
    {
      hide Insert, Placed, Linked, Views;
      NextIs(k);
      InsertStep(v, k, timeout.View());
      FitsU32(timeout.time, t.time);
      assert v[k] == s[k].View() && t != timeout;
      timeout.time := SubU32(timeout.time, t.time);
      SameViews(s, v);
    }

    lemma HeadIs(v: seq<Timeout>)
      requires Valid() && v == Views(s) && next != null
      ensures Linked(next, s) && Span(v) < U32 && s != [] && next == s[0] && v[0].time == next.time && |v| == |s|
    {
    }

    lemma NextIs(k: nat)
      requires Linked(next, s) && k < |s|
      ensures s[k].next == if k + 1 < |s| then s[k+1] else null
    {
    }

    lemma SameViews(s: seq<SysTimeo>, v: seq<Timeout>)
      requires |v| == |s| && forall i :: 0 <= i < |s| ==> v[i] == s[i].View()
      ensures Views(s) == v
    {
    }

    /** The loop of sys_timeout. */
    method InsertAfter(timeout: SysTimeo)
      requires Valid() && timeout !in s && next != null && next.time <= timeout.time < U32
      modifies this, s, timeout
      ensures Linked(next, s) && Views(s) == Insert(old(Views(s)), old(timeout.View()))
    {
      hide Views, Insert, Span, Placed, Linked, SysTimeouts.Valid, SysTimeouts.Onward;
      ghost var v, k, t0 := Views(s), 0, timeout.View();
      var t := next;
      HeadIs(v);
      OnwardStart(v, t0);
      while t != null
        modifies timeout`time
        invariant 0 <= k < |s| == |v| && t == s[k] && v[k].time <= timeout.time < U32
        invariant Views(s) == v && Linked(next, s)
        invariant Insert(v, t0) == Onward(v, k, timeout.View())
        decreases |s| - k
      {
        StepPast(t, timeout, v, k, t0);
        if t.next == null || t.next.time > timeout.time { break; }
        t := t.next;
        k := k + 1;
      }
      LinkAfter(t, timeout, v, k);
    }

    /** The entry goes after t, and the time of the one behind it is counted from there. */
    method LinkAfter(t: SysTimeo, timeout: SysTimeo, ghost v: seq<Timeout>, ghost k: nat)
      requires Linked(next, s) && v == Views(s) && Span(v) < U32 && k < |s| && t == s[k] && timeout !in s
      requires t.next == null || t.next.time > timeout.time
      modifies this, s, timeout`next
      ensures Linked(next, s) && (k + 1 < |v| ==> timeout.time <= v[k+1].time) &&
        Views(s) == Placed(v, k, timeout.View())
    {
      hide Views, Placed, Span;
      assert s[k].next == if k + 1 < |s| then s[k+1] else null;
      if t.next != null {
        FitsU32(t.next.time, timeout.time);
        SpanBounds(v, k + 1);
        t.next.time := SubU32(t.next.time, timeout.time);
      }
      ghost var was := s;
      Splice(t, timeout, k);
      PlacedIs(was, v, k, timeout.View(), s);
    }

    method Splice(t: SysTimeo, timeout: SysTimeo, ghost k: nat)
      requires Linked(next, s) && k < |s| && t == s[k] && timeout !in s
      modifies `s, t`next, timeout`next
      ensures Linked(next, s) && s == InsertAt(old(s), k + 1, timeout)
    {
      timeout.next := t.next;
      t.next := timeout;
      s := InsertAt(s, k + 1, timeout);
    }

    /** The loop of sys_untimeout: the first match and the entry before it. */
    method Seek(h: nat, arg: nat, ghost v: seq<Timeout>) returns (prev: SysTimeo?, t: SysTimeo?, ghost k: nat)
      requires Linked(next, s) && v == Views(s)
      ensures k <= |s| == |v| && t == (if k < |s| then s[k] else null) && prev == (if k > 0 then s[k-1] else null)
      ensures Remove(v, h, arg) == if k < |v| then Dropped(v, k) else v
    {
      hide Remove, Dropped, Views;
      RemoveSome(v, h, arg);
      prev, t, k := null, next, 0;
      while t != null && !(t.h == h && t.arg == arg)
        invariant 0 <= k <= |s| == |v| && t == (if k < |s| then s[k] else null) &&
          prev == (if k > 0 then s[k-1] else null)
        invariant Remove(v, h, arg) == v[..k] + Remove(v[k..], h, arg)
        decreases |s| - k
      {
        assert v[k] == s[k].View();
        RemoveStep(v, k, h, arg);
        assert s[k].next == if k + 1 < |s| then s[k+1] else null;
        prev := t;
        t := t.next;
        k := k + 1;
      }
      if t == null {
        RemoveNone(v, h, arg);
      } else {
        assert v[k] == s[k].View();
        RemoveStep(v, k, h, arg);
      }
    }

    /** sys_untimeout. */
    method SysUntimeout(h: nat, arg: nat)
      requires Valid()
      modifies this, s
      ensures Valid() && Views(s) == Remove(old(Views(s)), h, arg)
    {
      hide Views, Remove, Span, Dropped, Linked;
      ghost var v := Views(s);
      RemoveSpan(v, h, arg);
      if next == null {
        NothingListed(v, h, arg);
        return;
      }
      var prev, t;
      ghost var k;
      prev, t, k := Seek(h, arg, v);
      if t != null { Unlink(prev, t, v, k); }
    }

    lemma NothingListed(v: seq<Timeout>, h: nat, arg: nat)
      requires Linked(null, s) && v == Views(s)
      ensures Remove(v, h, arg) == v
    {
    }

    lemma RemoveSome(v: seq<Timeout>, h: nat, arg: nat)
      ensures Remove(v, h, arg) == v[..0] + Remove(v[0..], h, arg)
    {
      assert v[0..] == v;
    }

    lemma RemoveNone(v: seq<Timeout>, h: nat, arg: nat)
      ensures v[..|v|] + Remove(v[|v|..], h, arg) == v
    {
    }

    /** Take entry k out and give its time to the next. */
    method Unlink(prev: SysTimeo?, t: SysTimeo, ghost v: seq<Timeout>, ghost k: nat)
      requires Linked(next, s) && v == Views(s) && Span(v) < U32 && k < |s| && t == s[k] &&
        prev == (if k > 0 then s[k-1] else null)
      modifies this, s
      ensures Linked(next, s) && Views(s) == Dropped(v, k)
    {
      hide Views, Dropped, Span;
      assert s[k].next == if k + 1 < |s| then s[k+1] else null;
      if t.next != null {
        SpanBounds(v, k);
        FitsU32(t.next.time, t.time);
        t.next.time := AddU32(t.next.time, t.time);
      }
      ghost var was := s;
      Cut(prev, t, k);
      DroppedIs(was, v, k, s);
    }

    method Cut(prev: SysTimeo?, t: SysTimeo, ghost k: nat)
      requires Linked(next, s) && k < |s| && t == s[k] && prev == (if k > 0 then s[k-1] else null)
      modifies this, s`next
      ensures Linked(next, s) && s == RemoveAt(old(s), k)
    {
      assert s[k].next == if k + 1 < |s| then s[k+1] else null;
      if prev == null {
        next := t.next;
      } else {
        prev.next := t.next;
      }
      s := RemoveAt(s, k);
    }

    /** sys_mbox_fetch and sys_sem_wait after ms milliseconds in which nothing was due. */
    method Elapse(ms: nat)
      requires Valid() && next != null
      modifies next`time
      ensures Valid() && Views(s) == Wait(old(Views(s)), ms)
    {
      ghost var v := Views(s);
      assert v[1..] == Views(s[1..]);
      if ms < next.time {
        FitsU32(next.time, ms);
        SpanBounds(v, 0);
        next.time := SubU32(next.time, ms);
      } else {
        next.time := 0;
      }
      assert Views(s) == Wait(v, ms);
      assert Wait(v, ms)[1..] == v[1..];
    }

    /** The same when the first entry is due: it leaves, and its handler is to be called. */
    method Fire() returns (h: nat, arg: nat)
      requires Valid() && next != null
      modifies this
      ensures Valid() && Views(s) == old(Views(s))[1..]
      ensures h == old(Views(s))[0].h && arg == old(Views(s))[0].arg
    {
      h, arg := next.h, next.arg;
      assert s[0].next == if 1 < |s| then s[1] else null;
      next := next.next;
      s := s[1..];
    }
  }
}
