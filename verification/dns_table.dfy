/** The query table of src/lwip/core/dns.c: dns_check_entry, dns_recv and dns_enqueue. */
module DnsTable {
  import opened Words

  const DNS_TABLE_SIZE: nat := 4
  const DNS_MAX_RETRIES: nat := 4
  const DNS_MAX_SERVERS: nat := 2
  const DNS_MAX_TTL: nat := 604800

  datatype Status = Unused | New | Asking | Done

  /** struct dns_table_entry. query tells the enqueued queries apart; each one's callback is
      called with its own. */
  datatype Entry = Entry(status: Status, numdns: nat, tmr: nat, retries: nat, seqno: nat, ttl: nat, query: nat)

  function DecU8(x: nat): nat { if x == 0 then U8 - 1 else x - 1 }

  function DecU32(x: nat): nat { if x == 0 then U32 - 1 else x - 1 }

  /** The next server, if there is one with an address. */
  predicate HasNext(servers: seq<bool>, numdns: nat) {
    numdns + 1 < DNS_MAX_SERVERS && numdns + 1 < |servers| && servers[numdns + 1]
  }

  /** dns_check_entry: the entry afterwards, and whether the callback reported a timeout. */
  function Check(e: Entry, servers: seq<bool>): (Entry, bool) {
    match e.status
    case New => (e.(status := Asking, numdns := 0, tmr := 1, retries := 0), false)
    case Asking =>
      if DecU8(e.tmr) != 0 then (e.(tmr := DecU8(e.tmr)), false)
      else
        var retries := IncU8(e.retries);
        if retries != DNS_MAX_RETRIES then (e.(tmr := retries, retries := retries), false)
        else if HasNext(servers, e.numdns) then (e.(numdns := IncU8(e.numdns), tmr := 1, retries := 0), false)
        else (e.(status := Unused, tmr := 0, retries := retries), true)
    case Done =>
      var ttl := DecU32(e.ttl);
      (e.(status := if ttl == 0 then Unused else Done, ttl := ttl), false)
    case Unused => (e, false)
  }

  // ----- how long an unanswered query lasts -----

  /** retries + 1, retries + 2, and so on below DNS_MAX_RETRIES, summed. */
  function Waits(retries: nat): nat
    decreases DNS_MAX_RETRIES - retries
  {
    if retries + 1 >= DNS_MAX_RETRIES then 0 else retries + 1 + Waits(retries + 1)
  }

  lemma {:induction false} WaitsClosed(retries: nat)
    requires retries < DNS_MAX_RETRIES
    ensures 2 * Waits(retries) == DNS_MAX_RETRIES * (DNS_MAX_RETRIES - 1) - retries * (retries + 1)
    decreases DNS_MAX_RETRIES - retries
  {
    if retries + 1 < DNS_MAX_RETRIES { WaitsClosed(retries + 1); }
  }

  /** The ticks this server still has. */
  function TicksLeft(e: Entry): nat { e.tmr + Waits(e.retries) }

  /** The ticks each server gets. */
  function TicksPerServer(): nat { 1 + DNS_MAX_RETRIES * (DNS_MAX_RETRIES - 1) / 2 }

  ghost predicate Pending(e: Entry) {
    e.status == Asking && e.tmr > 0 && e.retries < DNS_MAX_RETRIES && e.numdns < DNS_MAX_SERVERS
  }

  /** The servers from this one on that have addresses without a gap. */
  function ServersLeft(servers: seq<bool>, numdns: nat): nat
    decreases DNS_MAX_SERVERS - numdns
  {
    1 + if HasNext(servers, numdns) then ServersLeft(servers, numdns + 1) else 0
  }

  /** All the ticks the query still has. */
  function Deadline(e: Entry, servers: seq<bool>): nat {
    TicksLeft(e) + (ServersLeft(servers, e.numdns) - 1) * TicksPerServer()
  }

  /** A tick uses up one of them, and the callback reports the timeout exactly at the last. */
  lemma TickCounts(e: Entry, servers: seq<bool>)
    requires Pending(e)
    ensures var (e', fired) := Check(e, servers);
      && (fired <==> Deadline(e, servers) == 1)
      && (if fired then e'.status == Unused else Pending(e') && Deadline(e', servers) == Deadline(e, servers) - 1)
  {
    WaitsClosed(e.retries);
    WaitsClosed(0);
  }

  ghost function Ticks(e: Entry, servers: seq<bool>, n: nat): Entry {
    if n == 0 then e else Check(Ticks(e, servers, n - 1), servers).0
  }

  /** A new query that nobody answers is pending for 1 + R(R-1)/2 ticks for each server that
      can be reached, and then its callback is called. */
  lemma {:induction false} TimesOut(e: Entry, servers: seq<bool>, n: nat)
    requires e.status == New && 0 < n <= ServersLeft(servers, 0) * TicksPerServer()
    ensures var q := Ticks(e, servers, n);
      Pending(q) && Deadline(q, servers) == ServersLeft(servers, 0) * TicksPerServer() + 1 - n
    ensures n == ServersLeft(servers, 0) * TicksPerServer() ==> Check(Ticks(e, servers, n), servers).1
  {
    WaitsClosed(0);
    if n > 1 {
      TimesOut(e, servers, n - 1);
      TickCounts(Ticks(e, servers, n - 1), servers);
    } else {
      assert Ticks(e, servers, 0) == e;
    }
    TickCounts(Ticks(e, servers, n), servers);
  }

  /** A completed entry stays for its time to live; for a time to live of zero that is 2^32 ticks. */
  lemma {:induction false} Flushed(e: Entry, servers: seq<bool>, n: nat)
    requires e.status == Done && e.ttl < U32
    ensures var life := if e.ttl == 0 then U32 else e.ttl;
      && (n < life ==> Ticks(e, servers, n).status == Done)
      && (n == life ==> Ticks(e, servers, n).status == Unused)
  {
    var life := if e.ttl == 0 then U32 else e.ttl;
    if n < life { StaysDone(e, servers, n); } else if n == life { StaysDone(e, servers, n - 1); }
  }

  lemma {:induction false} StaysDone(e: Entry, servers: seq<bool>, n: nat)
    requires e.status == Done && e.ttl < U32 && n < if e.ttl == 0 then U32 else e.ttl
    ensures Ticks(e, servers, n).status == Done
    ensures Ticks(e, servers, n).ttl == if n == 0 then e.ttl else (if e.ttl == 0 then U32 else e.ttl) - n
  {
    if n > 0 { StaysDone(e, servers, n - 1); }
  }

  // ----- the table -----

  /** dns_table and dns_seqno, a u8_t; finished holds the queries whose callbacks have been called. */
  datatype Dns = Dns(table: seq<Entry>, seqno: nat, finished: multiset<nat>)

  /** What dns_recv makes of a message for an entry that asks: an address for ttl seconds, or an error. */
  datatype Verdict = Answer(ttl: nat) | Error

  /** The entry a response is for: its identifier cut to a u8_t. */
  function ResponseIndex(id: nat): nat { id % U8 }

  /** dns_recv of a message with this identifier. Either way the callback is called. */
  function Receive(d: Dns, id: nat, v: Verdict): Dns {
    var i := ResponseIndex(id);
    if i >= DNS_TABLE_SIZE || i >= |d.table| || d.table[i].status != Asking then d
    else
      var e := match v
        case Answer(ttl) => d.table[i].(status := Done, ttl := Min(ttl, DNS_MAX_TTL))
        case Error => d.table[i].(status := Unused);
      Dns(d.table[i := e], d.seqno, d.finished + multiset{d.table[i].query})
  }

  /** dns_check_entry of entry i. */
  function CheckEntry(d: Dns, i: nat, servers: seq<bool>): Dns
    requires i < |d.table|
  {
    var (e, fired) := Check(d.table[i], servers);
    Dns(d.table[i := e], d.seqno, if fired then d.finished + multiset{d.table[i].query} else d.finished)
  }

  /** The first i entries checked in turn. */
  function CheckSome(d: Dns, i: nat, servers: seq<bool>): (r: Dns)
    requires i <= |d.table|
    ensures |r.table| == |d.table|
  {
    if i == 0 then d else CheckEntry(CheckSome(d, i - 1, servers), i - 1, servers)
  }

  /** dns_tmr. */
  function Tick(d: Dns, servers: seq<bool>): Dns { CheckSome(d, |d.table|, servers) }

  /** The search of dns_enqueue: the first unused entry from i on, or, with the highest age
      found so far, the completed entry to reuse. Ages above zero only are looked at. */
  function Choose(table: seq<Entry>, seqno: nat, i: nat, lseq: nat, lseqi: nat): (j: nat)
    requires i <= |table| && lseqi < |table|
    ensures j <= |table| && (j < |table| ==> table[j].status == Unused || table[j].status == Done)
    decreases |table| - i
  {
    if i == |table| then if table[lseqi].status == Done then lseqi else |table|
    else if table[i].status == Unused then i
    else if table[i].status == Done && seqno - table[i].seqno > lseq
    then Choose(table, seqno, i + 1, seqno - table[i].seqno, i)
    else Choose(table, seqno, i + 1, lseq, lseqi)
  }

  /** dns_enqueue of a query: ERR_MEM, or an entry that has sent its first question. */
  function Enqueue(d: Dns, query: nat, servers: seq<bool>): Option<Dns>
    requires |d.table| == DNS_TABLE_SIZE
  {
    var i := Choose(d.table, d.seqno, 0, 0, 0);
    if i == DNS_TABLE_SIZE then None
    else
      var e := d.table[i].(status := New, seqno := d.seqno, query := query);
      Some(CheckEntry(Dns(d.table[i := e], IncU8(d.seqno), d.finished), i, servers))
  }

  // ----- every callback is called once -----

  /** The queries that wait for their callback. */
  function Waiting(table: seq<Entry>): multiset<nat> {
    if table == [] then multiset{} else Own(table[0]) + Waiting(table[1..])
  }

  function Own(e: Entry): multiset<nat> {
    if e.status == New || e.status == Asking then multiset{e.query} else multiset{}
  }

  lemma Replace(front: multiset<nat>, w: multiset<nat>, old': multiset<nat>, new': multiset<nat>)
    requires old' <= w
    ensures old' <= front + w && front + (w - old' + new') == front + w - old' + new'
  {
  }

  lemma {:induction false} WaitingUpdate(table: seq<Entry>, i: nat, e: Entry)
    requires i < |table|
    ensures Own(table[i]) <= Waiting(table) && Waiting(table[i := e]) == Waiting(table) - Own(table[i]) + Own(e)
  {
    hide Own;
    if i > 0 {
      WaitingUpdate(table[1..], i - 1, e);
      assert table[i := e][1..] == table[1..][i - 1 := e];
      Replace(Own(table[0]), Waiting(table[1..]), Own(table[i]), Own(e));
    } else {
      assert table[i := e][1..] == table[1..];
      assert Own(e) + Waiting(table[1..]) == Own(table[0]) + Waiting(table[1..]) - Own(table[0]) + Own(e);
    }
  }

  /** An entry between two events: it has sent its question, or waits for nothing. */
  ghost predicate Settled(e: Entry) {
    e.status != New && (e.status == Asking ==> Pending(e)) && e.seqno < U8 && e.ttl < U32
  }

  ghost predicate AllSettled(table: seq<Entry>) {
    |table| == DNS_TABLE_SIZE && forall k :: 0 <= k < |table| ==> Settled(table[k])
  }

  /** Every query accepted so far either waits, or has had its callback called exactly once. */
  ghost predicate Accounted(d: Dns, accepted: multiset<nat>) {
    AllSettled(d.table) && d.seqno < U8 && Waiting(d.table) + d.finished == accepted
  }

  /** Putting e in place of entry i, where the queries done are those that no longer wait. */
  lemma Accounts(d: Dns, accepted: multiset<nat>, i: nat, e: Entry, done: multiset<nat>, asked: multiset<nat>,
      seqno: nat)
    requires Accounted(d, accepted) && i < |d.table| && Settled(e) && seqno < U8
    requires Own(e) + done == Own(d.table[i]) + asked
    ensures Accounted(Dns(d.table[i := e], seqno, d.finished + done), accepted + asked)
  {
    hide Own, Waiting, Settled;
    WaitingUpdate(d.table, i, e);
    Balance(Waiting(d.table), d.finished, Own(d.table[i]), Own(e), done, asked);
  }

  lemma Balance(w: multiset<nat>, f: multiset<nat>, old': multiset<nat>, new': multiset<nat>, done: multiset<nat>,
      asked: multiset<nat>)
    requires old' <= w && new' + done == old' + asked
    ensures (w - old' + new') + (f + done) == w + f + asked
  {
    assert (w - old' + new') + (f + done) == (w - old') + f + (new' + done);
    assert (w - old') + f + (old' + asked) == w + f + asked;
  }

  lemma ReceiveAccounts(d: Dns, accepted: multiset<nat>, id: nat, v: Verdict)
    requires Accounted(d, accepted)
    ensures Accounted(Receive(d, id, v), accepted)
  {
    var i := ResponseIndex(id);
    if i < DNS_TABLE_SIZE && d.table[i].status == Asking {
      hide Waiting, ResponseIndex;
      assert Settled(d.table[i]);
      Accounts(d, accepted, i, Receive(d, id, v).table[i], multiset{d.table[i].query}, multiset{}, d.seqno);
      assert accepted + multiset{} == accepted;
    }
  }

  lemma CheckAccounts(d: Dns, accepted: multiset<nat>, i: nat, servers: seq<bool>)
    requires Accounted(d, accepted) && i < |d.table|
    ensures Accounted(CheckEntry(d, i, servers), accepted)
  {
    var (e, fired) := Check(d.table[i], servers);
    var done := if fired then multiset{d.table[i].query} else multiset{};
    assert Settled(d.table[i]);
    CheckSettles(d.table[i], servers);
    hide Waiting, Check, Own, Settled;
    Accounts(d, accepted, i, e, done, multiset{}, d.seqno);
    assert accepted + multiset{} == accepted && d.finished + multiset{} == d.finished;
  }

  lemma CheckSettles(e: Entry, servers: seq<bool>)
    requires Settled(e)
    ensures var (e', fired) := Check(e, servers);
      Settled(e') && Own(e') + (if fired then multiset{e.query} else multiset{}) == Own(e) + multiset{}
  {
    if e.status == Asking { TickCounts(e, servers); }
  }

  lemma {:induction false} TickAccounts(d: Dns, accepted: multiset<nat>, i: nat, servers: seq<bool>)
    requires Accounted(d, accepted) && i <= |d.table|
    ensures Accounted(CheckSome(d, i, servers), accepted)
  {
    if i > 0 {
      TickAccounts(d, accepted, i - 1, servers);
      CheckAccounts(CheckSome(d, i - 1, servers), accepted, i - 1, servers);
    }
  }

  /** An accepted query waits. */
  lemma EnqueueAccounts(d: Dns, accepted: multiset<nat>, query: nat, servers: seq<bool>)
    requires Accounted(d, accepted)
    ensures Enqueue(d, query, servers).Some? ==> Accounted(Enqueue(d, query, servers).value, accepted + multiset{query})
  {
    var i := Choose(d.table, d.seqno, 0, 0, 0);
    if i < DNS_TABLE_SIZE {
      hide Waiting, Choose;
      var e := d.table[i].(status := New, seqno := d.seqno, query := query);
      var e' := Check(e, servers).0;
      assert d.table[i := e][i := e'] == d.table[i := e'];
      assert Settled(d.table[i]);
      Accounts(d, accepted, i, e', multiset{}, multiset{query}, IncU8(d.seqno));
      assert d.finished + multiset{} == d.finished;
    }
  }

  /** It takes an entry that nobody waits for, and touches no other. */
  lemma EnqueueSpares(d: Dns, query: nat, servers: seq<bool>, k: nat)
    requires |d.table| == DNS_TABLE_SIZE && k < DNS_TABLE_SIZE && Enqueue(d, query, servers).Some?
    ensures var d' := Enqueue(d, query, servers).value;
      if k == Choose(d.table, d.seqno, 0, 0, 0) then d.table[k].status == Unused || d.table[k].status == Done
      else d'.table[k] == d.table[k]
  {
  }

  /** dns_enqueue gives up exactly when no entry is unused, no completed one has an age above
      zero, and entry 0, where the search for the oldest starts, is not a completed one. */
  lemma FullExactly(d: Dns, query: nat, servers: seq<bool>)
    requires |d.table| == DNS_TABLE_SIZE
    ensures Enqueue(d, query, servers).None? <==>
      (forall k :: 0 <= k < DNS_TABLE_SIZE ==>
        d.table[k].status != Unused && !(d.table[k].status == Done && d.seqno > d.table[k].seqno))
      && d.table[0].status != Done
  {
    ChooseFull(d.table, d.seqno, 0, 0, 0);
  }

  lemma {:induction false} ChooseFull(table: seq<Entry>, seqno: nat, i: nat, lseq: nat, lseqi: nat)
    requires i <= |table| && lseqi < |table| && (lseq > 0 ==> table[lseqi].status == Done)
    ensures Choose(table, seqno, i, lseq, lseqi) == |table| <==>
      table[lseqi].status != Done && forall k :: i <= k < |table| ==>
        table[k].status != Unused && !(table[k].status == Done && seqno - table[k].seqno > lseq)
    decreases |table| - i
  {
    if i < |table| && table[i].status != Unused {
      if table[i].status == Done && seqno - table[i].seqno > lseq {
        ChooseFull(table, seqno, i + 1, seqno - table[i].seqno, i);
      } else {
        ChooseFull(table, seqno, i + 1, lseq, lseqi);
      }
    }
  }

  /** A response finishes the query of entry i exactly when its identifier ends in i, since
      only eight bits of it are looked at. */
  lemma ReceiveIndex(d: Dns, id: nat, v: Verdict, i: nat)
    requires i < |d.table| == DNS_TABLE_SIZE && d.table[i].status == Asking
    ensures Receive(d, id, v).table[i] != d.table[i] <==> id % U8 == i
  {
  }

  /** What a message does, said without Receive: to an entry that asks, an answer brings its time
      to live, at most a week, and an error frees it; its callback is called once; nothing else changes. */
  lemma ReceiveExactly(d: Dns, id: nat, v: Verdict)
    requires |d.table| == DNS_TABLE_SIZE
    ensures var (i, d') := (id % 256, Receive(d, id, v));
      if i < 4 && d.table[i].status == Asking
      then
        && d'.table == d.table[i := d'.table[i]] && d'.seqno == d.seqno
        && d'.finished == d.finished + multiset{d.table[i].query}
        && (v.Error? ==> d'.table[i] == d.table[i].(status := Unused))
        && (v.Answer? ==>
              d'.table[i] == d.table[i].(status := Done, ttl := if v.ttl > 604800 then 604800 else v.ttl))
      else d' == d
  {
  }

  /** A completed entry's age by the sequence counter. */
  function Age(e: Entry, seqno: nat): int { seqno - e.seqno }

  /** The entry chosen, said without Choose: the first unused one; else, of the completed ones with
      an age above zero, the first of the oldest; else entry 0 if it is completed. */
  lemma ChooseExactly(table: seq<Entry>, seqno: nat)
    requires |table| > 0
    ensures var j := Choose(table, seqno, 0, 0, 0);
      if exists k :: 0 <= k < |table| && table[k].status == Unused
      then j < |table| && table[j].status == Unused && forall k :: 0 <= k < j ==> table[k].status != Unused
      else if exists k :: 0 <= k < |table| && table[k].status == Done && Age(table[k], seqno) > 0
      then
        && j < |table| && table[j].status == Done && Age(table[j], seqno) > 0
        && (forall k :: 0 <= k < |table| && table[k].status == Done ==> Age(table[k], seqno) <= Age(table[j], seqno))
        && forall k :: 0 <= k < j && table[k].status == Done ==> Age(table[k], seqno) < Age(table[j], seqno)
      else j == if table[0].status == Done then 0 else |table|
  {
    ChooseOn(table, seqno, 0, 0, 0);
  }

  /** The search so far has seen no unused entry; lseqi is the first of the oldest completed ones
      among the first i, when lseq, its age, is above zero. */
  ghost predicate Oldest(table: seq<Entry>, seqno: nat, i: nat, lseq: nat, lseqi: nat) {
    && i <= |table| && lseqi < |table|
    && (forall k :: 0 <= k < i ==> table[k].status != Unused)
    && (forall k :: 0 <= k < i && table[k].status == Done ==> Age(table[k], seqno) <= lseq)
    && (lseq == 0 ==> lseqi == 0)
    && (lseq > 0 ==>
          && lseqi < i && table[lseqi].status == Done && Age(table[lseqi], seqno) == lseq
          && forall k :: 0 <= k < lseqi && table[k].status == Done ==> Age(table[k], seqno) < lseq)
  }

  lemma {:induction false} ChooseOn(table: seq<Entry>, seqno: nat, i: nat, lseq: nat, lseqi: nat)
    requires Oldest(table, seqno, i, lseq, lseqi)
    ensures var j := Choose(table, seqno, i, lseq, lseqi);
      if j < |table| && table[j].status == Unused then forall k :: 0 <= k < j ==> table[k].status != Unused
      else
        && (forall k :: 0 <= k < |table| ==> table[k].status != Unused)
        && exists n: nat, m: nat ::
          Oldest(table, seqno, |table|, n, m) && j == if table[m].status == Done then m else |table|
    decreases |table| - i
  {
    if i < |table| && table[i].status != Unused {
      if table[i].status == Done && seqno - table[i].seqno > lseq {
        ChooseOn(table, seqno, i + 1, seqno - table[i].seqno, i);
      } else {
        ChooseOn(table, seqno, i + 1, lseq, lseqi);
      }
    }
  }

  /** What an accepted query becomes, said without Check: entry i asks the first server, for the
      first time, under the next sequence number; every other entry stays. */
  lemma EnqueueExactly(d: Dns, query: nat, servers: seq<bool>)
    requires |d.table| == DNS_TABLE_SIZE && d.seqno < U8
    ensures var (i, r) := (Choose(d.table, d.seqno, 0, 0, 0), Enqueue(d, query, servers));
      && (i == |d.table| <==> r.None?)
      && (r.Some? ==>
            && r.value.table == d.table[i := Entry(Asking, 0, 1, 0, d.seqno, d.table[i].ttl, query)]
            && r.value.seqno == (d.seqno + 1) % 256 && r.value.finished == d.finished)
  {
  }

  // ----- runs -----

  datatype Event = Ask(query: nat) | Message(id: nat, v: Verdict) | Timer

  /** The table after an event, and the queries accepted by then. */
  function Perform(d: Dns, accepted: multiset<nat>, ev: Event, servers: seq<bool>): (r: (Dns, multiset<nat>))
    requires |d.table| == DNS_TABLE_SIZE
    ensures |r.0.table| == DNS_TABLE_SIZE
  {
    match ev
    case Ask(query) =>
      (match Enqueue(d, query, servers) case None => (d, accepted) case Some(d') => (d', accepted + multiset{query}))
    case Message(id, v) => (Receive(d, id, v), accepted)
    case Timer => (Tick(d, servers), accepted)
  }

  /** Whatever is asked, answered and left unanswered: each accepted query is in exactly one of
      two places, waiting or finished. */
  lemma {:induction false} RunAccounts(d: Dns, accepted: multiset<nat>, evs: seq<Event>, servers: seq<bool>)
      returns (d': Dns, accepted': multiset<nat>)
    requires Accounted(d, accepted)
    ensures (d', accepted') == Run(d, accepted, evs, servers) && Accounted(d', accepted')
    decreases |evs|
  {
    d', accepted' := d, accepted;
    if evs != [] {
      PerformAccounts(d, accepted, evs[0], servers);
      var (d1, accepted1) := Perform(d, accepted, evs[0], servers);
      d', accepted' := RunAccounts(d1, accepted1, evs[1..], servers);
    }
  }

  ghost function Run(d: Dns, accepted: multiset<nat>, evs: seq<Event>, servers: seq<bool>): (Dns, multiset<nat>)
    requires |d.table| == DNS_TABLE_SIZE
    decreases |evs|
  {
    if evs == [] then (d, accepted)
    else
      var (d1, accepted1) := Perform(d, accepted, evs[0], servers);
      Run(d1, accepted1, evs[1..], servers)
  }

  lemma PerformAccounts(d: Dns, accepted: multiset<nat>, ev: Event, servers: seq<bool>)
    requires Accounted(d, accepted)
    ensures Accounted(Perform(d, accepted, ev, servers).0, Perform(d, accepted, ev, servers).1)
  {
    match ev
    case Ask(query) => EnqueueAccounts(d, accepted, query, servers);
    case Message(id, v) => ReceiveAccounts(d, accepted, id, v);
    case Timer => TickAccounts(d, accepted, |d.table|, servers);
  }

  // ----- a full table that has a completed entry -----

  /** dns_init. */
  function Initial(): Dns {
    Dns(seq(DNS_TABLE_SIZE, _ => Entry(Unused, 0, 0, 0, 0, 0, 0)), 0, multiset{})
  }

  /** Every entry is unused, and n sequence numbers have been given out. */
  ghost predicate Idle(d: Dns, n: nat) {
    |d.table| == DNS_TABLE_SIZE && d.seqno == n && forall k :: 0 <= k < DNS_TABLE_SIZE ==> d.table[k].status == Unused
  }

  /** n queries, one after the other, each refused by its server. */
  function Failures(n: nat): seq<Event> {
    if n == 0 then [] else [Ask(0), Message(0, Error)] + Failures(n - 1)
  }

  /** The search passes over entries that ask, and completed ones that are no older than the counter. */
  predicate Passed(e: Entry, seqno: nat) { e.status == Asking || (e.status == Done && seqno <= e.seqno) }

  lemma {:induction false} ChooseAt(table: seq<Entry>, seqno: nat, i: nat, j: nat)
    requires j <= i < |table| && table[i].status == Unused && forall k :: j <= k < i ==> Passed(table[k], seqno)
    ensures Choose(table, seqno, j, 0, 0) == i
    decreases i - j
  {
    if j < i {
      assert Passed(table[j], seqno);
      ChooseAt(table, seqno, i, j + 1);
    }
  }

  /** A query gets the first unused entry, and the next sequence number. */
  lemma AskAt(d: Dns, accepted: multiset<nat>, i: nat, query: nat)
    requires |d.table| == DNS_TABLE_SIZE && i < DNS_TABLE_SIZE && d.table[i].status == Unused
    requires forall k :: 0 <= k < i ==> Passed(d.table[k], d.seqno)
    ensures var (d', accepted') := Perform(d, accepted, Ask(query), [true]);
      d'.table == d.table[i := d'.table[i]] && d'.table[i].status == Asking && d'.table[i].seqno == d.seqno
      && d'.seqno == IncU8(d.seqno)
  {
    ChooseAt(d.table, d.seqno, i, 0);
  }

  lemma RunStep(d: Dns, accepted: multiset<nat>, evs: seq<Event>, ev: Event, rest: seq<Event>)
    requires |d.table| == DNS_TABLE_SIZE && evs == [ev] + rest
    ensures var (d', accepted') := Perform(d, accepted, ev, [true]);
      Run(d, accepted, evs, [true]) == Run(d', accepted', rest, [true])
  {
    assert evs[1..] == rest;
  }

  lemma RunNone(d: Dns, accepted: multiset<nat>)
    requires |d.table| == DNS_TABLE_SIZE
    ensures Run(d, accepted, [], [true]) == (d, accepted)
  {
  }

  /** One query and its failure. */
  lemma OneFailure(d: Dns, n: nat, accepted: multiset<nat>, evs: seq<Event>, rest: seq<Event>)
      returns (d': Dns, accepted': multiset<nat>)
    requires Idle(d, n) && n < U8 - 1 && evs == [Ask(0), Message(0, Error)] + rest
    ensures Idle(d', n + 1) && Run(d, accepted, evs, [true]) == Run(d', accepted', rest, [true])
  {
    hide Enqueue, Choose, Check;
    AskAt(d, accepted, 0, 0);
    RunStep(d, accepted, evs, evs[0], evs[1..]);
    var (d1, accepted1) := Perform(d, accepted, Ask(0), [true]);
    RunStep(d1, accepted1, evs[1..], evs[1], rest);
    var (d2, accepted2) := Perform(d1, accepted1, Message(0, Error), [true]);
    d', accepted' := d2, accepted2;
  }

  lemma {:induction false} RunFailures(d: Dns, n: nat, m: nat, accepted: multiset<nat>, tail: seq<Event>)
      returns (d': Dns, accepted': multiset<nat>)
    requires Idle(d, n) && n + m < U8
    ensures Idle(d', n + m)
    ensures Run(d, accepted, Failures(m) + tail, [true]) == Run(d', accepted', tail, [true])
    decreases m
  {
    hide Run, Idle;
    var evs := Failures(m) + tail;
    if m == 0 {
      assert evs == tail;
      d', accepted' := d, accepted;
    } else {
      assert evs == [Ask(0), Message(0, Error)] + (Failures(m - 1) + tail);
      d', accepted' := OneFailure(d, n, accepted, evs, Failures(m - 1) + tail);
      d', accepted' := RunFailures(d', n + 1, m - 1, accepted', tail);
    }
  }

  /** After 254 failures: two queries, of which the second is answered and the first fails, and
      three more. Sequence numbers have wrapped behind the one of the answered query. */
  function Wrapped(): seq<Event> { Failures(254) + Last() }

  function Last(): seq<Event> { [Ask(1), Ask(2), Message(1, Answer(10)), Message(0, Error), Ask(3), Ask(4), Ask(5)] }

  lemma RunTwo(d: Dns, accepted: multiset<nat>, evs: seq<Event>, rest: seq<Event>)
      returns (d': Dns, accepted': multiset<nat>)
    requires Idle(d, 254) && evs == [Ask(1), Ask(2), Message(1, Answer(10)), Message(0, Error)] + rest
    ensures |d'.table| == DNS_TABLE_SIZE && d'.seqno == 0 && d'.table[1].status == Done && d'.table[1].seqno == 255
    ensures d'.table[0].status == d'.table[2].status == d'.table[3].status == Unused
    ensures Run(d, accepted, evs, [true]) == Run(d', accepted', rest, [true])
  {
    hide Enqueue, Choose, Check, Run;
    AskAt(d, accepted, 0, 1);
    RunStep(d, accepted, evs, Ask(1), evs[1..]);
    var (d1, a1) := Perform(d, accepted, Ask(1), [true]);
    AskAt(d1, a1, 1, 2);
    RunStep(d1, a1, evs[1..], Ask(2), evs[2..]);
    var (d2, a2) := Perform(d1, a1, Ask(2), [true]);
    RunStep(d2, a2, evs[2..], evs[2], evs[3..]);
    var (d3, a3) := Perform(d2, a2, Message(1, Answer(10)), [true]);
    RunStep(d3, a3, evs[3..], evs[3], rest);
    var (d4, a4) := Perform(d3, a3, Message(0, Error), [true]);
    d', accepted' := d4, a4;
  }

  lemma RunThree(d: Dns, accepted: multiset<nat>, evs: seq<Event>) returns (d': Dns, accepted': multiset<nat>)
    requires |d.table| == DNS_TABLE_SIZE && d.seqno == 0 && d.table[1].status == Done && d.table[1].seqno == 255
    requires d.table[0].status == d.table[2].status == d.table[3].status == Unused
    requires evs == [Ask(3), Ask(4), Ask(5)]
    ensures (d', accepted') == Run(d, accepted, evs, [true]) && |d'.table| == DNS_TABLE_SIZE && d'.seqno == 3
    ensures d'.table[0].status == d'.table[2].status == d'.table[3].status == Asking
    ensures d'.table[1].status == Done && d'.table[1].seqno == 255
  {
    hide Enqueue, Choose, Check, Receive, Run;
    AskAt(d, accepted, 0, 3);
    RunStep(d, accepted, evs, evs[0], evs[1..]);
    var (d1, a1) := Perform(d, accepted, Ask(3), [true]);
    AskAt(d1, a1, 2, 4);
    RunStep(d1, a1, evs[1..], evs[1], evs[2..]);
    var (d2, a2) := Perform(d1, a1, Ask(4), [true]);
    AskAt(d2, a2, 3, 5);
    RunStep(d2, a2, evs[2..], evs[2], []);
    RunNone(Perform(d2, a2, Ask(5), [true]).0, Perform(d2, a2, Ask(5), [true]).1);
    d', accepted' := Perform(d2, a2, Ask(5), [true]).0, Perform(d2, a2, Ask(5), [true]).1;
  }

  /** So a table can refuse a query although an entry is completed: this run comes to such a one. */
  lemma FullThoughDone()
    ensures var (d, accepted) := Run(Initial(), multiset{}, Wrapped(), [true]);
      |d.table| == DNS_TABLE_SIZE && Enqueue(d, 6, [true]).None? && d.table[1].status == Done
  {
    hide Enqueue, Choose, Check, Receive, Failures, Run, Perform;
    var three := [Ask(3), Ask(4), Ask(5)];
    var d1, a1 := RunFailures(Initial(), 0, 254, multiset{}, Last());
    var d2, a2 := RunTwo(d1, a1, Last(), three);
    var d3, a3 := RunThree(d2, a2, three);
    FullExactly(d3, 6, [true]);
  }

  // ----- a query nobody answers, in a run of the table -----

  /** A tick does to entry k what it does to it alone; callbacks are only ever added. */
  lemma {:induction false} CheckSomeAt(d: Dns, i: nat, servers: seq<bool>, k: nat)
    requires k < |d.table| && i <= |d.table|
    ensures CheckSome(d, i, servers).table[k] == if k < i then Check(d.table[k], servers).0 else d.table[k]
    ensures d.finished <= CheckSome(d, i, servers).finished
    ensures k < i && Check(d.table[k], servers).1 ==>
      d.finished + multiset{d.table[k].query} <= CheckSome(d, i, servers).finished
  {
    hide Check;
    if i > 0 { CheckSomeAt(d, i - 1, servers, k); }
  }

  /** No message for entry i. */
  predicate Ignores(ev: Event, i: nat) { ev.Message? ==> ResponseIndex(ev.id) != i }

  function Timers(evs: seq<Event>): nat { if evs == [] then 0 else (if evs[0].Timer? then 1 else 0) + Timers(evs[1..]) }

  lemma EventOn(d: Dns, accepted: multiset<nat>, ev: Event, servers: seq<bool>, i: nat)
    requires |d.table| == DNS_TABLE_SIZE && i < DNS_TABLE_SIZE && Pending(d.table[i]) && Ignores(ev, i)
    ensures var e := Perform(d, accepted, ev, servers).0.table[i];
      e == if ev.Timer? then Check(d.table[i], servers).0 else d.table[i]
  {
    match ev
    case Ask(query) => if Enqueue(d, query, servers).Some? { EnqueueSpares(d, query, servers, i); }
    case Message(id, v) =>
    case Timer => CheckSomeAt(d, |d.table|, servers, i);
  }

  /** Whatever else is asked, answered or timed out: an entry that asks, and gets no message,
      asks on with as many ticks fewer as there were, until its deadline; and the tick that
      meets the deadline calls its callback. */
  lemma {:induction false} TimesOutInRun(d: Dns, accepted: multiset<nat>, evs: seq<Event>, servers: seq<bool>, i: nat)
    requires |d.table| == DNS_TABLE_SIZE && i < DNS_TABLE_SIZE && Pending(d.table[i])
    requires (forall ev :: ev in evs ==> Ignores(ev, i)) && Timers(evs) < Deadline(d.table[i], servers)
    ensures var (d', accepted') := Run(d, accepted, evs, servers);
      && |d'.table| == DNS_TABLE_SIZE && Pending(d'.table[i]) && d'.table[i].query == d.table[i].query
      && Deadline(d'.table[i], servers) == Deadline(d.table[i], servers) - Timers(evs)
    ensures var (d', accepted') := Run(d, accepted, evs, servers);
      var end := Perform(d', accepted', Timer, servers).0;
      if Timers(evs) + 1 == Deadline(d.table[i], servers)
      then end.table[i].status == Unused && d'.finished + multiset{d.table[i].query} <= end.finished
      else end.table[i].status == Asking
    decreases |evs|
  {
    if evs == [] {
      TickCounts(d.table[i], servers);
      CheckSomeAt(d, |d.table|, servers, i);
    } else {
      var (d1, accepted1) := Perform(d, accepted, evs[0], servers);
      EventOn(d, accepted, evs[0], servers, i);
      if evs[0].Timer? { TickCounts(d.table[i], servers); }
      TimesOutInRun(d1, accepted1, evs[1..], servers, i);
    }
  }

  /** A query that was just accepted has 1 + R(R-1)/2 ticks for each server it can reach. */
  lemma FreshDeadline(d: Dns, query: nat, servers: seq<bool>)
    requires |d.table| == DNS_TABLE_SIZE && Enqueue(d, query, servers).Some?
    ensures var e := Enqueue(d, query, servers).value.table[Choose(d.table, d.seqno, 0, 0, 0)];
      Pending(e) && e.query == query && Deadline(e, servers) == ServersLeft(servers, 0) * TicksPerServer()
    ensures ServersLeft(servers, 0) * TicksPerServer() == if |servers| >= 2 && servers[1] then 14 else 7
  {
    WaitsClosed(0);
  }

  // ----- the code on the array -----

  class Resolver {
    const dnsTable: array<Entry>
    const dnsServers: seq<bool>
    var dnsSeqno: nat
    ghost var finished: multiset<nat>
    ghost var accepted: multiset<nat>

    ghost function State(): Dns
      reads this, dnsTable
    {
      Dns(dnsTable[..], dnsSeqno, finished)
    }

    ghost predicate Valid()
      reads this, dnsTable
    {
      Accounted(State(), accepted)
    }

    /** dns_init. */
    constructor (servers: seq<bool>)
      ensures Valid() && fresh(dnsTable) && dnsServers == servers && accepted == multiset{}
    {
      dnsTable := new Entry[DNS_TABLE_SIZE](_ => Entry(Unused, 0, 0, 0, 0, 0, 0));
      dnsServers, dnsSeqno, finished, accepted := servers, 0, multiset{}, multiset{};
      new;
      NobodyWaits(dnsTable[..]);
    }

    /** dns_check_entry. */
    method DnsCheckEntry(i: nat)
      requires i < dnsTable.Length
      modifies `finished, dnsTable
      ensures State() == CheckEntry(old(State()), i, dnsServers)
    {
      var e := dnsTable[i];
      match e.status {
        case New =>
          dnsTable[i] := e.(status := Asking, numdns := 0, tmr := 1, retries := 0);
        case Asking =>
          var tmr := DecU8(e.tmr);
          if tmr == 0 {
            var retries := IncU8(e.retries);
            if retries == DNS_MAX_RETRIES {
              if e.numdns + 1 < DNS_MAX_SERVERS && e.numdns + 1 < |dnsServers| && dnsServers[e.numdns + 1] {
                dnsTable[i] := e.(numdns := IncU8(e.numdns), tmr := 1, retries := 0);
              } else {
                finished := finished + multiset{e.query};
                dnsTable[i] := e.(status := Unused, tmr := 0, retries := retries);
              }
            } else {
              dnsTable[i] := e.(tmr := retries, retries := retries);
            }
          } else {
            dnsTable[i] := e.(tmr := tmr);
          }
        case Done =>
          var ttl := DecU32(e.ttl);
          dnsTable[i] := e.(status := if ttl == 0 then Unused else Done, ttl := ttl);
        case Unused =>
      }
      assert dnsTable[..] == old(dnsTable[..])[i := dnsTable[i]];
    }

    /** dns_tmr. */
    method DnsCheckEntries()
      requires Valid()
      modifies `finished, dnsTable
      ensures Valid() && State() == Tick(old(State()), dnsServers)
    {
      var i := 0;
      while i < dnsTable.Length
        invariant 0 <= i <= dnsTable.Length && State() == CheckSome(old(State()), i, dnsServers)
      {
        DnsCheckEntry(i);
        i := i + 1;
      }
      TickAccounts(old(State()), accepted, i, dnsServers);
    }

    /** dns_recv of a message with this identifier, for which the parser finds v. */
    method DnsRecv(id: nat, v: Verdict)
      requires Valid()
      modifies `finished, dnsTable
      ensures Valid() && State() == Receive(old(State()), id, v)
    {
      ReceiveAccounts(State(), accepted, id, v);
      var i := id % U8;
      if i < DNS_TABLE_SIZE {
        var e := dnsTable[i];
        if e.status == Asking {
          e := e.(status := Done);
          match v {
            case Answer(ttl) => e := e.(ttl := if ttl > DNS_MAX_TTL then DNS_MAX_TTL else ttl);
            case Error => e := e.(status := Unused);
          }
          finished := finished + multiset{e.query};
          dnsTable[i] := e;
          assert dnsTable[..] == old(dnsTable[..])[i := dnsTable[i]];
        }
      }
    }

    /** The search of dns_enqueue; the result is the table's length when there is no entry. */
    method ChooseEntry() returns (i: nat)
      requires dnsTable.Length == DNS_TABLE_SIZE
      ensures i == Choose(dnsTable[..], dnsSeqno, 0, 0, 0)
    {
      ghost var table := dnsTable[..];
      var lseq: nat, lseqi: nat := 0, 0;
      i := 0;
      while i < DNS_TABLE_SIZE && dnsTable[i].status != Unused
        invariant i <= DNS_TABLE_SIZE && lseqi < DNS_TABLE_SIZE
        invariant Choose(table, dnsSeqno, i, lseq, lseqi) == Choose(table, dnsSeqno, 0, 0, 0)
      {
        var e := dnsTable[i];
        if e.status == Done && dnsSeqno - e.seqno > lseq {
          lseq := dnsSeqno - e.seqno;
          lseqi := i;
        }
        i := i + 1;
      }
      if i == DNS_TABLE_SIZE && dnsTable[lseqi].status == Done { i := lseqi; }
    }

    /** dns_enqueue; ok is false for ERR_MEM. */
    method DnsEnqueue(query: nat) returns (ok: bool)
      requires Valid()
      modifies this, dnsTable
      ensures Valid() && ok == Enqueue(old(State()), query, dnsServers).Some?
      ensures if ok then State() == Enqueue(old(State()), query, dnsServers).value &&
        accepted == old(accepted) + multiset{query}
        else State() == old(State()) && accepted == old(accepted)
    {
      hide Waiting, Choose, Check;
      ghost var d := State();
      EnqueueAccounts(d, accepted, query, dnsServers);
      assert dnsTable.Length == |d.table| == DNS_TABLE_SIZE;
      var i := ChooseEntry();
      if i == DNS_TABLE_SIZE { return false; }
      dnsTable[i] := dnsTable[i].(status := New, seqno := dnsSeqno, query := query);
      dnsSeqno := IncU8(dnsSeqno);
      accepted := accepted + multiset{query};
      assert dnsTable[..] == d.table[i := dnsTable[i]];
      DnsCheckEntry(i);
      ok := true;
    }
  }

  lemma {:induction false} NobodyWaits(table: seq<Entry>)
    requires forall k :: 0 <= k < |table| ==> table[k].status == Unused
    ensures Waiting(table) == multiset{}
  {
    if table != [] { NobodyWaits(table[1..]); }
  }
}
