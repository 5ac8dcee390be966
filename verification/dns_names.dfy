/** Domain names in src/lwip/core/dns.c: the encoder in dns_send, dns_parse_name and
    dns_compare_name, against sections 3.1 and 4.1.4 of RFC 1035. */
module DnsNames {
  import opened Words

  const DOT: byte := 46
  const NUL: byte := 0
  const MAX_LABEL: nat := 63
  const DNS_MAX_NAME_LENGTH: nat := 256

  type Label = seq<byte>

  /** The labels of a dotted name. */
  function Split(name: seq<byte>): (ls: seq<Label>)
    ensures |ls| > 0
  {
    if name == [] then [[]]
    else if name[0] == DOT then [[]] + Split(name[1..])
    else
      var rest := Split(name[1..]);
      [[name[0]] + rest[0]] + rest[1..]
  }

  /** The name with these labels. */
  function Dotted(ls: seq<Label>): seq<byte>
    requires |ls| > 0
  {
    if |ls| == 1 then ls[0] else ls[0] + [DOT] + Dotted(ls[1..])
  }

  lemma {:induction false} SplitDotted(name: seq<byte>)
    ensures Dotted(Split(name)) == name
  {
    if name != [] {
      SplitDotted(name[1..]);
      var rest := Split(name[1..]);
      if name[0] == DOT {
        assert Split(name)[1..] == rest;
        assert name == [DOT] + name[1..];
      } else {
        assert Split(name)[1..] == rest[1..];
        assert name == [name[0]] + name[1..];
      }
    }
  }

  predicate NoDot(l: Label) { forall k :: 0 <= k < |l| ==> l[k] != DOT }

  lemma {:induction false} SplitStep(l: Label, tail: seq<byte>)
    requires NoDot(l)
    ensures Split(l + tail) == [l + Split(tail)[0]] + Split(tail)[1..]
  {
    if l == [] {
      assert l + tail == tail && l + Split(tail)[0] == Split(tail)[0];
    } else {
      assert (l + tail)[0] == l[0] && (l + tail)[1..] == l[1..] + tail;
      SplitStep(l[1..], tail);
      assert [l[0]] + (l[1..] + Split(tail)[0]) == l + Split(tail)[0];
    }
  }

  lemma {:induction false} DottedSplit(ls: seq<Label>)
    requires |ls| > 0 && forall k :: 0 <= k < |ls| ==> NoDot(ls[k])
    ensures Split(Dotted(ls)) == ls
  {
    if |ls| == 1 {
      SplitStep(ls[0], []);
      assert ls[0] + [] == ls[0] && ls == [ls[0]];
    } else {
      DottedSplit(ls[1..]);
      SplitStep(ls[0], [DOT] + Dotted(ls[1..]));
      assert ([DOT] + Dotted(ls[1..]))[1..] == Dotted(ls[1..]);
      assert ls[0] + [DOT] + Dotted(ls[1..]) == ls[0] + ([DOT] + Dotted(ls[1..]));
      assert ls[0] + [] == ls[0];
      assert Split([DOT] + Dotted(ls[1..])) == [[]] + ls[1..];
    }
  }

  /** A label on the wire: its length in an octet, then its octets. */
  function WireLabel(l: Label): seq<byte> { [(|l| % U8) as byte] + l }

  function WireLabels(ls: seq<Label>): seq<byte> {
    if ls == [] then [] else WireLabel(ls[0]) + WireLabels(ls[1..])
  }

  /** A whole name on the wire ends with the label of the root. */
  function Wire(ls: seq<Label>): seq<byte> { WireLabels(ls) + [NUL] }

  lemma {:induction false} WireConcat(a: seq<Label>, b: seq<Label>)
    ensures WireLabels(a + b) == WireLabels(a) + WireLabels(b)
  {
    if a == [] {
      assert a + b == b;
    } else {
      WireConcat(a[1..], b);
      assert (a + b)[1..] == a[1..] + b;
    }
  }

  /** The encoding is two octets longer than the name. */
  lemma {:induction false} WireLength(ls: seq<Label>)
    requires |ls| > 0
    ensures |Wire(ls)| == |Dotted(ls)| + 2
  {
    if |ls| > 1 { WireLength(ls[1..]); } else { assert WireLabels(ls[1..]) == []; }
  }

  predicate ProperLabel(l: Label) { 0 < |l| <= MAX_LABEL }

  ghost predicate Proper(ls: seq<Label>) { forall k :: 0 <= k < |ls| ==> ProperLabel(ls[k]) }

  // ----- the encoder -----

  /** Where the label that starts at hi ends. */
  function LabelEnd(name: seq<byte>, hi: nat): (e: nat)
    requires hi <= |name|
    ensures hi <= e <= |name| && (forall k :: hi <= k < e ==> name[k] != DOT) && (e < |name| ==> name[e] == DOT)
    decreases |name| - hi
  {
    if hi == |name| || name[hi] == DOT then hi else LabelEnd(name, hi + 1)
  }

  /** A name is its first label, and after a dot the rest. */
  lemma SplitFirst(name: seq<byte>, hi: nat)
    requires hi <= |name|
    ensures var e := LabelEnd(name, hi);
      Split(name[hi..]) == [name[hi..e]] + if e < |name| then Split(name[e+1..]) else []
  {
    var e := LabelEnd(name, hi);
    var l, tail := name[hi..e], name[e..];
    SplitStep(l, tail);
    assert l + tail == name[hi..] && l + [] == l;
    if e < |name| { assert tail[1..] == name[e+1..]; }
  }

  /** The inner loop of the encoder: one label of host, from hi on, after its length octet at
      nptr; no result when it writes past the end. */
  method EncodeLabel(host: seq<byte>, hi: nat, buf: array<byte>, nptr: nat) returns (r: Option<nat>)
    requires hi <= |host|
    modifies buf
    ensures r.None? <==> nptr + 1 + LabelEnd(host, hi) - hi > buf.Length
    ensures r.Some? ==> r.value == LabelEnd(host, hi) && buf[nptr..nptr+1+r.value-hi] == WireLabel(host[hi..r.value])
    ensures forall j :: 0 <= j < buf.Length && !(nptr <= j < nptr + 1 + LabelEnd(host, hi) - hi) ==>
      buf[j] == old(buf[j])
  {
    ghost var end := LabelEnd(host, hi);
    var n, e := 0, hi;
    while e < |host| && host[e] != DOT
      invariant hi <= e <= end && n == e - hi && (n > 0 ==> nptr + 1 + n <= buf.Length)
      invariant forall j :: nptr + 1 <= j < nptr + 1 + n ==> buf[j] == host[j - nptr - 1 + hi]
      invariant forall j :: 0 <= j < buf.Length && !(nptr + 1 <= j < nptr + 1 + n) ==> buf[j] == old(buf[j])
    {
      if nptr + 1 + n >= buf.Length { return None; }
      buf[nptr+1+n] := host[e];
      n := n + 1;
      e := e + 1;
    }
    if nptr >= buf.Length { return None; }
    buf[nptr] := (n % U8) as byte;
    assert buf[nptr+1..nptr+1+n] == host[hi..e];
    r := Some(e);
  }

  lemma Joined(buf: array<byte>, at: nat, mid: nat, end: nat)
    requires at <= mid <= end <= buf.Length
    ensures buf[at..end] == buf[at..mid] + buf[mid..end]
  {
  }

  lemma OneMore(done: seq<Label>, l: Label)
    ensures WireLabels(done + [l]) == WireLabels(done) + WireLabel(l)
  {
    WireConcat(done, [l]);
    assert WireLabels([l]) == WireLabel(l) + WireLabels([]);
  }

  /** One turn of the encoder's outer loop. */
  method EncodeOne(host: seq<byte>, hi: nat, buf: array<byte>, at: nat, query: nat, ghost done: seq<Label>)
      returns (r: Option<nat>)
    requires hi <= |host| && query == at + hi <= buf.Length
    requires buf[at..query] == WireLabels(done) && Split(host) == done + Split(host[hi..])
    modifies buf
    ensures r.None? <==> query + 1 + LabelEnd(host, hi) - hi > buf.Length
    ensures r.Some? ==> var e := r.value;
      && e == LabelEnd(host, hi) && buf[at..query+1+e-hi] == WireLabels(done + [host[hi..e]])
      && Split(host) == done + [host[hi..e]] + if e < |host| then Split(host[e+1..]) else []
    ensures forall j :: 0 <= j < buf.Length && !(at <= j < at + |host| + 2) ==> buf[j] == old(buf[j])
  {
    hide Split, WireLabels, WireLabel;
    SplitFirst(host, hi);
    ghost var before := buf[at..query];
    r := EncodeLabel(host, hi, buf, query);
    if r.Some? {
      var e := r.value;
      assert buf[at..query] == before;
      Joined(buf, at, query, query + 1 + e - hi);
      OneMore(done, host[hi..e]);
    }
  }

  /** The loop in dns_send that turns a dotted name into labels, from position at of buf on. There
      is no result when it writes past the end of buf. */
  method Encode(host: seq<byte>, buf: array<byte>, at: nat) returns (end: Option<nat>)
    requires at <= buf.Length
    modifies buf
    ensures end.None? <==> at + |host| + 2 > buf.Length
    ensures end.Some? ==> end.value == at + |host| + 2 && buf[at..end.value] == Wire(Split(host))
    ensures forall j :: 0 <= j < buf.Length && !(at <= j < at + |host| + 2) ==> buf[j] == old(buf[j])
  {
    hide Split, WireLabels, LabelEnd;
    var hi, query, more := 0, at, true;
    ghost var done: seq<Label> := [];
    assert host[0..] == host && buf[at..at] == [] && [] + Split(host) == Split(host);
    NoLabels();
    while more
      invariant query <= buf.Length && if more then hi <= |host| && query == at + hi else query == at + |host| + 1
      invariant Split(host) == done + if more then Split(host[hi..]) else []
      invariant buf[at..query] == WireLabels(done)
      invariant forall j :: 0 <= j < buf.Length && !(at <= j < at + |host| + 2) ==> buf[j] == old(buf[j])
      decreases |host| - hi, more
    {
      var r := EncodeOne(host, hi, buf, at, query, done);
      if r.None? { return None; }
      var e := r.value;
      done := done + [host[hi..e]];
      query := query + 1 + e - hi;
      more := e < |host|;
      hi := if more then e + 1 else e;
    }
    if query >= buf.Length { return None; }
    ghost var before := buf[at..query];
    buf[query] := NUL;
    end := Some(query + 1);
    assert buf[at..query] == before && done + [] == done;
    Joined(buf, at, query, query + 1);
  }

  /** dns_gethostbyname admits names below DNS_MAX_NAME_LENGTH octets, and dns_send reserves as
      many for the encoding: it is too small for the longest of them, and for no other. */
  lemma ReservedExactly(host: seq<byte>)
    requires |host| < DNS_MAX_NAME_LENGTH
    ensures |Wire(Split(host))| > DNS_MAX_NAME_LENGTH <==> |host| == DNS_MAX_NAME_LENGTH - 1
  {
    SplitDotted(host);
    WireLength(Split(host));
  }

  lemma NoLabels()
    ensures WireLabels([]) == []
  {
  }

  // ----- the two readers -----

  /** What closes a sequence of labels: the root, or a compression pointer of two octets. */
  datatype Closing = Root | Compressed

  /** (n & 0xc0) == 0xc0. */
  predicate IsPointer(n: byte) { n >= 0xc0 }

  /** msg holds these labels from position at on, properly closed. */
  ghost predicate Spells(msg: seq<byte>, at: nat, ls: seq<Label>, closing: Closing)
    decreases |ls|
  {
    if ls == [] then at < |msg| && if closing.Root? then msg[at] == NUL else IsPointer(msg[at]) && at + 1 < |msg|
    else
      && at + 1 + |ls[0]| <= |msg| && msg[at] as int == |ls[0]| && msg[at+1..at+1+|ls[0]|] == ls[0]
      && Spells(msg, at + 1 + |ls[0]|, ls[1..], closing)
  }

  /** The octets it takes. */
  function Extent(ls: seq<Label>, closing: Closing): nat {
    if ls == [] then if closing.Root? then 1 else 2 else 1 + |ls[0]| + Extent(ls[1..], closing)
  }

  /** An encoded name spells its labels. */
  lemma {:induction false} WireSpells(msg: seq<byte>, at: nat, ls: seq<Label>)
    requires Proper(ls) && at + |Wire(ls)| <= |msg| && msg[at..at+|Wire(ls)|] == Wire(ls)
    ensures Spells(msg, at, ls, Root) && Extent(ls, Root) == |Wire(ls)|
    decreases |ls|
  {
    var size := |Wire(ls)|;
    if ls == [] {
      assert msg[at..at+size][0] == msg[at];
    } else {
      assert ProperLabel(ls[0]);
      assert Wire(ls) == WireLabel(ls[0]) + Wire(ls[1..]);
      TwoParts(msg, at, WireLabel(ls[0]), Wire(ls[1..]));
      LabelSpells(msg, at, ls[0]);
      WireSpells(msg, at + 1 + |ls[0]|, ls[1..]);
    }
  }

  lemma LabelSpells(msg: seq<byte>, at: nat, l: Label)
    requires ProperLabel(l) && at + 1 + |l| <= |msg| && msg[at..at+1+|l|] == WireLabel(l)
    ensures msg[at] as int == |l| && msg[at+1..at+1+|l|] == l
  {
    var n := 1 + |l|;
    InnerSlice(msg, at, at + n, 1, n);
    assert msg[at..at+n][0] == msg[at] && WireLabel(l)[1..] == l;
  }

  /** What the first octet tells. */
  lemma FirstOctet(msg: seq<byte>, at: nat, ls: seq<Label>, closing: Closing)
    requires Spells(msg, at, ls, closing) && Proper(ls)
    ensures at < |msg| && (IsPointer(msg[at]) <==> ls == [] && closing.Compressed?)
    ensures msg[at] == NUL <==> ls == [] && closing.Root?
    ensures ls != [] ==> Proper(ls[1..])
  {
    if ls != [] {
      assert ProperLabel(ls[0]);
      forall k | 0 <= k < |ls[1..]| ensures ProperLabel(ls[1..][k]) { assert ProperLabel(ls[k+1]); }
    }
  }

  /** dns_parse_name: the end of the name at position at. */
  method ParseName(msg: seq<byte>, at: nat, ghost ls: seq<Label>, ghost closing: Closing) returns (end: nat)
    requires Spells(msg, at, ls, closing) && Proper(ls) && (ls == [] ==> closing.Compressed?)
    ensures end == at + Extent(ls, closing)
  {
    var query: nat, more := at, true;
    ghost var rest := ls;
    while more
      invariant Proper(rest) && if more then Spells(msg, query, rest, closing) &&
        (rest == [] ==> closing.Compressed?) else true
      invariant at + Extent(ls, closing) == query + if more then Extent(rest, closing) else 1
      decreases |rest|, more
    {
      FirstOctet(msg, query, rest, closing);
      var n := msg[query] as nat;
      query := query + 1;
      if IsPointer(msg[query - 1]) {
        more := false;
      } else {
        ghost var from, size := query, n;
        while n > 0
          invariant query + n == from + size
        {
          query := query + 1;
          n := n - 1;
        }
        rest := rest[1..];
        FirstOctet(msg, query, rest, closing);
        more := msg[query] != NUL;
      }
    }
    end := query + 1;
  }

  /** The name in query and the labels, octet by octet, whatever separates them in query. */
  ghost predicate Agrees(query: seq<byte>, k: nat, ls: seq<Label>)
    decreases |ls|
  {
    ls == [] || (k + |ls[0]| <= |query| && query[k..k+|ls[0]|] == ls[0] && Agrees(query, k + |ls[0]| + 1, ls[1..]))
  }

  function TextExtent(ls: seq<Label>): nat { if ls == [] then 0 else |ls[0]| + 1 + TextExtent(ls[1..]) }

  /** A name agrees with its own labels. */
  lemma {:induction false} OwnNameAgrees(query: seq<byte>, k: nat, ls: seq<Label>)
    requires |ls| > 0 && k + |Dotted(ls)| <= |query| && query[k..k+|Dotted(ls)|] == Dotted(ls)
    ensures Agrees(query, k, ls) && TextExtent(ls) == |Dotted(ls)| + 1
    decreases |ls|
  {
    var d, n := query[k..k+|Dotted(ls)|], |ls[0]|;
    assert query[k..k+n] == d[..n];
    if |ls| > 1 {
      assert query[k+n+1..k+n+1+|Dotted(ls[1..])|] == d[n+1..] == Dotted(ls[1..]);
      OwnNameAgrees(query, k + n + 1, ls[1..]);
    } else {
      assert ls[1..] == [];
    }
  }

  /** The comparison looks no further than the labels: a name agrees with any first labels of a
      name it agrees with. */
  lemma {:induction false} PrefixAgrees(query: seq<byte>, k: nat, ls: seq<Label>, n: nat)
    requires Agrees(query, k, ls) && n <= |ls|
    ensures Agrees(query, k, ls[..n])
    decreases |ls|
  {
    if n > 0 {
      PrefixAgrees(query, k + |ls[0]| + 1, ls[1..], n - 1);
      assert ls[..n][1..] == ls[1..][..n-1];
    }
  }

  /** What stands between the labels in query are dots. */
  ghost predicate DotsAt(query: seq<byte>, k: nat, ls: seq<Label>)
    decreases |ls|
  {
    |ls| > 1 ==> k + |ls[0]| < |query| && query[k+|ls[0]|] == DOT && DotsAt(query, k + |ls[0]| + 1, ls[1..])
  }

  /** Agreeing is having the name there exactly when the separators skipped are dots. */
  lemma {:induction false} AgreesDotted(query: seq<byte>, k: nat, ls: seq<Label>)
    requires |ls| > 0 && k <= |query|
    ensures Agrees(query, k, ls) && DotsAt(query, k, ls) <==> Dotted(ls) <= query[k..]
    decreases |ls|
  {
    hide Dotted, Agrees;
    DottedStep(ls);
    OneLabel(query, k, ls);
    var n, rest := |ls[0]|, query[k..];
    assert k + n <= |query| ==> query[k..k+n] == rest[..n];
    if |ls| == 1 {
      assert ls[1..] == [];
      NoneLeft(query, k + n + 1);
    } else {
      StartsWith(ls[0], Dotted(ls[1..]), rest);
      if k + n < |query| {
        AgreesDotted(query, k + n + 1, ls[1..]);
        assert query[k+n+1..] == rest[n+1..] && rest[n] == query[k+n];
      }
    }
  }

  lemma DottedStep(ls: seq<Label>)
    requires |ls| > 0
    ensures Dotted(ls) == if |ls| == 1 then ls[0] else ls[0] + [DOT] + Dotted(ls[1..])
  {
  }

  lemma StartsWith(l: Label, d: seq<byte>, rest: seq<byte>)
    ensures l + [DOT] + d <= rest <==> |l| < |rest| && rest[..|l|] == l && rest[|l|] == DOT && d <= rest[|l|+1..]
  {
    var s, n := l + [DOT] + d, |l|;
    assert s[..n] == l && s[n] == DOT && s[n+1..] == d;
    if s <= rest {
      assert rest[..|s|] == s;
      assert rest[..n] == s[..n] && rest[n] == s[n];
      assert rest[n+1..][..|d|] == rest[..|s|][n+1..];
    }
    if n < |rest| && rest[..n] == l && rest[n] == DOT && d <= rest[n+1..] {
      assert rest == l + [DOT] + rest[n+1..];
    }
  }

  /** When the comparison says 0, the names are equal exactly when what it skipped are dots and
      it stopped at the end of the one in query. The array may hold anything behind that. */
  lemma ZeroMeansEqual(host: seq<byte>, rest: seq<byte>, ls: seq<Label>)
    requires |ls| > 0 && Agrees(host + [NUL] + rest, 0, ls)
    ensures host == Dotted(ls) <==> DotsAt(host + [NUL] + rest, 0, ls) && TextExtent(ls) == |host| + 1
  {
    var query := host + [NUL] + rest;
    AgreesDotted(query, 0, ls);
    DottedExtent(ls);
    assert query[0..] == query && query[..|host|] == host;
  }

  /** The end of the name is skipped like any separator: after "a.b", the name "a" in the same
      entry leaves "b" behind its end, and compares equal to "a.b". */
  lemma StaleOctets()
    ensures Agrees([97] + [NUL] + [98, NUL], 0, [[97], [98]]) && Dotted([[97], [98]]) != [97]
  {
    var query: seq<byte> := [97] + [NUL] + [98, NUL];
    var ls: seq<Label> := [[97], [98]];
    assert query[0..1] == [97] && query[2..3] == [98];
    assert ls[1..] == [[98]] && [[98]][1..] == [];
    assert Agrees(query, 2, ls[1..]);
    DottedExtent(ls);
  }

  lemma {:induction false} DottedExtent(ls: seq<Label>)
    requires |ls| > 0
    ensures TextExtent(ls) == |Dotted(ls)| + 1
  {
    if |ls| > 1 { DottedExtent(ls[1..]); } else { assert ls[1..] == []; }
  }

  /** Every name agrees with any first labels of its own, so unequal names compare equal. */
  lemma OwnPrefixAgrees(host: seq<byte>, n: nat)
    requires n <= |Split(host)|
    ensures Agrees(host + [NUL], 0, Split(host)[..n])
    ensures 0 < n < |Split(host)| ==> Dotted(Split(host)[..n]) != host
  {
    var ls, query := Split(host), host + [NUL];
    SplitDotted(host);
    assert query[0..|host|] == host;
    OwnNameAgrees(query, 0, ls);
    PrefixAgrees(query, 0, ls, n);
    if 0 < n < |ls| { DottedShorter(ls, n); }
  }

  lemma {:induction false} DottedShorter(ls: seq<Label>, n: nat)
    requires 0 < n < |ls|
    ensures |Dotted(ls[..n])| < |Dotted(ls)|
  {
    if n > 1 {
      DottedShorter(ls[1..], n - 1);
      assert ls[..n][1..] == ls[1..][..n-1];
    }
  }

  /** And something other than a dot may separate labels: the name "a" followed by any octet
      and "b" compares equal to "a.b". */
  lemma AnySeparator(sep: byte)
    ensures var query := [97, sep, 98, NUL];
      Agrees(query, 0, [[97], [98]]) && (Dotted([[97], [98]]) <= query <==> sep == DOT)
  {
    var query: seq<byte> := [97, sep, 98, NUL];
    var ls: seq<Label> := [[97], [98]];
    assert query[0..1] == [97] && query[2..3] == [98];
    assert ls[1..] == [[98]] && [[98]][1..] == [];
    assert Agrees(query, 2, ls[1..]);
    AgreesDotted(query, 0, ls);
    assert query[0..] == query;
  }

  /** What the comparison comes to: 0, 1, or a read past the end of the array of the name. */
  datatype Compared = Same | Differs | Outside

  /** The array ends before the labels do, and agrees so far. */
  ghost predicate RunsOut(query: seq<byte>, k: nat, ls: seq<Label>)
    decreases |ls|
  {
    && ls != []
    && if k + |ls[0]| <= |query| then query[k..k+|ls[0]|] == ls[0] && RunsOut(query, k + |ls[0]| + 1, ls[1..])
       else k >= |query| || query[k..] == ls[0][..|query|-k]
  }

  /** Then, and only then, it does not agree but would with the right octets behind its end. */
  lemma OutsideMeans(query: seq<byte>, ls: seq<Label>)
    ensures RunsOut(query, 0, ls) <==> !Agrees(query, 0, ls) && exists more :: Agrees(query + more, 0, ls)
  {
    if RunsOut(query, 0, ls) {
      var more := Completion(query, 0, ls);
    }
    forall more | Agrees(query + more, 0, ls) && !Agrees(query, 0, ls) ensures RunsOut(query, 0, ls) {
      Completed(query, 0, ls, more);
    }
  }

  lemma {:induction false} Completion(query: seq<byte>, k: nat, ls: seq<Label>) returns (more: seq<byte>)
    requires RunsOut(query, k, ls) && k <= |query| + 1
    ensures !Agrees(query, k, ls) && Agrees(query + more, k, ls)
    decreases |ls|
  {
    var n := |ls[0]|;
    if k + n <= |query| {
      more := Completion(query, k + n + 1, ls[1..]);
      assert (query + more)[k..k+n] == query[k..k+n];
    } else {
      var d := Dotted(ls);
      assert ls[0] <= d by { DottedStep(ls); }
      if k <= |query| {
        var m := |query| - k;
        assert d[..m] == ls[0][..m] == query[k..];
        more := d[m..];
        assert (query + more)[k..k+|d|] == query[k..] + more;
      } else {
        more := [DOT] + d;
        assert (query + more)[k..k+|d|] == d;
      }
      OwnNameAgrees(query + more, k, ls);
    }
  }

  lemma {:induction false} Completed(query: seq<byte>, k: nat, ls: seq<Label>, more: seq<byte>)
    requires Agrees(query + more, k, ls) && !Agrees(query, k, ls)
    ensures RunsOut(query, k, ls)
    decreases |ls|
  {
    var n, all := |ls[0]|, query + more;
    if k + n <= |query| {
      assert all[k..k+n] == query[k..k+n];
      Completed(query, k + n + 1, ls[1..], more);
    } else if k < |query| {
      InnerSlice(all, k, k + n, 0, |query| - k);
      assert query[k..] == all[k..|query|];
    }
  }

  /** The inner loop of dns_compare_name. */
  method SameOctets(query: seq<byte>, q: nat, msg: seq<byte>, response: nat, n: nat) returns (r: Compared)
    requires response + n <= |msg|
    ensures r.Same? <==> n == 0 || (q + n <= |query| && query[q..q+n] == msg[response..response+n])
    ensures r.Outside? <==>
      n > 0 && q + n > |query| && (q >= |query| || query[q..] == msg[response..response+n][..|query|-q])
  {
    ghost var l := msg[response..response+n];
    var k := 0;
    while k < n
      invariant 0 <= k <= n && (k > 0 ==> q + k <= |query| && query[q..q+k] == l[..k])
    {
      if q + k >= |query| {
        assert k > 0 ==> query[q..] == query[q..q+k];
        return Outside;
      }
      if query[q+k] != msg[response+k] {
        assert query[q..][k] != l[k];
        assert q + n <= |query| ==> query[q..q+n][k] != l[k];
        return Differs;
      }
      assert query[q..q+k+1] == query[q..q+k] + [query[q+k]] && l[..k+1] == l[..k] + [l[k]];
      k := k + 1;
    }
    r := Same;
  }

  /** dns_compare_name: 0 exactly when the name in query agrees with the labels at position at,
      and so whenever query starts with their dotted name. It reads past the end of the array
      exactly when the array does not agree, but would with the right octets behind its end. */
  method CompareName(query: seq<byte>, msg: seq<byte>, at: nat, ghost ls: seq<Label>, ghost closing: Closing)
      returns (r: Compared)
    requires Spells(msg, at, ls, closing) && Proper(ls) && (ls == [] ==> closing.Compressed?)
    ensures r.Same? <==> Agrees(query, 0, ls)
    ensures r.Outside? <==> !Agrees(query, 0, ls) && exists more :: Agrees(query + more, 0, ls)
    ensures ls != [] ==> ((r.Same? && DotsAt(query, 0, ls)) <==> Dotted(ls) <= query)
  {
    if ls != [] { AgreesDotted(query, 0, ls); }
    assert query[0..] == query;
    OutsideMeans(query, ls);
    r := CompareLabels(query, msg, at, ls, closing);
  }

  /** One turn of the outer loop: a label, or a pointer, which ends it. */
  method CompareOne(query: seq<byte>, q: nat, msg: seq<byte>, at: nat, ghost ls: seq<Label>, ghost closing: Closing)
      returns (r: Compared, response: nat, q': nat, more: bool)
    requires Spells(msg, at, ls, closing) && Proper(ls) && (ls == [] ==> closing.Compressed?)
    ensures more ==> r.Same? && ls != []
    ensures Agrees(query, q, ls) <==> r.Same? && (more ==> Agrees(query, q', ls[1..]))
    ensures RunsOut(query, q, ls) <==> r.Outside? || (more && RunsOut(query, q', ls[1..]))
    ensures more ==> Proper(ls[1..]) && Spells(msg, response, ls[1..], closing)
    ensures more && ls[1..] == [] ==> closing.Compressed?
  {
    hide Agrees, RunsOut;
    FirstOctet(msg, at, ls, closing);
    response := at;
    var n := msg[response] as nat;
    response := response + 1;
    r, q', more := Same, q, false;
    if IsPointer(msg[response - 1]) {
      NoneLeft(query, q);
    } else {
      assert ProperLabel(ls[0]);
      OneLabel(query, q, ls);
      r := SameOctets(query, q, msg, response, n);
      if r.Same? {
        response := response + n;
        q' := q' + n;
        q' := q' + 1;
        FirstOctet(msg, response, ls[1..], closing);
        more := msg[response] != NUL;
        NoneLeft(query, q');
      }
    }
  }

  /** The loops of dns_compare_name. */
  method CompareLabels(query: seq<byte>, msg: seq<byte>, at: nat, ghost ls: seq<Label>, ghost closing: Closing)
      returns (r: Compared)
    requires Spells(msg, at, ls, closing) && Proper(ls) && (ls == [] ==> closing.Compressed?)
    ensures (r.Same? <==> Agrees(query, 0, ls)) && (r.Outside? <==> RunsOut(query, 0, ls))
  {
    hide Agrees, RunsOut, Spells;
    var response: nat, q: nat, more := at, 0, true;
    ghost var rest := ls;
    r := Same;
    while more
      invariant Proper(rest) && (more ==> Spells(msg, response, rest, closing) && (rest == [] ==> closing.Compressed?))
      invariant more ==> Agrees(query, 0, ls) == Agrees(query, q, rest)
      invariant more ==> RunsOut(query, 0, ls) == RunsOut(query, q, rest)
      invariant !more ==> (r.Same? <==> Agrees(query, 0, ls)) && (r.Outside? <==> RunsOut(query, 0, ls))
      decreases |rest|, more
    {
      r, response, q, more := CompareOne(query, q, msg, response, rest, closing);
      if more { rest := rest[1..]; }
    }
  }

  lemma NoneLeft(query: seq<byte>, k: nat)
    ensures Agrees(query, k, []) && !RunsOut(query, k, [])
  {
  }

  lemma OneLabel(query: seq<byte>, k: nat, ls: seq<Label>)
    requires ls != []
    ensures var n := |ls[0]|;
      var same := k + n <= |query| && query[k..k+n] == ls[0];
      && (Agrees(query, k, ls) <==> same && Agrees(query, k + n + 1, ls[1..]))
      && (RunsOut(query, k, ls) <==> if k + n <= |query| then same && RunsOut(query, k + n + 1, ls[1..])
            else k >= |query| || query[k..] == ls[0][..|query|-k])
  {
  }

  /** A name with proper labels, encoded as dns_send does, is walked over to its very end, and
      compares equal to itself, whatever the array of the name holds behind its end. */
  method RoundTrip(host: seq<byte>, junk: seq<byte>, buf: array<byte>, at: nat)
      returns (end: nat, parsed: nat, r: Compared)
    requires at + |host| + 2 <= buf.Length && Proper(Split(host))
    modifies buf
    ensures end == parsed == at + |host| + 2 && r.Same?
  {
    ghost var ls := Split(host);
    SplitDotted(host);
    WireLength(ls);
    var e := Encode(host, buf, at);
    end := e.value;
    WireSpells(buf[..], at, ls);
    parsed := ParseName(buf[..], at, ls, Root);
    assert (host + [NUL] + junk)[0..|host|] == host;
    OwnNameAgrees(host + [NUL] + junk, 0, ls);
    r := CompareName(host + [NUL] + junk, buf[..], at, ls, Root);
  }
}
