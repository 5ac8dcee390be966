/** Options in src/lwip/core/dhcp.c: dhcp_option and its companions write them,
    dhcp_get_option_ptr and dhcp_get_option_long read them (section 2 of RFC 2132). */
module DhcpOptions {
  import opened Words

  const PAD: byte := 0
  const OVERLOAD: byte := 52
  const END: byte := 255
  const OPTIONS_LEN: nat := 68
  const MIN_OPTIONS_LEN: nat := 68

  datatype Opt = Opt(kind: byte, value: seq<byte>)

  /** Options as they may be written before the trailer; OVERLOAD has one octet. */
  predicate Plain(o: Opt) {
    o.kind != PAD && o.kind != END && |o.value| <= 255 && (o.kind == OVERLOAD ==> |o.value| == 1)
  }

  ghost predicate AllPlain(os: seq<Opt>) { forall k :: 0 <= k < |os| ==> Plain(os[k]) }

  function WireOpt(o: Opt): seq<byte>
    requires |o.value| <= 255
  {
    [o.kind, |o.value| as byte] + o.value
  }

  function Wire(os: seq<Opt>): seq<byte>
    requires forall k :: 0 <= k < |os| ==> |os[k].value| <= 255
  {
    if os == [] then [] else WireOpt(os[0]) + Wire(os[1..])
  }

  lemma {:induction false} WireConcat(a: seq<Opt>, o: Opt)
    requires |o.value| <= 255 && forall k :: 0 <= k < |a| ==> |a[k].value| <= 255
    ensures Wire(a + [o]) == Wire(a) + WireOpt(o)
  {
    if a == [] {
      assert a + [o] == [o];
    } else {
      WireConcat(a[1..], o);
      assert (a + [o])[1..] == a[1..] + [o];
    }
  }

  // ----- numbers -----

  /** The octets dhcp_option_long writes. */
  function LongBytes(v: nat): (r: seq<byte>)
    requires v < U32
    ensures |r| == 4
  {
    [(v / 0x100_0000) as byte, (v / 0x1_0000 % U8) as byte, (v / 0x100 % U8) as byte, (v % U8) as byte]
  }

  /** The number dhcp_get_option_long puts together. */
  function LongValue(b: seq<byte>): nat
    requires |b| == 4
  {
    b[0] as nat * 0x100_0000 + b[1] as nat * 0x1_0000 + b[2] as nat * 0x100 + b[3] as nat
  }

  lemma LongRoundTrip(v: nat)
    requires v < U32
    ensures LongValue(LongBytes(v)) == v
  {
    var q := v / 0x100;
    Shifts(v);
    Halves(v);
    Halves(q);
    Halves(q / 0x100);
    assert q / 0x100 / 0x100 < U8;
  }

  lemma Halves(v: nat)
    ensures v == v / 0x100 * 0x100 + v % 0x100
  {
  }

  lemma Shifts(v: nat)
    ensures v / 0x1_0000 == v / 0x100 / 0x100 && v / 0x100_0000 == v / 0x100 / 0x100 / 0x100
  {
  }

  lemma LongBytesRoundTrip(b: seq<byte>)
    requires |b| == 4
    ensures LongValue(b) < U32 && LongBytes(LongValue(b)) == b
  {
    var b0, b1, b2, b3 := b[0] as nat, b[1] as nat, b[2] as nat, b[3] as nat;
    Digits24(b0, b1 * 0x1_0000 + b2 * 0x100 + b3);
    Digits16(b0 * 0x100 + b1, b2 * 0x100 + b3);
    Digits8(b0 * 0x1_0000 + b1 * 0x100 + b2, b3);
    Digits8(b0, b1);
    Digits8(b0 * 0x100 + b1, b2);
  }

  lemma Digits8(q: nat, r: nat)
    requires r < 0x100
    ensures (q * 0x100 + r) / 0x100 == q && (q * 0x100 + r) % 0x100 == r
  {
  }

  lemma Digits16(q: nat, r: nat)
    requires r < 0x1_0000
    ensures (q * 0x1_0000 + r) / 0x1_0000 == q
  {
  }

  lemma Digits24(q: nat, r: nat)
    requires r < 0x100_0000
    ensures (q * 0x100_0000 + r) / 0x100_0000 == q
  {
  }

  function ShortBytes(v: nat): seq<byte>
    requires v < U16
  {
    [(v / U8) as byte, (v % U8) as byte]
  }

  /** Both numbers go out with the highest octet first. */
  lemma NetworkOrder(short: nat, long: nat)
    requires short < 65536 && long < 4294967296
    ensures |ShortBytes(short)| == 2 && |LongBytes(long)| == 4
    ensures ShortBytes(short)[0] as nat * 256 + ShortBytes(short)[1] as nat == short
    ensures var b := LongBytes(long);
      b[0] as nat * 16777216 + b[1] as nat * 65536 + b[2] as nat * 256 + b[3] as nat == long
  {
    Halves(short);
    LongRoundTrip(long);
  }

  // ----- writing -----

  class DhcpMessage {
    const options: array<byte>
    var optionsOutLen: nat

    ghost predicate Valid()
      reads this
    {
      options.Length == OPTIONS_LEN && optionsOutLen <= OPTIONS_LEN
    }

    ghost function Written(): seq<byte>
      requires Valid()
      reads this, options
    {
      options[..optionsOutLen]
    }

    constructor ()
      ensures Valid() && fresh(options) && optionsOutLen == 0
    {
      options := new byte[OPTIONS_LEN];
      optionsOutLen := 0;
    }

    /** dhcp_option_byte. */
    method OptionByte(value: byte)
      requires Valid() && optionsOutLen < OPTIONS_LEN
      modifies `optionsOutLen, options
      ensures Valid() && Written() == old(Written()) + [value]
    {
      options[optionsOutLen] := value;
      optionsOutLen := optionsOutLen + 1;
    }

    /** dhcp_option. */
    method Option(optionType: byte, optionLen: byte)
      requires Valid() && optionsOutLen + 2 + optionLen as nat <= OPTIONS_LEN
      modifies `optionsOutLen, options
      ensures Valid() && Written() == old(Written()) + [optionType, optionLen]
    {
      OptionByte(optionType);
      OptionByte(optionLen);
    }

    /** dhcp_option_short. */
    method OptionShort(value: nat)
      requires Valid() && optionsOutLen + 2 <= OPTIONS_LEN && value < U16
      modifies `optionsOutLen, options
      ensures Valid() && Written() == old(Written()) + ShortBytes(value)
    {
      OptionByte((value / U8) as byte);
      OptionByte((value % U8) as byte);
    }

    /** dhcp_option_long. */
    method OptionLong(value: nat)
      requires Valid() && optionsOutLen + 4 <= OPTIONS_LEN && value < U32
      modifies `optionsOutLen, options
      ensures Valid() && Written() == old(Written()) + LongBytes(value)
    {
      OptionByte((value / 0x100_0000) as byte);
      OptionByte((value / 0x1_0000 % U8) as byte);
      OptionByte((value / 0x100 % U8) as byte);
      OptionByte((value % U8) as byte);
    }

    /** An option with its value, octet by octet. */
    method WriteOption(o: Opt)
      requires Valid() && |o.value| <= 255 && optionsOutLen + 2 + |o.value| <= OPTIONS_LEN
      modifies `optionsOutLen, options
      ensures Valid() && Written() == old(Written()) + WireOpt(o)
    {
      Option(o.kind, |o.value| as byte);
      var k := 0;
      while k < |o.value|
        invariant 0 <= k <= |o.value| && Valid() && optionsOutLen == old(optionsOutLen) + 2 + k
        invariant Written() == old(Written()) + [o.kind, |o.value| as byte] + o.value[..k]
      {
        OptionByte(o.value[k]);
        assert o.value[..k+1] == o.value[..k] + [o.value[k]];
        k := k + 1;
      }
      assert o.value[..k] == o.value;
    }

    /** dhcp_option_trailer: the end, and padding up to the minimum and to a multiple of four. */
    method OptionTrailer()
      requires Valid() && optionsOutLen < OPTIONS_LEN
      modifies `optionsOutLen, options
      ensures Valid() && optionsOutLen % 4 == 0 && MIN_OPTIONS_LEN <= optionsOutLen
      ensures old(Written()) + [END] <= Written()
      ensures forall k :: old(optionsOutLen) < k < optionsOutLen ==> options[k] == PAD
    {
      OptionByte(END);
      ghost var start := Written();
      while optionsOutLen < MIN_OPTIONS_LEN || optionsOutLen % 4 != 0
        invariant Valid() && |start| <= optionsOutLen && start <= Written()
        invariant forall k :: |start| <= k < optionsOutLen ==> Written()[k] == PAD
        decreases OPTIONS_LEN - optionsOutLen
      {
        ghost var before := Written();
        OptionByte(PAD);
        assert Written() == before + [PAD];
      }
    }
  }

  // ----- reading -----

  /** in holds these options and the end. */
  ghost predicate Holds(input: seq<byte>, at: nat, os: seq<Opt>)
    decreases |os|
  {
    if os == [] then at < |input| && input[at] == END
    else
      var n := |os[0].value|;
      && n <= 255 && at + 2 + n <= |input| && input[at] == os[0].kind && input[at+1] as int == n &&
        input[at+2..at+2+n] == os[0].value
      && Holds(input, at + 2 + n, os[1..])
  }

  lemma {:induction false} WireHolds(input: seq<byte>, at: nat, os: seq<Opt>)
    requires AllPlain(os) && at + |Wire(os)| < |input| && input[at..at+|Wire(os)|] == Wire(os) &&
      input[at+|Wire(os)|] == END
    ensures Holds(input, at, os)
    decreases |os|
  {
    hide WireOpt;
    if os != [] {
      assert Plain(os[0]) && |WireOpt(os[0])| == 2 + |os[0].value| by { OptLength(os[0]); }
      TwoParts(input, at, WireOpt(os[0]), Wire(os[1..]));
      OptHolds(input, at, os[0]);
      WireHolds(input, at + |WireOpt(os[0])|, os[1..]);
    }
  }

  lemma OptLength(o: Opt)
    requires |o.value| <= 255
    ensures |WireOpt(o)| == 2 + |o.value|
  {
  }

  lemma OptHolds(input: seq<byte>, at: nat, o: Opt)
    requires |o.value| <= 255 && at + 2 + |o.value| <= |input| && input[at..at+2+|o.value|] == WireOpt(o)
    ensures input[at] == o.kind && input[at+1] as int == |o.value| && input[at+2..at+2+|o.value|] == o.value
  {
    var w, n := input[at..at+2+|o.value|], 2 + |o.value|;
    InnerSlice(input, at, at + n, 2, n);
    assert w[0] == input[at] && w[1] == input[at+1];
  }

  /** The first option of this kind, or the length. */
  function First(os: seq<Opt>, kind: byte): (k: nat)
    ensures k <= |os| && (k < |os| ==> os[k].kind == kind) && forall j :: 0 <= j < k ==> os[j].kind != kind
  {
    if os == [] then 0 else if os[0].kind == kind then 0
    else
      var k := First(os[1..], kind);
      assert forall j :: 0 < j < k + 1 ==> os[j] == os[1..][j-1];
      k + 1
  }

  /** A pointer into the options at position off, to an option with this value. */
  ghost predicate PointsTo(input: seq<byte>, off: nat, o: Opt) {
    && off + 2 + |o.value| <= |input| && input[off] == o.kind && input[off+1] as int == |o.value|
    && input[off+2..off+2+|o.value|] == o.value
  }

  /** What the last OVERLOAD option says, or zero. */
  function Overload(os: seq<Opt>): byte
    requires forall k :: 0 <= k < |os| && os[k].kind == OVERLOAD ==> |os[k].value| == 1
  {
    if os == [] then 0
    else if os[|os|-1].kind == OVERLOAD then os[|os|-1].value[0]
    else Overload(os[..|os|-1])
  }

  /** What the search of the options field comes to: the option's offset; nothing, and the
      last OVERLOAD octet met; or a read past the end of the message. */
  datatype Seen = Found(off: nat) | Absent(overload: byte) | Outside

  /** The loop over the options field, from position at on, for any octets whatever. */
  function Scan(input: seq<byte>, at: nat, kind: byte, overload: byte): Seen
    decreases |input| - at
  {
    if at >= |input| || input[at] == END then Absent(overload)
    else if input[at] == OVERLOAD then if at + 2 < |input| then Scan(input, at + 3, kind, input[at+2]) else Outside
    else if input[at] == kind then Found(at)
    else if at + 1 < |input| then Scan(input, at + 2 + input[at+1] as nat, kind, overload)
    else Outside
  }

  function LaterOf(earlier: byte, os: seq<Opt>): byte
    requires forall k :: 0 <= k < |os| && os[k].kind == OVERLOAD ==> |os[k].value| == 1
  {
    if exists k :: 0 <= k < |os| && os[k].kind == OVERLOAD then Overload(os) else earlier
  }

  lemma {:induction false} LaterStep(earlier: byte, os: seq<Opt>)
    requires os != [] && AllPlain(os)
    ensures (forall k :: 0 <= k < |os| ==> Plain(os[k])) && AllPlain(os[1..]) &&
      (forall k :: 0 <= k < |os| - 1 ==> Plain(os[1..][k]))
    ensures LaterOf(earlier, os) == LaterOf(if os[0].kind == OVERLOAD then os[0].value[0] else earlier, os[1..])
    decreases |os|
  {
    assert Plain(os[0]);
    if |os| > 1 {
      var front := os[..|os|-1];
      assert os[1..][..|os|-2] == front[1..] && os[1..][|os|-2] == os[|os|-1];
      if os[|os|-1].kind != OVERLOAD {
        LaterStep(earlier, front);
      }
    }
  }

  /** On a message that holds the options os, the search finds the first of the kind, with its
      exact value, or nothing exactly when there is none. */
  lemma {:induction false} ScanFinds(input: seq<byte>, at: nat, os: seq<Opt>, kind: byte, overload: byte)
    requires Holds(input, at, os) && AllPlain(os) && kind != OVERLOAD
    ensures forall k :: 0 <= k < |os| ==> Plain(os[k])
    ensures var r := Scan(input, at, kind, overload);
      if First(os, kind) < |os| then r.Found? && PointsTo(input, r.off, os[First(os, kind)])
      else r == Absent(LaterOf(overload, os))
    decreases |os|
  {
    if os != [] {
      LaterStep(overload, os);
      assert Plain(os[0]);
      var next := at + 2 + |os[0].value|;
      if os[0].kind == OVERLOAD {
        assert input[at+2..next][0] == input[at+2];
        ScanFinds(input, next, os[1..], kind, os[0].value[0]);
      } else if os[0].kind != kind {
        ScanFinds(input, next, os[1..], kind, overload);
      }
    }
  }

  lemma {:induction false} ScanForward(input: seq<byte>, at: nat, kind: byte, overload: byte)
    ensures Scan(input, at, kind, overload).Found? ==> Scan(input, at, kind, overload).off >= at
    decreases |input| - at
  {
    if at + 2 < |input| { ScanForward(input, at + 3, kind, input[at+2]); }
    if at + 1 < |input| { ScanForward(input, at + 2 + input[at+1] as nat, kind, overload); }
  }

  /** A PAD octet has no length in RFC 2132, section 3.1, but the search reads one: starting on a
      PAD, it does not find an option that follows at once. */
  lemma AfterPad(input: seq<byte>, at: nat, kind: byte, overload: byte)
    requires at < |input| && input[at] == PAD && kind != PAD
    ensures Scan(input, at, kind, overload) != Found(at + 1)
  {
    if at + 1 < |input| { ScanForward(input, at + 2 + input[at+1] as nat, kind, overload); }
  }

  /** Two PAD octets are read as an option of length zero, and stepped over. So an option after
      a run of n of them is found exactly when n is even. */
  lemma {:induction false} AfterPads(input: seq<byte>, at: nat, n: nat, kind: byte, overload: byte)
    requires at + n < |input| && (forall k :: at <= k < at + n ==> input[k] == PAD) && input[at+n] == kind
    requires kind != PAD && kind != END && kind != OVERLOAD
    ensures Scan(input, at, kind, overload) == Found(at + n) <==> n % 2 == 0
    decreases n
  {
    if n == 1 {
      AfterPad(input, at, kind, overload);
    } else if n > 1 {
      AfterPads(input, at + 2, n - 2, kind, overload);
    }
  }

  /** So a message type after one PAD is missed, and after two is found. */
  lemma PadMisread()
    ensures var input := [PAD, 53, 1, 5, END];
      Holds(input, 1, [Opt(53, [5])]) && Scan(input, 1, 53, 0) == Found(1) && Scan(input, 0, 53, 0) == Absent(0)
    ensures Scan([PAD, PAD, 53, 1, 5, END], 0, 53, 0) == Found(2)
  {
    var input := [PAD, 53, 1, 5, END];
    assert input[3..4] == [5] && [Opt(53, [5])][1..] == [];
    assert Scan(input, 55, 53, 0) == Absent(0);
    AfterPads([PAD, PAD, 53, 1, 5, END], 0, 2, 53, 0);
  }

  /** dhcp_get_option_ptr up to the end of the options field. options_in_len and the offset are
      u16_t: the message leaves room for the offset to step over its end. */
  method GetOptionPtr(input: seq<byte>, optionType: byte) returns (r: Seen)
    requires |input| + 257 <= U16
    ensures r == Scan(input, 0, optionType, 0)
  {
    var offset: nat, overload := 0, 0;
    while offset < |input| && input[offset] != END
      invariant offset < U16 && Scan(input, offset, optionType, overload) == Scan(input, 0, optionType, 0)
      decreases |input| - offset
    {
      if input[offset] == OVERLOAD {
        offset := offset + 2;
        if offset >= |input| { return Outside; }
        overload := input[offset];
        offset := offset + 1;
      } else if input[offset] == optionType {
        return Found(offset);
      } else {
        offset := offset + 1;
        if offset >= |input| { return Outside; }
        offset := offset + 1 + input[offset] as nat;
      }
    }
    r := Absent(overload);
  }

  /** dhcp_get_option_long of the value at position at. */
  method GetOptionLong(input: seq<byte>, at: nat) returns (value: nat)
    requires at + 4 <= |input|
    ensures value == LongValue(input[at..at+4])
  {
    value := input[at] as nat * 0x100_0000;
    value := value + input[at+1] as nat * 0x1_0000;
    value := value + input[at+2] as nat * 0x100;
    value := value + input[at+3] as nat;
  }

  /** Options written one after the other and closed by the trailer are found again: the first
      of each kind, with its exact value, whatever octets the values hold. OVERLOAD is left to
      others: after it the search goes on in the sname and file fields. */
  method RoundTrip(os: seq<Opt>, optionType: byte) returns (found: bool, value: seq<byte>)
    requires AllPlain(os) && |Wire(os)| < OPTIONS_LEN && optionType != OVERLOAD
    requires forall k :: 0 <= k < |os| ==> os[k].kind != OVERLOAD
    ensures found <==> exists k :: 0 <= k < |os| && os[k].kind == optionType
    ensures found ==> value == os[First(os, optionType)].value
  {
    var msg := new DhcpMessage();
    var k := 0;
    while k < |os|
      invariant 0 <= k <= |os| && msg.Valid() && fresh(msg) && fresh(msg.options) && msg.Written() == Wire(os[..k])
    {
      WirePrefix(os, k);
      assert Plain(os[k]);
      msg.WriteOption(os[k]);
      k := k + 1;
    }
    assert os[..k] == os;
    msg.OptionTrailer();
    var input := msg.options[..msg.optionsOutLen];
    assert (Wire(os) + [END])[|Wire(os)|] == END;
    WireHolds(input, 0, os);
    ScanFinds(input, 0, os, optionType, 0);
    var r := GetOptionPtr(input, optionType);
    assert r.Absent? ==> r.overload == 0;
    found := r.Found?;
    value := if found then input[r.off+2..r.off+2+input[r.off+1] as nat] else [];
  }

  lemma {:induction false} WirePrefix(os: seq<Opt>, k: nat)
    requires AllPlain(os) && k < |os|
    ensures AllPlain(os[..k]) && AllPlain(os[..k+1])
    ensures Wire(os[..k+1]) == Wire(os[..k]) + WireOpt(os[k]) && |Wire(os[..k+1])| <= |Wire(os)|
    decreases |os| - k
  {
    assert Plain(os[k]) && os[..k+1] == os[..k] + [os[k]];
    WireConcat(os[..k], os[k]);
    if k + 1 < |os| { WirePrefix(os, k + 1); } else { assert os[..k+1] == os; }
  }
}
