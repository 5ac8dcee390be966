/** lwip_recvfrom of src/lwip/api/sockets.c as a stream reader. */
module Recv {
  import opened Words
  import opened PbufBytes

  /** A netbuf as netconn_recv returns it: some bytes, and whether PBUF_FLAG_PUSH is set. */
  datatype Netbuf = Netbuf(bytes: seq<byte>, push: bool)

  datatype Received = Buffer(buf: Netbuf) | NoBuffer

  /** What a call hears from the stack: rcvevent as read, and what netconn_recv returned. */
  datatype Heard = Polled(event: int) | Took(r: Received)

  /** No data: rcvevent told of none, which blocks a call that may not wait, or netconn_recv had none. */
  predicate Refused(h: Heard, blocked: bool) {
    match h
    case Polled(n) => n <= 0 && blocked
    case Took(r) => r.NoBuffer? && !blocked
  }

  predicate Sound(r: Received) { r.Buffer? ==> 0 < |r.buf.bytes| < U16 }

  /** off, a u16_t, after these pieces have been copied. */
  ghost function Off(pieces: seq<seq<byte>>): nat { |Concat(pieces)| % U16 }

  /** The caller's memory after these pieces have been copied, each at off. */
  ghost function Deposit(mem: seq<byte>, pieces: seq<seq<byte>>): (r: seq<byte>)
    requires |Concat(pieces)| <= |mem|
    ensures |r| == |mem|
  {
    if pieces == [] then mem
    else
      var (front, last) := (pieces[..|pieces|-1], pieces[|pieces|-1]);
      LastPiece(front, last);
      assert front + [last] == pieces;
      Patch(Deposit(mem, front), Off(front), last)
  }

  lemma LastPiece(front: seq<seq<byte>>, last: seq<byte>)
    ensures Concat(front + [last]) == Concat(front) + last
    ensures Off(front) <= |Concat(front)|
  {
    ConcatSplit(front, [last]);
    assert Concat([last]) == last + Concat([]);
  }

  lemma NothingCopied(mem: seq<byte>)
    ensures Concat([]) == [] && Off([]) == 0 && Deposit(mem, []) == mem
  {
  }

  lemma AddWraps(a: nat, b: nat)
    ensures AddU16(a % U16, b) == (a + b) % U16
  {
  }

  /** One more piece. */
  lemma DepositNext(mem: seq<byte>, front: seq<seq<byte>>, last: seq<byte>)
    requires |Concat(front)| + |last| <= |mem|
    ensures Concat(front + [last]) == Concat(front) + last && Off(front) + |last| <= |mem|
    ensures Deposit(mem, front + [last]) == Patch(Deposit(mem, front), Off(front), last)
    ensures Off(front + [last]) == AddU16(Off(front), |last|)
  {
    hide Concat, Patch, AddU16;
    LastPiece(front, last);
    AddWraps(|Concat(front)|, |last|);
    var pieces := front + [last];
    assert pieces[..|pieces|-1] == front;
  }

  /** off still counts the bytes copied exactly when they are fewer than 2^16. */
  lemma OffCounts(pieces: seq<seq<byte>>)
    ensures Off(pieces) == |Concat(pieces)| <==> |Concat(pieces)| < U16
  {
  }

  /** As long as it does, the pieces lie in the caller's memory one after the other. */
  lemma {:induction false} DepositInOrder(mem: seq<byte>, pieces: seq<seq<byte>>)
    requires |Concat(pieces)| <= |mem| && |Concat(pieces)| < U16
    ensures Deposit(mem, pieces) == Concat(pieces) + mem[|Concat(pieces)|..]
    decreases |pieces|
  {
    hide Concat, Deposit, Off;
    if pieces == [] {
      NothingCopied(mem);
    } else {
      var front, last := pieces[..|pieces|-1], pieces[|pieces|-1];
      assert front + [last] == pieces;
      LastPiece(front, last);
      OffCounts(front);
      DepositInOrder(mem, front);
      DepositNext(mem, front, last);
      PatchAfter(Concat(front), last, mem);
    }
  }

  lemma PatchAfter(a: seq<byte>, b: seq<byte>, mem: seq<byte>)
    requires |a| + |b| <= |mem|
    ensures Patch(a + mem[|a|..], |a|, b) == a + b + mem[|a|+|b|..]
  {
  }

  lemma Whole(mem: seq<byte>, pieces: seq<seq<byte>>)
    requires |Concat(pieces)| <= |mem|
    ensures |Concat(pieces)| < U16 ==>
      Off(pieces) == |Concat(pieces)| && Deposit(mem, pieces)[..Off(pieces)] == Concat(pieces)
  {
    if |Concat(pieces)| < U16 { DepositInOrder(mem, pieces); }
  }

  /** Beyond, they do not: 2^16 bytes and one more leave that one at the start. */
  lemma DepositWraps(mem: seq<byte>, first: seq<byte>, last: byte)
    requires |mem| > |first| == U16
    ensures |Concat([first, [last]])| <= |mem|
    ensures Deposit(mem, [first, [last]])[0] == last && Off([first, [last]]) == 1
  {
    hide Deposit;
    assert [] + [first] == [first] && [first] + [[last]] == [first, [last]];
    DepositNext(mem, [], first);
    DepositNext(mem, [first], [last]);
    assert Concat([]) == [];
  }

  lemma Appended(a: seq<byte>, b: seq<byte>, c: seq<byte>)
    ensures (a + b) + c == a + (b + c)
  {
  }

  lemma PrefixOnwards(a: seq<byte>, b: seq<byte>, c: seq<byte>)
    requires a <= b && b <= c
    ensures a <= c
  {
  }

  /** A socket as a call finds it, and the caller's memory. */
  datatype Before = Before(taken: seq<byte>, delivered: seq<byte>, last: Received, unread: seq<byte>, mem: seq<byte>)

  class Socket {
    const tcp: bool
    const nonblock: bool
    var lastdata: Received
    var lastoffset: nat
    /** The bytes taken from netconn_recv, and the bytes handed to the application. */
    ghost var taken: seq<byte>
    ghost var delivered: seq<byte>
    ghost var heard: seq<Heard>

    /** What is kept back of the last buffer. */
    ghost function Unread(): seq<byte>
      reads this
      requires lastdata.Buffer? ==> lastoffset <= |lastdata.buf.bytes|
    {
      if lastdata.Buffer? then lastdata.buf.bytes[lastoffset..] else []
    }

    /** Stream conservation: everything taken has been delivered or is kept back, in order. */
    ghost predicate Valid()
      reads this
    {
      && Sound(lastdata) && (if lastdata.Buffer? then lastoffset < |lastdata.buf.bytes| else lastoffset == 0)
      && (tcp ==> taken == delivered + Unread())
    }

    constructor (tcp: bool, nonblock: bool)
      ensures Valid() && this.tcp == tcp && this.nonblock == nonblock && taken == delivered == []
    {
      this.tcp, this.nonblock := tcp, nonblock;
      lastdata, lastoffset := NoBuffer, 0;
      taken, delivered, heard := [], [], [];
    }

    /** rcvevent, which the stack changes at any time. */
    method RcvEvent() returns (n: int)
      modifies `heard
      ensures heard == old(heard) + [Polled(n)]
    {
      n := *;
      heard := heard + [Polled(n)];
    }

    /** netconn_recv: the next buffer, or none on error, timeout or end of stream. */
    method NetconnRecv() returns (r: Received)
      modifies `heard
      ensures Sound(r) && heard == old(heard) + [Took(r)]
    {
      r := *;
      if !Sound(r) { r := NoBuffer; }
      heard := heard + [Took(r)];
    }

    /** The buffer to read from: the one kept back, or the next from the connection. A call that may
        not wait asks for none when rcvevent tells of none. */
    method NextBuffer(dontwait: bool) returns (buf: Received, blocked: bool)
      requires Valid()
      modifies this
      ensures Valid() && delivered == old(delivered)
      ensures old(taken) <= taken
      ensures buf == lastdata && (buf.NoBuffer? ==> taken == old(taken) && old(lastdata.NoBuffer?))
      ensures old(lastdata.Buffer?) ==> heard == old(heard) && !blocked
      ensures old(lastdata.NoBuffer?) && !dontwait && !nonblock ==> heard == old(heard) + [Took(buf)] && !blocked
      ensures old(lastdata.NoBuffer?) && (dontwait || nonblock) ==>
        exists n :: heard == old(heard) + [Polled(n)] + (if blocked then [] else [Took(buf)]) && blocked == (n <= 0)
      ensures blocked ==> buf.NoBuffer?
      ensures old(Unread()) <= Unread() && (old(lastdata.Buffer?) ==> Unread() == old(Unread()))
    {
      blocked := false;
      if lastdata.Buffer? {
        buf := lastdata;
      } else {
        if dontwait || nonblock {
          var n := RcvEvent();
          if n <= 0 {
            assert heard == old(heard) + [Polled(n)] + [];
            return NoBuffer, true;
          }
        }
        buf := NetconnRecv();
        lastdata := buf;
        if buf.Buffer? { taken := taken + buf.buf.bytes; }
      }
    }

    /** One buffer's part: copy at most len bytes to mem + off, and keep back the rest. Only a
        connection goes on to the next one: when more is asked for, the buffer was not pushed, the
        rcvevent read tells of more, and the call does not only peek. */
    method CopyOut(buf: Netbuf, mem: array<byte>, off: nat, len: nat, peek: bool) returns (copylen: nat, done: bool)
      requires Valid() && lastdata == Buffer(buf) && off + Min(len, |Unread()|) <= mem.Length
      modifies this, mem
      ensures Valid() && taken == old(taken)
      ensures copylen == Min(len, |old(Unread())|) && mem[..] == Patch(old(mem[..]), off, old(Unread())[..copylen])
      ensures delivered == if peek then old(delivered) else old(delivered) + old(Unread())[..copylen]
      ensures peek ==> Unread() == old(Unread())
      ensures !peek && tcp ==> Unread() == old(Unread())[copylen..]
      ensures !tcp ==> done && heard == old(heard)
      ensures tcp ==> exists n ::
        heard == old(heard) + [Polled(n)] && (done <==> copylen == len || buf.push || n <= 0 || peek)
    {
      hide Patch;
      var buflen := |buf.bytes| - lastoffset;
      copylen := if len > buflen then buflen else len;
      ghost var piece := Unread()[..copylen];
      assert piece == buf.bytes[lastoffset..lastoffset+copylen];
      CopyPartial(buf, mem, off, copylen, lastoffset);
      done := true;
      if tcp {
        var n := RcvEvent();
        done := len - copylen <= 0 || buf.push || n <= 0 || peek;
      }
      if !peek {
        delivered := delivered + piece;
        if tcp && buflen - copylen > 0 {
          lastoffset := lastoffset + copylen;
        } else {
          lastdata := NoBuffer;
          lastoffset := 0;
        }
      }
    }

    /** netbuf_copy_partial, within the buffer. */
    method CopyPartial(buf: Netbuf, mem: array<byte>, off: nat, n: nat, from: nat)
      requires off + n <= mem.Length && from + n <= |buf.bytes|
      modifies mem
      ensures mem[..] == Patch(old(mem[..]), off, buf.bytes[from..from+n])
    {
      var k := 0;
      while k < n
        invariant 0 <= k <= n
        invariant forall i :: 0 <= i < mem.Length ==>
          mem[i] == if off <= i < off + k then buf.bytes[from + (i - off)] else old(mem[i])
      {
        mem[off + k] := buf.bytes[from + k];
        k := k + 1;
      }
    }

    /** What a call of lwip_recvfrom starts from. */
    ghost function Now(mem: seq<byte>): Before
      reads this
      requires lastdata.Buffer? ==> lastoffset <= |lastdata.buf.bytes|
    {
      Before(taken, delivered, lastdata, Unread(), mem)
    }

    /** In the loop of lwip_recvfrom: pieces have been copied, and len bytes are still asked for. */
    ghost predicate Progress(b: Before, mem: array<byte>, pieces: seq<seq<byte>>, len0: nat, len: nat, off: nat,
        done: bool, peek: bool)
      reads this, mem
    {
      && Valid() && |Concat(pieces)| <= len0 <= |b.mem| == mem.Length && off == Off(pieces)
      && mem[..] == Deposit(b.mem, pieces) && b.taken <= taken
      && (!done ==> |Concat(pieces)| + len == len0)
      && (peek ==> delivered == b.delivered && Concat(pieces) <= Unread())
      && (!peek ==> delivered == b.delivered + Concat(pieces))
      && (pieces == [] ==> !done && taken == b.taken && Unread() == b.unread && lastdata == b.last)
      && (pieces != [] && !done ==> tcp && !peek && 0 < len && lastdata.NoBuffer?)
      && (pieces != [] && tcp && !peek && lastdata.Buffer? ==> |Concat(pieces)| == len0)
      && (pieces != [] && b.last.Buffer? ==> b.unread[..Min(len0, |b.unread|)] <= Concat(pieces))
      && (pieces != [] && len0 > 0 ==> |Concat(pieces)| > 0)
    }

    lemma NoProgress(b: Before, mem: array<byte>, len0: nat, peek: bool)
      requires Valid() && len0 <= mem.Length && b == Now(mem[..])
      ensures Progress(b, mem, [], len0, len0, 0, false, peek)
    {
      NothingCopied(mem[..]);
    }

    /** The same, once there is a buffer to read from. */
    ghost predicate Supplied(b: Before, mem: array<byte>, pieces: seq<seq<byte>>, len0: nat, len: nat, off: nat,
        peek: bool)
      reads this, mem
    {
      && Valid() && lastdata.Buffer? && |Concat(pieces)| + len == len0 <= |b.mem| == mem.Length && off == Off(pieces)
      && mem[..] == Deposit(b.mem, pieces) && b.taken <= taken
      && delivered == (if peek then b.delivered else b.delivered + Concat(pieces))
      && (pieces == [] ==> b.last.Buffer? ==> Unread() == b.unread)
      && (pieces != [] ==> tcp && !peek && 0 < len && |Concat(pieces)| > 0)
      && (pieces != [] && b.last.Buffer? ==> b.unread[..Min(len0, |b.unread|)] <= Concat(pieces))
    }

    /** Copy from that buffer. */
    method CopyNext(mem: array<byte>, len: nat, off: nat, peek: bool,
        ghost b: Before, ghost pieces: seq<seq<byte>>, ghost len0: nat)
        returns (len': nat, off': nat, done: bool, ghost pieces': seq<seq<byte>>)
      requires Supplied(b, mem, pieces, len0, len, off, peek)
      modifies this, mem
      ensures Progress(b, mem, pieces', len0, len', off', done, peek)
      ensures pieces' != [] && len' <= len && (!done ==> len' < len)
    {
      hide Concat, Deposit, Patch, Off, AddU16;
      ghost var piece := Unread()[..Min(len, |Unread()|)];
      DepositNext(b.mem, pieces, piece);
      var copylen;
      copylen, done := CopyOut(lastdata.buf, mem, off, len, peek);
      Appended(b.delivered, Concat(pieces), piece);
      Grown(pieces, piece);
      pieces', off', len' := pieces + [piece], AddU16(off, copylen), if tcp then len - copylen else len;
    }

    /** One turn of the loop; none tells that there was no buffer to read from. */
    method OneBuffer(mem: array<byte>, len: nat, off: nat, peek: bool, dontwait: bool,
        ghost b: Before, ghost pieces: seq<seq<byte>>, ghost len0: nat)
        returns (none: bool, blocked: bool, len': nat, off': nat, done: bool, ghost pieces': seq<seq<byte>>)
      requires Progress(b, mem, pieces, len0, len, off, false, peek)
      modifies this, mem
      ensures Progress(b, mem, pieces', len0, len', off', done, peek)
      ensures none ==> pieces' == pieces && off' == off && lastdata.NoBuffer?
      ensures none && blocked ==> dontwait || nonblock
      ensures none ==> heard != [] && Refused(heard[|heard|-1], blocked)
      ensures !none ==> pieces' != [] && len' <= len && (!done ==> len' < len)
    {
      hide Concat, Deposit, Patch, Off, AddU16;
      ghost var before := taken;
      var buf;
      buf, blocked := NextBuffer(dontwait);
      if buf.NoBuffer? { return true, blocked, len, off, false, pieces; }
      PrefixOnwards(b.taken, before, taken);
      NothingYet(pieces);
      none := false;
      len', off', done, pieces' := CopyNext(mem, len, off, peek, b, pieces, len0);
    }

    lemma NothingYet(pieces: seq<seq<byte>>)
      ensures pieces == [] ==> Concat(pieces) == []
    {
    }

    lemma Grown(pieces: seq<seq<byte>>, piece: seq<byte>)
      ensures Concat(pieces + [piece]) == Concat(pieces) + piece && Concat([]) == []
    {
      LastPiece(pieces, piece);
    }

    /** lwip_recvfrom. pieces are the runs of bytes copied, in order; r is -1 for an error. What
        was kept back comes first; nothing is delivered only when nothing was taken either, and then
        the result tells whether the call would block; something is kept back only when the caller's
        memory is full. */
    method RecvFrom(mem: array<byte>, len0: nat, peek: bool, dontwait: bool)
        returns (r: int, ghost pieces: seq<seq<byte>>)
      requires Valid() && len0 <= mem.Length
      modifies this, mem
      ensures Valid()
      ensures |Concat(pieces)| <= len0 && mem[..] == Deposit(old(mem[..]), pieces)
      ensures r == -1 || r == Off(pieces)
      ensures r == -1 ==> Off(pieces) == 0 && (dontwait || nonblock)
      ensures peek ==> delivered == old(delivered) && Concat(pieces) <= Unread()
      ensures !peek ==> delivered == old(delivered) + Concat(pieces)
      ensures old(taken) <= taken
      ensures old(lastdata.Buffer?) ==> old(Unread())[..Min(len0, |old(Unread())|)] <= Concat(pieces)
      ensures Concat(pieces) == [] && len0 > 0 ==> taken == old(taken) && old(lastdata.NoBuffer?)
      ensures tcp && !peek && lastdata.Buffer? ==> |Concat(pieces)| == len0
      ensures len0 < U16 ==>
        if r >= 0 then r == |Concat(pieces)| && mem[..r] == Concat(pieces) else Concat(pieces) == []
      ensures Concat(pieces) == [] && len0 > 0 ==>
        heard != [] && (r == -1 || r == 0) && Refused(heard[|heard|-1], r == -1)
    {
      hide Concat, Deposit, Off, Socket.Progress;
      ghost var b := Now(mem[..]);
      pieces := [];
      NoProgress(b, mem, len0, peek);
      var len, off, done := len0, 0, false;
      while !done
        invariant Progress(b, mem, pieces, len0, len, off, done, peek)
        decreases len, |pieces| == 0, !done
      {
        var none, blocked;
        none, blocked, len, off, done, pieces := OneBuffer(mem, len, off, peek, dontwait, b, pieces, len0);
        if none {
          Finished(b, mem, pieces, len0, len, off, done, peek);
          if off > 0 { return off, pieces; }
          return if blocked then -1 else 0, pieces;
        }
      }
      Finished(b, mem, pieces, len0, len, off, done, peek);
      r := off;
    }

    /** What holds when the loop is left. */
    lemma Finished(b: Before, mem: array<byte>, pieces: seq<seq<byte>>, len0: nat, len: nat, off: nat,
        done: bool, peek: bool)
      requires Progress(b, mem, pieces, len0, len, off, done, peek) && (done || lastdata.NoBuffer?)
      ensures Valid() && |Concat(pieces)| <= len0 && mem[..] == Deposit(b.mem, pieces) && off == Off(pieces)
      ensures peek ==> delivered == b.delivered && Concat(pieces) <= Unread()
      ensures !peek ==> delivered == b.delivered + Concat(pieces)
      ensures b.taken <= taken && (b.last.Buffer? ==> b.unread[..Min(len0, |b.unread|)] <= Concat(pieces))
      ensures Concat(pieces) == [] && len0 > 0 ==> taken == b.taken && b.last.NoBuffer?
      ensures tcp && !peek && lastdata.Buffer? ==> |Concat(pieces)| == len0
      ensures off > 0 || (done && len0 > 0) ==> Concat(pieces) != []
      ensures len0 < U16 ==> off == |Concat(pieces)| && mem[..off] == Concat(pieces)
    {
      hide Concat, Deposit, Off;
      NothingCopied(b.mem);
      Whole(b.mem, pieces);
    }
  }
}
