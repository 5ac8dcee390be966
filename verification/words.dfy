/** The widths of lwIP's integer types, and a few values every part needs. */
module Words {
  newtype byte = x: int | 0 <= x < 256

  datatype Option<T> = None | Some(value: T)

  const U8: nat := 0x100
  const U16: nat := 0x1_0000
  const U32: nat := 0x1_0000_0000

  function AddU16(a: nat, b: nat): nat { (a + b) % U16 }

  function AddU32(a: int, b: int): (r: nat)
    ensures r < U32
  {
    (a + b) % U32
  }

  function SubU32(a: int, b: int): (r: nat)
    ensures r < U32
  {
    (a - b) % U32
  }

  /** Sums and differences that fit are exact. */
  lemma FitsU32(a: int, b: int)
    ensures 0 <= a + b < U32 ==> AddU32(a, b) == a + b
    ensures 0 <= a - b < U32 ==> SubU32(a, b) == a - b
  {
  }

  function Min(a: int, b: int): int { if a < b then a else b }

  function InsertAt<T>(s: seq<T>, i: nat, x: T): (r: seq<T>)
    requires i <= |s|
    ensures |r| == |s| + 1 && forall k :: 0 <= k < |r| ==> r[k] == if k < i then s[k] else if k == i then x else s[k-1]
  {
    s[..i] + [x] + s[i..]
  }

  function RemoveAt<T>(s: seq<T>, i: nat): (r: seq<T>)
    requires i < |s|
    ensures |r| == |s| - 1 && forall k :: 0 <= k < |r| ==> r[k] == if k < i then s[k] else s[k+1]
  {
    s[..i] + s[i+1..]
  }

  /** A slice of a slice. */
  lemma InnerSlice<T>(s: seq<T>, lo: nat, hi: nat, a: nat, b: nat)
    requires lo <= hi <= |s| && a <= b <= hi - lo
    ensures s[lo..hi][a..b] == s[lo+a..lo+b]
  {
    var t := s[lo..hi];
    forall k | 0 <= k < b - a ensures t[a..b][k] == s[lo+a..lo+b][k] { assert t[a+k] == s[lo+a+k]; }
  }

  /** Where a is followed by b. */
  lemma TwoParts<T>(s: seq<T>, at: nat, a: seq<T>, b: seq<T>)
    requires at + |a + b| <= |s| && s[at..at+|a + b|] == a + b
    ensures s[at..at+|a|] == a && s[at+|a|..at+|a|+|b|] == b
  {
    var w := s[at..at+|a + b|];
    InnerSlice(s, at, at + |a + b|, 0, |a|);
    InnerSlice(s, at, at + |a + b|, |a|, |a + b|);
    assert w[..|a|] == a && w[|a|..] == b && w[0..|a|] == w[..|a|] && w[|a|..|a + b|] == w[|a|..];
  }

  /** ++ on a u8_t. */
  function IncU8(n: nat): nat { if n + 1 < U8 then n + 1 else 0 }

  /** What a u8_t counter shows after n increments. */
  function CountU8(n: nat): nat { if n == 0 then 0 else IncU8(CountU8(n - 1)) }

  lemma {:induction false} CountU8Mod(n: nat)
    ensures CountU8(n) == n % U8
  {
    if n > 0 { CountU8Mod(n - 1); }
  }
}

/** err_t of src/lwip/include/lwip/err.h. */
module Errors {
  const ERR_OK: int := 0
  const ERR_MEM: int := -1
  const ERR_VAL: int := -9
  const ERR_ARG: int := -10
  const ERR_USE: int := -11
  const ERR_ISCONN: int := -13
}
