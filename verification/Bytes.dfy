/**
 Byte strings and the big-endian integers written into them.
 Go and Solidity strings are byte strings, so one type serves both.
 */
module Bytes {

  type Byte = b: int | 0 <= b < 256

  type Text = seq<Byte>

  const U16 := 0x1_0000
  const U32 := 0x1_0000_0000
  const U64 := 0x1_0000_0000_0000_0000

  /** The bytes of an ASCII literal. */
  function Ascii(s: string): (t: Text)
    ensures |t| == |s|
  {
    seq(|s|, i requires 0 <= i < |s| => s[i] as int % 256)
  }

  /** The low `width` bytes of `n`, most significant first: larger numbers are truncated. */
  function BigEndian(n: nat, width: nat): (t: Text)
    ensures |t| == width
  {
    if width == 0 then [] else BigEndian(n / 256, width - 1) + [n % 256]
  }

  function Value(t: Text): nat {
    if t == [] then 0 else Value(t[..|t| - 1]) * 256 + t[|t| - 1]
  }

  function Pow256(n: nat): (p: nat)
    ensures p > 0
  {
    if n == 0 then 1 else 256 * Pow256(n - 1)
  }

  lemma {:induction false} ValueBound(t: Text)
    ensures Value(t) < Pow256(|t|)
  {
    if t != [] {
      ValueBound(t[..|t| - 1]);
    }
  }

  /** A number below 256^width survives the trip through its bytes. */
  lemma {:induction false} BigEndianValue(n: nat, width: nat)
    requires n < Pow256(width)
    ensures Value(BigEndian(n, width)) == n
  {
    if width > 0 {
      BigEndianValue(n / 256, width - 1);
      var high := BigEndian(n / 256, width - 1);
      assert (high + [n % 256])[..width - 1] == high;
    }
  }

  lemma {:induction false} ValueInjective(s: Text, t: Text)
    requires |s| == |t| && Value(s) == Value(t)
    ensures s == t
  {
    if s != [] {
      var n := |s| - 1;
      assert s[n] == t[n] && Value(s[..n]) == Value(t[..n]);
      ValueInjective(s[..n], t[..n]);
      assert s == s[..n] + [s[n]] && t == t[..n] + [t[n]];
    }
  }

  lemma Pow256Values()
    ensures Pow256(2) == U16 && Pow256(4) == U32 && Pow256(8) == U64
  {
  }

  lemma BigEndianInjective(m: nat, n: nat, width: nat)
    requires m < Pow256(width) && n < Pow256(width)
    requires BigEndian(m, width) == BigEndian(n, width)
    ensures m == n
  {
    BigEndianValue(m, width);
    BigEndianValue(n, width);
  }

  lemma Assoc(a: Text, b: Text, c: Text)
    ensures (a + b) + c == a + (b + c)
  {
  }

  /** Equal concatenations split at the same place agree on both sides. */
  lemma SplitEqual(a: Text, b: Text, c: Text, d: Text)
    requires a + b == c + d && |a| == |c|
    ensures a == c && b == d
  {
    assert a == (a + b)[..|a|] && c == (c + d)[..|c|];
    assert b == (a + b)[|a|..] && d == (c + d)[|c|..];
  }
}
