/**
 * Fixed-width unsigned integers and their little-endian byte layout, the
 * host byte order of the x86-64 machines the daemons run on.
 */
module Bytes {
  /** An octet (`unsigned char`). */
  type byte = x: nat | x < 256

  type u16 = x: nat | x < 0x1_0000
  type u32 = x: nat | x < 0x1_0000_0000
  type u64 = x: nat | x < 0x1_0000_0000_0000_0000
  type i32 = x: int | -0x8000_0000 <= x < 0x8000_0000

  /** 256 to the power `width`: the number of values `width` bytes can hold. */
  function Pow256(width: nat): (r: nat)
    ensures r > 0
  {
    if width == 0 then 1 else 256 * Pow256(width - 1)
  }

  /** The low `width` bytes of `n`, least significant first (what a `send` of the integer puts on the wire). */
  function LE(n: nat, width: nat): (r: seq<byte>)
    ensures |r| == width
  {
    if width == 0 then [] else [n % 256] + LE(n / 256, width - 1)
  }

  /** The number whose little-endian layout is `s` (what a `recv` into an integer reads back). */
  function FromLE(s: seq<byte>): (r: nat)
    ensures r < Pow256(|s|)
  {
    if |s| == 0 then 0 else s[0] + 256 * FromLE(s[1..])
  }

  /** Reading back a written integer gives the integer, when it fits in the width. */
  lemma {:induction false} FromLEOfLE(n: nat, width: nat)
    requires n < Pow256(width)
    ensures FromLE(LE(n, width)) == n
  {
    if width > 0 {
      var q, m := n / 256, n % 256;
      DivBound(n, Pow256(width - 1));
      FromLEOfLE(q, width - 1);
      FromLECons(m, LE(q, width - 1));
      Split(n);
    }
  }

  lemma FromLECons(b: byte, t: seq<byte>)
    ensures FromLE([b] + t) == b + 256 * FromLE(t)
  {
    assert ([b] + t)[1..] == t;
  }

  /** Division by 256 turns a bound of 256 * p into a bound of p. */
  lemma DivBound(n: nat, p: nat)
    requires n < 256 * p
    ensures n / 256 < p
  {
  }

  lemma Split(n: nat)
    ensures n == n % 256 + 256 * (n / 256)
  {
  }

  lemma Join(a: nat, b: nat)
    requires a < 256
    ensures (a + 256 * b) % 256 == a && (a + 256 * b) / 256 == b
  {
  }

  /** Writing back a read integer gives the bytes that were read. */
  lemma {:induction false} LEOfFromLE(s: seq<byte>)
    ensures LE(FromLE(s), |s|) == s
  {
    if |s| > 0 {
      var n := FromLE(s);
      Join(s[0], FromLE(s[1..]));
      LEOfFromLE(s[1..]);
      assert LE(n, |s|) == [n % 256] + LE(n / 256, |s| - 1);
    }
  }

  /** The ranges of the widths on the wire: `ushort`, a 4-byte `enum` and `size_t`. */
  lemma Pow256Widths()
    ensures Pow256(2) == 0x1_0000
    ensures Pow256(4) == 0x1_0000_0000
    ensures Pow256(8) == 0x1_0000_0000_0000_0000
  {
    assert Pow256(1) == 0x100;
    assert Pow256(2) == 0x1_0000;
    assert Pow256(3) == 0x100_0000;
    assert Pow256(4) == 0x1_0000_0000;
    assert Pow256(5) == 0x100_0000_0000;
    assert Pow256(6) == 0x1_0000_0000_0000;
    assert Pow256(7) == 0x100_0000_0000_0000;
  }
}
