/** Fixed-width unsigned integers, big-endian byte strings and lower-case hexadecimal. */
module Bytes {
  import opened DivMod

  type byte = x: int | 0 <= x < 0x100
  type U16 = x: int | 0 <= x < 0x1_0000
  type U32 = x: int | 0 <= x < 0x1_0000_0000
  type U64 = x: int | 0 <= x < 0x1_0000_0000_0000_0000

  const U64_MAX: U64 := 0xFFFF_FFFF_FFFF_FFFF

  function Pow256(k: nat): (p: nat)
    ensures p >= 1
  {
    if k == 0 then 1 else 256 * Pow256(k - 1)
  }

  lemma Pow256Is64Bit()
    ensures Pow256(8) == 0x1_0000_0000_0000_0000
  {
    assert Pow256(4) == 0x1_0000_0000;
  }

  /** `to_be_bytes` of an unsigned integer of the given width in bytes. */
  function ToBigEndian(n: nat, width: nat): (s: seq<byte>)
    ensures |s| == width
  {
    if width == 0 then [] else ToBigEndian(n / 256, width - 1) + [n % 256]
  }

  /** `from_be_bytes`. */
  function FromBigEndian(s: seq<byte>): (n: nat)
  {
    if s == [] then 0 else 256 * FromBigEndian(s[..|s| - 1]) + s[|s| - 1]
  }

  lemma {:induction false} FromBigEndianBound(s: seq<byte>)
    ensures FromBigEndian(s) < Pow256(|s|)
  {
    if s != [] {
      FromBigEndianBound(s[..|s| - 1]);
    }
  }

  lemma {:induction false} DecodeEncodeBigEndian(n: nat, width: nat)
    requires n < Pow256(width)
    ensures FromBigEndian(ToBigEndian(n, width)) == n
  {
    if width > 0 {
      DecodeEncodeBigEndian(n / 256, width - 1);
      assert ToBigEndian(n, width)[..width - 1] == ToBigEndian(n / 256, width - 1);
    }
  }

  lemma DivTwice(n: nat, p: nat)
    requires p > 0
    ensures n / 256 / p == n / (256 * p)
  {
    var q, r := n / 256, n % 256;
    var a, b := q / p, q % p;
    assert q == a * p + b;
    assert a * (256 * p) == 256 * (a * p);
    ModUnique(n, a, 256 * b + r, 256 * p);
  }

  /** Byte `k` of a big-endian number, counted from the most significant one. */
  lemma {:induction false} BigEndianAt(n: nat, width: nat, k: nat)
    requires k < width
    ensures ToBigEndian(n, width)[k] == n / Pow256(width - 1 - k) % 256
  {
    if k == width - 1 {
      assert Pow256(0) == 1;
    } else {
      BigEndianAt(n / 256, width - 1, k);
      DivTwice(n, Pow256(width - 2 - k));
      assert Pow256(width - 1 - k) == 256 * Pow256(width - 2 - k);
    }
  }

  lemma {:induction false} EncodeDecodeBigEndian(s: seq<byte>)
    ensures ToBigEndian(FromBigEndian(s), |s|) == s
  {
    if s != [] {
      EncodeDecodeBigEndian(s[..|s| - 1]);
    }
  }

  function HexDigit(d: int): (c: char)
    requires 0 <= d < 16
    ensures c as int == if d < 10 then '0' as int + d else 'a' as int + d - 10
  {
    "0123456789abcdef"[d]
  }

  lemma HexDigitInjective(a: int, b: int)
    requires 0 <= a < 16 && 0 <= b < 16
    requires HexDigit(a) == HexDigit(b)
    ensures a == b
  {
  }

  /** Two lower-case hexadecimal digits a byte, as the format `{:02x}` prints them. */
  function Hex(s: seq<byte>): (r: string)
  {
    seq(2 * |s|, k requires 0 <= k < 2 * |s| => HexDigit(if k % 2 == 0 then s[k / 2] / 16 else s[k / 2] % 16))
  }

  lemma HexInjective(a: seq<byte>, b: seq<byte>)
    requires Hex(a) == Hex(b)
    ensures a == b
  {
    assert |Hex(a)| == |Hex(b)|;
    forall i | 0 <= i < |a|
      ensures a[i] == b[i]
    {
      assert Hex(a)[2 * i] == Hex(b)[2 * i] && Hex(a)[2 * i + 1] == Hex(b)[2 * i + 1];
      HexDigitInjective(a[i] / 16, b[i] / 16);
      HexDigitInjective(a[i] % 16, b[i] % 16);
    }
  }
}
