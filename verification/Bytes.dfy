/** Machine integers as subsets of `int`, and the big-endian representation of numbers. */
module Bytes {
  type byte = x: int | 0 <= x < 0x100
  type uint16 = x: int | 0 <= x < 0x1_0000
  type uint32 = x: int | 0 <= x < 0x1_0000_0000
  type uint64 = x: int | 0 <= x < 0x1_0000_0000_0000_0000
  type int32 = x: int | -0x8000_0000 <= x < 0x8000_0000

  const UINT32_MAX: uint32 := 0xFFFF_FFFF

  function HighByte(w: uint16): byte { w / 0x100 }

  function LowByte(w: uint16): byte { w % 0x100 }

  function Word(high: byte, low: byte): uint16 { high * 0x100 + low }

  function Pow256(n: nat): (p: nat)
    ensures p > 0
  {
    if n == 0 then 1 else 0x100 * Pow256(n - 1)
  }

  /** The `width` low-order bytes of `v`, most significant first. */
  function BigEndian(v: nat, width: nat): (bs: seq<byte>)
    ensures |bs| == width
  {
    if width == 0 then [] else BigEndian(v / 0x100, width - 1) + [v % 0x100]
  }

  function FromBigEndian(bs: seq<byte>): nat {
    if bs == [] then 0 else FromBigEndian(bs[..|bs| - 1]) * 0x100 + bs[|bs| - 1]
  }

  function Zeros(n: nat): (bs: seq<byte>) { seq(n, _ => 0) }

  /** How many times `v` can be shifted right by eight bits before it is zero. */
  function MinWidth(v: nat): nat {
    if v == 0 then 0 else 1 + MinWidth(v / 0x100)
  }

  /** `MinWidth(v)` is the least number of bytes that can hold `v`. */
  lemma {:induction false} MinWidthIsLeast(v: nat, width: nat)
    ensures v < Pow256(width) <==> MinWidth(v) <= width
  {
    if v != 0 && width != 0 {
      MinWidthIsLeast(v / 0x100, width - 1);
    }
  }

  lemma Width64(v: uint64)
    ensures MinWidth(v) <= 8
  {
    assert Pow256(8) == 0x100 * (0x100 * (0x100 * (0x100 * Pow256(4))));
    MinWidthIsLeast(v, 8);
  }

  lemma FromAppended(bs: seq<byte>, b: byte)
    ensures FromBigEndian(bs + [b]) == FromBigEndian(bs) * 0x100 + b
  {
    assert (bs + [b])[..|bs|] == bs;
  }

  lemma {:induction false} DecodeEncode(v: nat, width: nat)
    requires v < Pow256(width)
    ensures FromBigEndian(BigEndian(v, width)) == v
  {
    if width != 0 {
      var upper, low := v / 0x100, v % 0x100;
      assert v == upper * 0x100 + low && Pow256(width) == 0x100 * Pow256(width - 1);
      DecodeEncode(upper, width - 1);
      FromAppended(BigEndian(upper, width - 1), low);
    }
  }

  lemma {:induction false} EncodeDecode(bs: seq<byte>)
    ensures FromBigEndian(bs) < Pow256(|bs|)
    ensures BigEndian(FromBigEndian(bs), |bs|) == bs
  {
    if bs != [] {
      EncodeDecode(bs[..|bs| - 1]);
    }
  }

  /** Dropping leading bytes of a wide representation leaves the narrow one. */
  lemma {:induction false} NarrowedSuffix(v: nat, wide: nat, narrow: nat)
    requires narrow <= wide
    ensures BigEndian(v, wide)[wide - narrow..] == BigEndian(v, narrow)
  {
    if narrow != 0 {
      NarrowedSuffix(v / 0x100, wide - 1, narrow - 1);
    }
  }

  /** Extra width only adds leading zero bytes. */
  lemma {:induction false} PaddedPrefix(v: nat, width: nat, extra: nat)
    requires v < Pow256(width)
    ensures BigEndian(v, width + extra) == Zeros(extra) + BigEndian(v, width)
  {
    if width != 0 {
      PaddedPrefix(v / 0x100, width - 1, extra);
    } else if extra != 0 {
      PaddedPrefix(0, 0, extra - 1);
    }
  }

  /** Dividing by 256 and then by `d` is dividing by their product. */
  lemma DivideTwice(v: nat, d: nat)
    requires d > 0
    ensures v / 0x100 / d == v / (0x100 * d)
  {
    var q, r, low := v / 0x100 / d, v / 0x100 % d, v % 0x100;
    assert v / 0x100 == q * d + r;
    assert v == (0x100 * d) * q + (0x100 * r + low);
    Quotient(v, 0x100 * d, q, 0x100 * r + low);
  }

  lemma Multiples(d: nat, k: int)
    ensures k >= 0 ==> d * k >= 0
    ensures k >= 1 ==> d * k >= d
    ensures k <= -1 ==> d * k + d <= 0
  {
  }

  lemma Quotient(v: nat, d: nat, q: nat, r: nat)
    requires d > 0 && v == d * q + r && r < d
    ensures v / d == q
  {
    var k: int := v / d - q;
    assert d * k == d * (v / d) - d * q;
    Multiples(d, k);
  }

  lemma QuotientBelow(v: nat, d: nat, k: nat)
    requires d > 0
    ensures v / d < k <==> v < d * k
  {
    var m: int := k - v / d;
    assert d * m == d * k - d * (v / d);
    Multiples(d, m);
  }

  /** Byte `i` of a big-endian number of `width` bytes. */
  lemma {:induction false} DigitExactly(v: nat, width: nat, i: nat)
    requires i < width
    ensures BigEndian(v, width)[i] == v / Pow256(width - 1 - i) % 0x100
  {
    if i < width - 1 {
      DigitExactly(v / 0x100, width - 1, i);
      DivideTwice(v, Pow256(width - 2 - i));
    }
  }

  lemma LeadingDigit(v: nat, d: nat)
    requires d > 0 && v < 0x100 * d
    ensures v / d % 0x100 != 0 <==> v >= d
  {
    QuotientBelow(v, d, 1);
    QuotientBelow(v, d, 0x100);
    DigitIsQuotient(v / d);
  }

  lemma DigitIsQuotient(q: int)
    requires 0 <= q < 0x100
    ensures q % 0x100 == q
  {
  }

  /** A number that fits has its least width exactly when it has no leading zero byte. */
  lemma NoLeadingZeroExactly(v: nat, width: nat)
    requires v < Pow256(width)
    ensures MinWidth(v) == width <==> width == 0 || v / Pow256(width - 1) % 0x100 != 0
  {
    MinWidthIsLeast(v, width);
    if width > 0 {
      MinWidthIsLeast(v, width - 1);
      LeadingDigit(v, Pow256(width - 1));
    }
  }
}
