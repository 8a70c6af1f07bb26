/** Octets and big-endian integers, by division and remainder. */
module Bytes {
  type byte = b: nat | b < 256
  type u16 = n: nat | n < 0x1_0000
  type u32 = n: nat | n < 0x1_0000_0000
  type u64 = n: nat | n < 0x1_0000_0000_0000_0000
  type u128 = n: nat | n < 0x1_0000_0000_0000_0000_0000_0000_0000_0000

  const RECEIVE_BUFFER: nat := 1500

  /** What one receive call of either service can yield. */
  type Received = s: seq<byte> | |s| <= RECEIVE_BUFFER witness []

  /** The `width` octets of `n`, most significant first; higher octets of `n` are dropped. */
  function BigEndian(n: nat, width: nat): (s: seq<byte>)
    ensures |s| == width
  {
    if width == 0 then [] else BigEndian(n / 256, width - 1) + [n % 256]
  }

  function FromBigEndian(s: seq<byte>): nat {
    if s == [] then 0 else FromBigEndian(s[..|s| - 1]) * 256 + s[|s| - 1]
  }

  function Power256(width: nat): (p: nat)
    ensures p > 0
  {
    if width == 0 then 1 else 256 * Power256(width - 1)
  }

  lemma {:induction false} FromBigEndianBound(s: seq<byte>)
    ensures FromBigEndian(s) < Power256(|s|)
  {
    if s != [] {
      FromBigEndianBound(s[..|s| - 1]);
    }
  }

  /** Octet `i` carries the digit of weight 256^(width-1-i). */
  lemma {:induction false} MostSignificantFirst(n: nat, width: nat, i: nat)
    requires i < width
    ensures BigEndian(n, width)[i] == n / Power256(width - 1 - i) % 256
  {
    if i < width - 1 {
      MostSignificantFirst(n / 256, width - 1, i);
      QuotientSplit(n, Power256(width - 2 - i));
    }
  }

  lemma {:induction false} DecodeEncode(n: nat, width: nat)
    ensures FromBigEndian(BigEndian(n, width)) == n % Power256(width)
  {
    if width > 0 {
      var s := BigEndian(n, width);
      assert s[..|s| - 1] == BigEndian(n / 256, width - 1);
      DecodeEncode(n / 256, width - 1);
      QuotientSplit(n, Power256(width - 1));
    }
  }

  /** Numbers that fit the width have different encodings. */
  lemma EncodingsDiffer(width: nat, i: nat, j: nat)
    requires i < j < Power256(width)
    ensures BigEndian(i, width) != BigEndian(j, width)
  {
    hide Power256, BigEndian, FromBigEndian;
    DecodeEncode(i, width);
    DecodeEncode(j, width);
    RemainderUnique(i, Power256(width), 0, i);
    RemainderUnique(j, Power256(width), 0, j);
  }

  lemma QuotientSplit(n: nat, p: nat)
    requires p > 0
    ensures n / (256 * p) == n / 256 / p
    ensures n % (256 * p) == (n / 256 % p) * 256 + n % 256
  {
    var q := n / 256;
    var k := q / p;
    assert q == k * p + q % p;
    var r := q % p * 256 + n % 256;
    assert n == k * (256 * p) + r by {
      assert n == 256 * q + n % 256;
      assert 256 * (k * p) == k * (256 * p);
    }
    assert 0 <= r < 256 * p;
    RemainderUnique(n, 256 * p, k, r);
  }

  lemma RemainderUnique(n: int, d: int, q: int, r: int)
    requires d > 0 && n == q * d + r && 0 <= r < d
    ensures n % d == r && n / d == q
  {
    var e := n / d - q;
    assert n == (n / d) * d + n % d;
    assert e * d == r - n % d by {
      assert e * d == (n / d) * d - q * d;
    }
    assert e >= 1 ==> e * d >= d;
    assert e <= -1 ==> e * d <= -d;
  }

  lemma {:induction false} EncodeDecode(s: seq<byte>)
    ensures BigEndian(FromBigEndian(s), |s|) == s
  {
    if s != [] {
      var front := s[..|s| - 1];
      EncodeDecode(front);
      assert s == front + [s[|s| - 1]];
      RemainderUnique(FromBigEndian(s), 256, FromBigEndian(front), s[|s| - 1]);
    }
  }

  lemma Widths()
    ensures Power256(2) == 0x1_0000
    ensures Power256(3) == 0x100_0000
    ensures Power256(4) == 0x1_0000_0000
    ensures Power256(16) == 0x1_0000_0000_0000_0000_0000_0000_0000_0000
  {
    assert Power256(4) == 0x1_0000_0000;
    assert Power256(8) == 0x1_0000_0000 * 0x1_0000_0000;
    assert Power256(12) == 0x1_0000_0000_0000_0000 * 0x1_0000_0000;
  }

  // ----- Fields of fixed width -----

  function U32Of(s: seq<byte>): u32
    requires |s| == 4
  {
    FromBigEndianBound(s);
    Widths();
    FromBigEndian(s)
  }

  function U16Of(s: seq<byte>): u16
    requires |s| == 2
  {
    FromBigEndianBound(s);
    Widths();
    FromBigEndian(s)
  }
}
