/** Text as the program stores it: octet strings that are well-formed UTF-8 (section 4 of RFC 3629). */
module Text {
  import opened Bytes

  predicate Continuation(b: byte) {
    0x80 <= b < 0xC0
  }

  /** Length of the well-formed sequence `s` begins with, or 0. */
  function FirstSequence(s: seq<byte>): (n: nat)
    ensures n <= |s| && n <= 4
  {
    if s == [] then 0
    else if s[0] < 0x80 then 1
    else if |s| >= 2 && 0xC2 <= s[0] <= 0xDF && Continuation(s[1]) then 2
    else if |s| >= 3 && Continuation(s[1]) && Continuation(s[2])
         && ((s[0] == 0xE0 && s[1] >= 0xA0) || 0xE1 <= s[0] <= 0xEC
             || (s[0] == 0xED && s[1] < 0xA0) || 0xEE <= s[0] <= 0xEF) then 3
    else if |s| >= 4 && Continuation(s[1]) && Continuation(s[2]) && Continuation(s[3])
         && ((s[0] == 0xF0 && s[1] >= 0x90) || 0xF1 <= s[0] <= 0xF3 || (s[0] == 0xF4 && s[1] < 0x90)) then 4
    else 0
  }

  predicate ValidUtf8(s: seq<byte>) {
    s == [] || (FirstSequence(s) > 0 && ValidUtf8(s[FirstSequence(s)..]))
  }

  type Utf8 = s: seq<byte> | ValidUtf8(s)

  /** The octets of an ASCII text; anything else becomes a question mark. */
  function Ascii(text: string): (s: Utf8)
    ensures |s| == |text|
  {
    var s := seq(|text|, i requires 0 <= i < |text| => if text[i] as int < 0x80 then text[i] as int else 63);
    AsciiIsUtf8(s);
    s
  }

  lemma {:induction false} AsciiIsUtf8(s: seq<byte>)
    requires forall i :: 0 <= i < |s| ==> s[i] < 0x80
    ensures ValidUtf8(s)
  {
    if s != [] {
      AsciiIsUtf8(s[1..]);
    }
  }

  /** Seven-bit characters are their own octets. */
  lemma AsciiOctets(text: string)
    ensures forall i :: 0 <= i < |text| && text[i] as int < 0x80 ==> Ascii(text)[i] == text[i] as int
  {
  }

  // ----- Characters -----

  /** The characters UTF-8 encodes: all code points but the surrogates. */
  predicate Scalar(c: nat) {
    c < 0xD800 || 0xE000 <= c < 0x11_0000
  }

  /** The octets of one character (section 3 of RFC 3629). */
  function CharBytes(c: nat): seq<byte>
    requires Scalar(c)
  {
    if c < 0x80 then [c]
    else if c < 0x800 then [0xC0 + c / 64, 0x80 + c % 64]
    else if c < 0x1_0000 then [0xE0 + c / 4096, 0x80 + c / 64 % 64, 0x80 + c % 64]
    else [0xF0 + c / 262144, 0x80 + c / 4096 % 64, 0x80 + c / 64 % 64, 0x80 + c % 64]
  }

  predicate Scalars(cs: seq<nat>) {
    forall i :: 0 <= i < |cs| ==> Scalar(cs[i])
  }

  function TextBytes(cs: seq<nat>): seq<byte>
    requires Scalars(cs)
  {
    if cs == [] then [] else CharBytes(cs[0]) + TextBytes(cs[1..])
  }

  lemma CharAhead(c: nat, rest: seq<byte>)
    requires Scalar(c)
    ensures var s := CharBytes(c) + rest;
            FirstSequence(s) == |CharBytes(c)| > 0 && s[FirstSequence(s)..] == rest
  {
    var s := CharBytes(c) + rest;
    assert forall i :: 0 <= i < |CharBytes(c)| ==> s[i] == CharBytes(c)[i];
  }

  lemma LowDigit(high: nat, low: nat)
    requires low < 64
    ensures (64 * high + low) / 64 == high && (64 * high + low) % 64 == low
  {
  }

  lemma NestedQuotient(c: nat)
    ensures c / 4096 == c / 64 / 64 && c / 262144 == c / 64 / 64 / 64
    ensures c / 4096 % 64 == c / 64 / 64 % 64
  {
  }

  /** The character a well-formed sequence stands for. */
  lemma SequenceIsChar(s: seq<byte>) returns (c: nat)
    requires FirstSequence(s) > 0
    ensures Scalar(c) && CharBytes(c) == s[..FirstSequence(s)]
  {
    var n := FirstSequence(s);
    var w: seq<nat> := s[..n];
    if n == 1 {
      c := w[0];
    } else if n == 2 {
      c := TwoOctets(w[0], w[1]);
    } else if n == 3 {
      c := ThreeOctets(w[0], w[1], w[2]);
    } else {
      c := FourOctets(w[0], w[1], w[2], w[3]);
    }
    assert s[..n] == w;
  }

  lemma TwoOctets(a: nat, b: nat) returns (c: nat)
    requires 0xC2 <= a <= 0xDF && 0x80 <= b < 0xC0
    ensures 0x80 <= c < 0x800 && c / 64 == a - 0xC0 && c % 64 == b - 0x80
  {
    c := 64 * (a - 0xC0) + (b - 0x80);
    LowDigit(a - 0xC0, b - 0x80);
  }

  lemma ThreeOctets(a: nat, b: nat, d: nat) returns (c: nat)
    requires 0xE0 <= a <= 0xEF && 0x80 <= b < 0xC0 && 0x80 <= d < 0xC0
    requires a == 0xE0 ==> b >= 0xA0
    requires a == 0xED ==> b < 0xA0
    ensures 0x800 <= c < 0x1_0000 && Scalar(c)
    ensures c / 4096 == a - 0xE0 && c / 64 % 64 == b - 0x80 && c % 64 == d - 0x80
  {
    var high := 64 * (a - 0xE0) + (b - 0x80);
    c := 64 * high + (d - 0x80);
    LowDigit(high, d - 0x80);
    LowDigit(a - 0xE0, b - 0x80);
    NestedQuotient(c);
  }

  lemma FourOctets(a: nat, b: nat, d: nat, e: nat) returns (c: nat)
    requires 0xF0 <= a <= 0xF4 && 0x80 <= b < 0xC0 && 0x80 <= d < 0xC0 && 0x80 <= e < 0xC0
    requires a == 0xF0 ==> b >= 0x90
    requires a == 0xF4 ==> b < 0x90
    ensures 0x1_0000 <= c < 0x11_0000
    ensures c / 262144 == a - 0xF0 && c / 4096 % 64 == b - 0x80 && c / 64 % 64 == d - 0x80 && c % 64 == e - 0x80
  {
    var high := 64 * (a - 0xF0) + (b - 0x80);
    var middle := 64 * high + (d - 0x80);
    c := 64 * middle + (e - 0x80);
    LowDigit(middle, e - 0x80);
    LowDigit(high, d - 0x80);
    LowDigit(a - 0xF0, b - 0x80);
    NestedQuotient(c);
  }

  lemma {:induction false} TextIsValid(cs: seq<nat>)
    requires Scalars(cs)
    ensures ValidUtf8(TextBytes(cs))
  {
    hide FirstSequence, CharBytes;
    if cs != [] {
      CharAhead(cs[0], TextBytes(cs[1..]));
      TextIsValid(cs[1..]);
    }
  }

  lemma {:induction false} ValidIsText(s: seq<byte>) returns (cs: seq<nat>)
    requires ValidUtf8(s)
    ensures Scalars(cs) && TextBytes(cs) == s
  {
    hide FirstSequence, CharBytes;
    cs := [];
    if s != [] {
      var n := FirstSequence(s);
      var c := SequenceIsChar(s);
      var more := ValidIsText(s[n..]);
      cs := [c] + more;
      assert cs[1..] == more && s == s[..n] + s[n..];
    }
  }

  /** The exact condition: an octet string is text iff it is the encoding of a string of characters. */
  lemma Utf8Iff(s: seq<byte>)
    ensures ValidUtf8(s) <==> exists cs :: Scalars(cs) && TextBytes(cs) == s
  {
    hide ValidUtf8, TextBytes;
    if ValidUtf8(s) {
      var cs := ValidIsText(s);
    } else if cs :| Scalars(cs) && TextBytes(cs) == s {
      TextIsValid(cs);
    }
  }
}
