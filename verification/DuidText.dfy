/** DUIDs as text: hex octets with optional separators, read from configuration and printed in logs. */
module DuidText {
  import opened Wrappers
  import opened Bytes

  datatype HexError = InvalidHex | OddLength

  /** The value of an ASCII hex digit. */
  function HexVal(b: byte): (v: Option<nat>)
    ensures v.Some? ==> v.value < 16
  {
    if 48 <= b <= 57 then Some(b - 48)
    else if 97 <= b <= 102 then Some(b - 97 + 10)
    else if 65 <= b <= 70 then Some(b - 65 + 10)
    else None
  }

  /** Colon, hyphen, space and tab may stand between digits. */
  predicate IsSeparator(b: byte) {
    b == 58 || b == 45 || b == 32 || b == 9
  }

  function Strip(s: seq<byte>): seq<byte> {
    if s == [] then []
    else Strip(s[..|s| - 1]) + if IsSeparator(s[|s| - 1]) then [] else [s[|s| - 1]]
  }

  predicate AllHex(t: seq<byte>) {
    forall i :: 0 <= i < |t| ==> HexVal(t[i]).Some?
  }

  /** The octets spelled by pairs of digits; a last unpaired digit is left out. */
  function Pairs(t: seq<byte>): (r: seq<byte>)
    requires AllHex(t)
    ensures |r| == |t| / 2
  {
    if |t| < 2 then []
    else if |t| % 2 == 1 then Pairs(t[..|t| - 1])
    else Pairs(t[..|t| - 2]) + [HexVal(t[|t| - 2]).value * 16 + HexVal(t[|t| - 1]).value]
  }

  /** The DUID of a text, from its digits alone. */
  function DuidOf(digits: seq<byte>): Result<seq<byte>, HexError> {
    if !AllHex(digits) then Err(InvalidHex)
    else if |digits| % 2 == 1 || digits == [] then Err(OddLength)
    else Ok(Pairs(digits))
  }

  lemma {:induction false} StripSplits(a: seq<byte>, b: seq<byte>)
    ensures Strip(a + b) == Strip(a) + Strip(b)
  {
    if b == [] {
      assert a + b == a;
    } else {
      var s := a + b;
      assert s[..|s| - 1] == a + b[..|b| - 1];
      StripSplits(a, b[..|b| - 1]);
    }
  }

  lemma StripStep(s: seq<byte>, i: nat)
    requires i < |s|
    ensures Strip(s[..i + 1]) == Strip(s[..i]) + if IsSeparator(s[i]) then [] else [s[i]]
  {
    assert s[..i + 1][..i] == s[..i];
  }

  /** The digit of `t` that waits for its partner. */
  function Waiting(t: seq<byte>): Option<nat> {
    if |t| % 2 == 1 then HexVal(t[|t| - 1]) else None
  }

  /**
   Reading a text gives the octets of its digits. The text is read octet by octet; `hi` holds a
   digit waiting for its partner.
   */
  method ParseDuidHex(s: seq<byte>) returns (r: Result<seq<byte>, HexError>)
    ensures r == DuidOf(Strip(s))
    ensures r.Ok? <==> Strip(s) != [] && |Strip(s)| % 2 == 0 && AllHex(Strip(s))
    ensures r == Err(OddLength) <==> AllHex(Strip(s)) && (Strip(s) == [] || |Strip(s)| % 2 == 1)
  {
    hide Strip, Pairs, AllHex, HexVal, IsSeparator, Waiting;
    var out, hi := [], None;
    ghost var t: seq<byte> := [];
    NoDigits(s);
    for i := 0 to |s|
      invariant t == Strip(s[..i]) && AllHex(t)
      invariant out == Pairs(t) && hi == Waiting(t)
    {
      var c := s[i];
      StripStep(s, i);
      if !IsSeparator(c) {
        var v := HexVal(c);
        if v.None? {
          BadDigit(t, c);
          RestCannotHelp(s, i + 1);
          return Err(InvalidHex);
        }
        NextDigit(t, c);
        t := t + [c];
        match hi {
          case Some(h) =>
            out := out + [h * 16 + v.value];
            hi := None;
          case None =>
            hi := v;
        }
      }
    }
    assert s[..|s|] == s;
    AtTheEnd(t);
    if hi.Some? || out == [] {
      return Err(OddLength);
    }
    r := Ok(out);
  }

  lemma NoDigits(s: seq<byte>)
    ensures Strip(s[..0]) == [] && AllHex([]) && Pairs([]) == [] && Waiting([]) == None
  {
  }

  lemma BadDigit(t: seq<byte>, c: byte)
    requires HexVal(c).None?
    ensures !AllHex(t + [c])
  {
    assert (t + [c])[|t|] == c;
  }

  lemma AtTheEnd(t: seq<byte>)
    requires AllHex(t)
    ensures Waiting(t).Some? <==> |t| % 2 == 1
    ensures Pairs(t) == [] <==> |t| < 2
  {
  }

  lemma NextDigit(t: seq<byte>, c: byte)
    requires AllHex(t) && HexVal(c).Some?
    ensures AllHex(t + [c])
    ensures match Waiting(t)
            case Some(h) => Pairs(t + [c]) == Pairs(t) + [h * 16 + HexVal(c).value] && Waiting(t + [c]) == None
            case None => Pairs(t + [c]) == Pairs(t) && Waiting(t + [c]) == HexVal(c)
  {
    hide HexVal;
    var u := t + [c];
    if |t| % 2 == 1 {
      assert u[..|u| - 2] == t[..|t| - 1];
      assert u[|u| - 2] == t[|t| - 1] && u[|u| - 1] == c;
    } else {
      assert u[..|u| - 1] == t;
    }
  }

  /** A bad digit among the first `k` octets spoils the whole text. */
  lemma RestCannotHelp(s: seq<byte>, k: nat)
    requires k <= |s| && !AllHex(Strip(s[..k]))
    ensures !AllHex(Strip(s))
  {
    assert s == s[..k] + s[k..];
    StripSplits(s[..k], s[k..]);
    var a, b := Strip(s[..k]), Strip(s[k..]);
    var i :| 0 <= i < |a| && HexVal(a[i]).None?;
    assert (a + b)[i] == a[i];
  }

  // ----- Printing -----

  function HexDigit(v: nat): byte
    requires v < 16
  {
    if v < 10 then 48 + v else 87 + v
  }

  function Hex2(b: byte): (s: seq<byte>)
    ensures |s| == 2
  {
    [HexDigit(b / 16), HexDigit(b % 16)]
  }

  /** Two digits an octet, joined by colons. */
  function Chaddr(a: seq<byte>): seq<byte>
    requires a != []
  {
    if |a| == 1 then Hex2(a[0]) else Chaddr(a[..|a| - 1]) + [58] + Hex2(a[|a| - 1])
  }

  lemma Hex2Digits(b: byte)
    ensures var s := Hex2(b);
            && Strip(s) == s
            && HexVal(s[0]) == Some(b / 16) && HexVal(s[1]) == Some(b % 16)
  {
    var s := Hex2(b);
    assert s[..1] == [s[0]] && s[..1][..0] == [];
    assert Strip(s[..1]) == [s[0]];
  }

  lemma {:induction false} ChaddrDigits(a: seq<byte>)
    requires a != []
    ensures var t := Strip(Chaddr(a)); AllHex(t) && |t| == 2 * |a| && Pairs(t) == a
  {
    hide HexVal, Strip, Hex2, Pairs, AllHex;
    var last := a[|a| - 1];
    var h := Hex2(last);
    Hex2Digits(last);
    NoDigits(a);
    if |a| == 1 {
      assert a == [last];
      TwoMore([], h, last);
      assert [] + h == h;
    } else {
      var front := a[..|a| - 1];
      ChaddrDigits(front);
      var u := Strip(Chaddr(front));
      StripSplits(Chaddr(front), [58]);
      StripSplits(Chaddr(front) + [58], h);
      ColonStripped();
      assert u + [] + h == u + h;
      TwoMore(u, h, last);
      assert a == front + [last];
    }
  }

  lemma ColonStripped()
    ensures Strip([58]) == []
  {
    var colon: seq<byte> := [58];
    assert colon[..0] == [];
  }

  /** Two more digits are one more octet. */
  lemma TwoMore(u: seq<byte>, h: seq<byte>, b: byte)
    requires AllHex(u) && |u| % 2 == 0 && |h| == 2
    requires HexVal(h[0]) == Some(b / 16) && HexVal(h[1]) == Some(b % 16)
    ensures AllHex(u + h) && Pairs(u + h) == Pairs(u) + [b]
  {
    hide HexVal, AllHex, Pairs;
    NextDigit(u, h[0]);
    NextDigit(u + [h[0]], h[1]);
    assert u + h == u + [h[0]] + [h[1]];
  }

  /** A printed DUID reads back as itself. */
  lemma DuidRoundTrip(a: seq<byte>)
    requires a != []
    ensures DuidOf(Strip(Chaddr(a))) == Ok(a)
  {
    ChaddrDigits(a);
  }

  // ----- Reading and printing -----

  function Lower(b: byte): (l: byte)
    ensures HexVal(l) == HexVal(b)
  {
    if 65 <= b <= 70 then b + 32 else b
  }

  function Lowered(t: seq<byte>): (r: seq<byte>)
    ensures |r| == |t| && forall i :: 0 <= i < |t| ==> r[i] == Lower(t[i])
  {
    seq(|t|, i requires 0 <= i < |t| => Lower(t[i]))
  }

  /** Printing what was read gives the digits that were read, in lower case. */
  lemma {:induction false} PrintedDigits(t: seq<byte>)
    requires AllHex(t) && |t| % 2 == 0 && t != []
    ensures Strip(Chaddr(Pairs(t))) == Lowered(t)
  {
    hide Strip, HexVal, Hex2, Lower;
    var n, a := |t|, Pairs(t);
    var front, last := t[..n - 2], a[|a| - 1];
    var h := Hex2(last);
    assert a == Pairs(front) + [last];
    PrintedPair(t[n - 2], t[n - 1]);
    Hex2Digits(last);
    if n == 2 {
      assert a == [last] && Lowered(t) == h;
    } else {
      PrintedDigits(front);
      StripSplits(Chaddr(Pairs(front)), [58]);
      StripSplits(Chaddr(Pairs(front)) + [58], h);
      ColonStripped();
      assert a[..|a| - 1] == Pairs(front);
      assert Lowered(t) == Lowered(front) + [] + h;
    }
  }

  lemma PrintedPair(c: byte, d: byte)
    requires HexVal(c).Some? && HexVal(d).Some?
    ensures Hex2(HexVal(c).value * 16 + HexVal(d).value) == [Lower(c), Lower(d)]
  {
  }

  /** The exact meaning: a text reads as `a` iff its digits are those of `a` as printed, in either case. */
  lemma ReadsIff(s: seq<byte>, a: seq<byte>)
    ensures DuidOf(Strip(s)) == Ok(a) <==> a != [] && Strip(Chaddr(a)) == Lowered(Strip(s))
  {
    hide Strip, Lowered, HexVal;
    var t := Strip(s);
    if DuidOf(t).Ok? {
      PrintedDigits(t);
    }
    if a != [] && Strip(Chaddr(a)) == Lowered(t) {
      ChaddrDigits(a);
      LoweredIsHex(t);
      PrintedDigits(t);
      ChaddrDigits(Pairs(t));
    }
  }

  lemma LoweredIsHex(t: seq<byte>)
    requires AllHex(Lowered(t))
    ensures AllHex(t)
  {
    forall i | 0 <= i < |t|
      ensures HexVal(t[i]).Some?
    {
      assert HexVal(Lowered(t)[i]).Some?;
    }
  }

  // ----- Characters -----

  /** The characters that may stand between digits: exactly colon, hyphen, space and tab. */
  function Separators(): string {
    ":- \t"
  }

  /** Dropping an octet of a text changes nothing iff it is a separator. */
  lemma SeparatorsVanish(a: seq<byte>, c: byte, b: seq<byte>)
    ensures Strip(a + [c] + b) == Strip(a + b) <==> exists i :: 0 <= i < |Separators()| && Separators()[i] as int == c
  {
    hide Strip, IsSeparator;
    StripSplits(a + [c], b);
    StripSplits(a, [c]);
    StripSplits(a, b);
    StripOne(c);
    assert Separators()[0] == ':' && Separators()[1] == '-' && Separators()[2] == ' ' && Separators()[3] == '\t';
    if IsSeparator(c) {
      assert Strip(a) + [] == Strip(a);
    } else {
      assert |Strip(a) + [c] + Strip(b)| == |Strip(a) + Strip(b)| + 1;
    }
    SeparatorIff(c);
  }

  lemma StripOne(c: byte)
    ensures Strip([c]) == if IsSeparator(c) then [] else [c]
  {
    assert [c][..0] == [];
  }

  lemma SeparatorIff(c: byte)
    ensures IsSeparator(c) <==> c == ':' as int || c == '-' as int || c == ' ' as int || c == '\t' as int
  {
  }

  /** Octets are printed with the usual digits, the first one for the high half, and both cases are read. */
  lemma DigitValues(v: nat)
    requires v < 16
    ensures HexDigit(v) == "0123456789abcdef"[v] as int
    ensures HexVal("0123456789abcdef"[v] as int) == Some(v) && HexVal("0123456789ABCDEF"[v] as int) == Some(v)
    ensures Hex2(16 * v) == ["0123456789abcdef"[v] as int, '0' as int]
  {
    var lower, upper := "0123456789abcdef", "0123456789ABCDEF";
    assert lower[v] as int == if v < 10 then 48 + v else 87 + v;
    assert upper[v] as int == if v < 10 then 48 + v else 55 + v;
  }

  /** No other octet is a digit. */
  lemma OnlyDigits(b: byte)
    ensures HexVal(b).Some? ==>
              exists v: nat :: v < 16 && (b == "0123456789abcdef"[v] as int || b == "0123456789ABCDEF"[v] as int)
  {
    if HexVal(b).Some? {
      DigitValues(HexVal(b).value);
    }
  }

  /** A printed DUID has two digits an octet and a colon between octets. */
  lemma {:induction false} ChaddrLayout(a: seq<byte>, i: nat)
    requires i < |a|
    ensures |Chaddr(a)| == 3 * |a| - 1
    ensures Chaddr(a)[3 * i..3 * i + 2] == Hex2(a[i])
    ensures i + 1 < |a| ==> Chaddr(a)[3 * i + 2] == ':' as int
  {
    hide Hex2;
    var n := |a| - 1;
    if n > 0 {
      var front := a[..n];
      ChaddrLayout(front, if i < n then i else 0);
      var s := Chaddr(front);
      assert Chaddr(a) == s + [58] + Hex2(a[n]);
      if i < n {
        assert Chaddr(a)[3 * i..3 * i + 2] == s[3 * i..3 * i + 2];
      } else {
        assert Chaddr(a)[3 * i..3 * i + 2] == Hex2(a[n]);
      }
    }
  }
}
