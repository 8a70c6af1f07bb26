/**
 The Parameter Request List filter: options the client asked for, in the order it asked, then
 the mandatory ones, selected by swapping in place and truncating.
 */
module OptionFilter {
  import opened Wrappers
  import opened Bytes
  import opened Dhcpv4Options
  import opened Dhcpv4Packet

  /** Kept whether the client asks for them or not. */
  function Mandatory(): seq<byte> {
    [DHCP_MESSAGE_TYPE, SERVER_IDENTIFIER, SUBNET_MASK, IP_ADDRESS_LEASE_TIME, DOMAIN_NAME_SERVER, ROUTER]
  }

  // ----- One pick: find the code at or after `pos`, swap it to `pos` -----

  function FindFrom(opts: seq<DhcpOption>, pos: nat, c: byte): (r: Option<nat>)
    requires pos <= |opts|
    ensures r.Some? ==> pos <= r.value < |opts| && Code(opts[r.value]) == c
    ensures r.Some? ==> forall i :: pos <= i < r.value ==> Code(opts[i]) != c
    ensures r.None? ==> forall i :: pos <= i < |opts| ==> Code(opts[i]) != c
    decreases |opts| - pos
  {
    if pos == |opts| then None
    else if Code(opts[pos]) == c then Some(pos)
    else FindFrom(opts, pos + 1, c)
  }

  function Swapped<T>(s: seq<T>, i: nat, j: nat): (r: seq<T>)
    requires i < |s| && j < |s|
    ensures |r| == |s| && multiset(r) == multiset(s)
  {
    s[i := s[j]][j := s[i]]
  }

  function Pick(opts: seq<DhcpOption>, pos: nat, c: byte): (r: (seq<DhcpOption>, nat))
    requires pos <= |opts|
    ensures |r.0| == |opts| && pos <= r.1 <= |opts|
  {
    match FindFrom(opts, pos, c)
    case None => (opts, pos)
    case Some(i) => (Swapped(opts, i, pos), pos + 1)
  }

  function PickAll(opts: seq<DhcpOption>, pos: nat, codes: seq<byte>): (r: (seq<DhcpOption>, nat))
    requires pos <= |opts|
    ensures |r.0| == |opts| && pos <= r.1 <= |opts|
    decreases |codes|
  {
    if codes == [] then (opts, pos)
    else
      var (opts', pos') := Pick(opts, pos, codes[0]);
      PickAll(opts', pos', codes[1..])
  }

  function Filtered(opts: seq<DhcpOption>, prl: seq<byte>): seq<DhcpOption> {
    var (opts', kept) := PickAll(opts, 0, prl + Mandatory());
    opts'[..kept]
  }

  // ----- For any list, duplicates included -----

  lemma PickKeeps(opts: seq<DhcpOption>, pos: nat, c: byte)
    requires pos <= |opts|
    ensures var (opts', pos') := Pick(opts, pos, c);
            multiset(opts') == multiset(opts) && opts'[..pos] == opts[..pos]
  {
  }

  /** The filter permutes the list and keeps what it has already picked in place. */
  lemma {:induction false} PickAllPermutes(opts: seq<DhcpOption>, pos: nat, codes: seq<byte>)
    requires pos <= |opts|
    ensures var (opts', kept) := PickAll(opts, pos, codes);
            multiset(opts') == multiset(opts) && opts'[..pos] == opts[..pos]
    decreases |codes|
  {
    if codes != [] {
      PickKeeps(opts, pos, codes[0]);
      var (opts1, pos1) := Pick(opts, pos, codes[0]);
      PickAllPermutes(opts1, pos1, codes[1..]);
      var opts2 := PickAll(opts1, pos1, codes[1..]).0;
      assert opts2[..pos] == opts2[..pos1][..pos] == opts1[..pos1][..pos] == opts1[..pos];
    }
  }

  predicate HasCode(opts: seq<DhcpOption>, c: byte) {
    exists i :: 0 <= i < |opts| && Code(opts[i]) == c
  }

  /** A wanted code that is present is kept, and only wanted codes are added. */
  lemma {:induction false} PickAllKeepsWanted(opts: seq<DhcpOption>, pos: nat, codes: seq<byte>, c: byte)
    requires pos <= |opts|
    ensures var (opts', kept) := PickAll(opts, pos, codes);
            HasCode(opts'[..kept], c) <==> HasCode(opts[..pos], c) || (c in codes && HasCode(opts, c))
    decreases |codes|
  {
    if codes != [] {
      var (opts1, pos1) := Pick(opts, pos, codes[0]);
      PickStep(opts, pos, codes[0], c);
      PickAllKeepsWanted(opts1, pos1, codes[1..], c);
    }
  }

  lemma PickStep(opts: seq<DhcpOption>, pos: nat, d: byte, c: byte)
    requires pos <= |opts|
    ensures var (opts1, pos1) := Pick(opts, pos, d);
            && (HasCode(opts1, c) <==> HasCode(opts, c))
            && (HasCode(opts1[..pos1], c) <==> HasCode(opts[..pos], c) || (c == d && HasCode(opts, c)))
  {
    var (opts1, pos1) := Pick(opts, pos, d);
    match FindFrom(opts, pos, d)
    case None =>
      if c == d && HasCode(opts, c) {
        var i :| 0 <= i < |opts| && Code(opts[i]) == c;
        assert Code(opts[..pos][i]) == c;
      }
    case Some(k) =>
      assert forall i :: 0 <= i < |opts| && i != k && i != pos ==> opts1[i] == opts[i];
      assert opts1[pos] == opts[k] && opts1[k] == opts[pos];
      if HasCode(opts, c) {
        var i :| 0 <= i < |opts| && Code(opts[i]) == c;
        assert Code(opts1[if i == k then pos else if i == pos then k else i]) == c;
      }
      if HasCode(opts1, c) {
        var i :| 0 <= i < |opts| && Code(opts1[i]) == c;
        assert Code(opts[if i == k then pos else if i == pos then k else i]) == c;
      }
      assert opts1[..pos1] == opts[..pos] + [opts[k]];
      PrefixCode(opts[..pos], opts[k], c);
  }

  lemma PrefixCode(a: seq<DhcpOption>, o: DhcpOption, c: byte)
    ensures HasCode(a + [o], c) <==> HasCode(a, c) || Code(o) == c
  {
    if HasCode(a, c) {
      var i :| 0 <= i < |a| && Code(a[i]) == c;
      assert (a + [o])[i] == a[i];
    }
    if Code(o) == c {
      assert Code((a + [o])[|a|]) == c;
    }
  }

  /** Whatever the client asks for, an option is kept iff its code is asked for or mandatory. */
  lemma FilterKeeps(opts: seq<DhcpOption>, prl: seq<byte>, c: byte)
    ensures HasCode(Filtered(opts, prl), c) <==> HasCode(opts, c) && (c in prl || c in Mandatory())
  {
    PickAllKeepsWanted(opts, 0, prl + Mandatory(), c);
    assert c in prl + Mandatory() <==> c in prl || c in Mandatory();
  }

  // ----- With distinct codes: the reference -----

  predicate Distinct(opts: seq<DhcpOption>) {
    forall i, j :: 0 <= i < j < |opts| ==> Code(opts[i]) != Code(opts[j])
  }

  /** The options with the codes of `codes`, each at its first mention, leaving out `taken`. */
  function Wanted(opts: seq<DhcpOption>, codes: seq<byte>, taken: set<byte>): seq<DhcpOption> {
    if codes == [] then []
    else
      match FirstWithCode(opts, codes[0])
      case Some(o) =>
        if codes[0] in taken then Wanted(opts, codes[1..], taken)
        else [o] + Wanted(opts, codes[1..], taken + {codes[0]})
      case None => Wanted(opts, codes[1..], taken)
  }

  function CodesOf(opts: seq<DhcpOption>): set<byte> {
    set i | 0 <= i < |opts| :: Code(opts[i])
  }

  lemma {:induction false} LookupExact(opts: seq<DhcpOption>, c: byte)
    ensures match FirstWithCode(opts, c)
            case Some(o) => Code(o) == c && o in opts
            case None => forall i :: 0 <= i < |opts| ==> Code(opts[i]) != c
    ensures Distinct(opts) ==>
              forall i :: 0 <= i < |opts| && Code(opts[i]) == c ==> FirstWithCode(opts, c) == Some(opts[i])
  {
    if opts != [] {
      LookupExact(opts[1..], c);
      assert forall i :: 1 <= i < |opts| ==> opts[i] == opts[1..][i - 1];
      if Distinct(opts) {
        assert forall i :: 1 <= i < |opts| ==> Code(opts[i]) != Code(opts[0]);
      }
    }
  }

  lemma SwapKeepsLookup(opts: seq<DhcpOption>, i: nat, j: nat, c: byte)
    requires Distinct(opts) && i < |opts| && j < |opts|
    ensures Distinct(Swapped(opts, i, j))
    ensures FirstWithCode(Swapped(opts, i, j), c) == FirstWithCode(opts, c)
  {
    var s := Swapped(opts, i, j);
    SwapKeepsDistinct(opts, i, j);
    LookupExact(opts, c);
    LookupExact(s, c);
    if k :| 0 <= k < |opts| && Code(opts[k]) == c {
      var k' := if k == i then j else if k == j then i else k;
      assert s[k'] == opts[k];
    } else {
      assert forall k :: 0 <= k < |s| ==> s[k] == opts[if k == i then j else if k == j then i else k];
    }
  }

  lemma SwapKeepsDistinct(opts: seq<DhcpOption>, i: nat, j: nat)
    requires Distinct(opts) && i < |opts| && j < |opts|
    ensures Distinct(Swapped(opts, i, j))
  {
    var s := Swapped(opts, i, j);
    forall a, b | 0 <= a < b < |s|
      ensures Code(s[a]) != Code(s[b])
    {
      var a' := if a == i then j else if a == j then i else a;
      var b' := if b == i then j else if b == j then i else b;
      assert s[a] == opts[a'] && s[b] == opts[b'] && a' != b';
      if a' < b' {
        assert Code(opts[a']) != Code(opts[b']);
      } else {
        assert Code(opts[b']) != Code(opts[a']);
      }
    }
  }

  lemma {:induction false} SameLookups(a: seq<DhcpOption>, b: seq<DhcpOption>, codes: seq<byte>, taken: set<byte>)
    requires forall c :: c in codes ==> FirstWithCode(a, c) == FirstWithCode(b, c)
    ensures Wanted(a, codes, taken) == Wanted(b, codes, taken)
    decreases |codes|
  {
    if codes != [] {
      assert FirstWithCode(a, codes[0]) == FirstWithCode(b, codes[0]);
      SameLookups(a, b, codes[1..], taken);
      SameLookups(a, b, codes[1..], taken + {codes[0]});
    }
  }

  lemma PickKeepsLookups(opts: seq<DhcpOption>, pos: nat, c: byte)
    requires Distinct(opts) && pos <= |opts|
    ensures var opts' := Pick(opts, pos, c).0;
            Distinct(opts') && forall d :: FirstWithCode(opts', d) == FirstWithCode(opts, d)
  {
    match FindFrom(opts, pos, c)
    case None =>
    case Some(i) =>
      hide Distinct, FirstWithCode;
      forall d
        ensures FirstWithCode(Swapped(opts, i, pos), d) == FirstWithCode(opts, d)
      {
        SwapKeepsLookup(opts, i, pos, d);
      }
      SwapKeepsDistinct(opts, i, pos);
  }

  /** One pick against the reference: the option wanted first, if it is there and not taken. */
  lemma PickIsWanted(opts: seq<DhcpOption>, pos: nat, c: byte)
    requires Distinct(opts) && pos <= |opts|
    ensures var (opts', pos') := Pick(opts, pos, c);
            match FirstWithCode(opts, c)
            case Some(o) =>
              if c in CodesOf(opts[..pos]) then pos' == pos && opts' == opts
              else pos' == pos + 1 && opts'[..pos'] == opts[..pos] + [o]
                   && CodesOf(opts'[..pos']) == CodesOf(opts[..pos]) + {c}
            case None => pos' == pos && opts' == opts
  {
    hide FirstWithCode;
    LookupExact(opts, c);
    match FindFrom(opts, pos, c)
    case None =>
      if FirstWithCode(opts, c).Some? {
        var k :| 0 <= k < |opts| && opts[k] == FirstWithCode(opts, c).value;
        assert opts[..pos][k] == opts[k];
      }
    case Some(i) =>
      assert c !in CodesOf(opts[..pos]) by {
        assert forall k :: 0 <= k < pos ==> Code(opts[..pos][k]) == Code(opts[k]) != Code(opts[i]);
      }
      var opts' := Swapped(opts, i, pos);
      assert opts'[..pos + 1] == opts[..pos] + [opts[i]];
      CodesOfAppend(opts[..pos], opts[i]);
  }

  lemma CodesOfAppend(a: seq<DhcpOption>, o: DhcpOption)
    ensures CodesOf(a + [o]) == CodesOf(a) + {Code(o)}
  {
    var s := a + [o];
    forall c | c in CodesOf(a) + {Code(o)}
      ensures c in CodesOf(s)
    {
      if c in CodesOf(a) {
        var i :| 0 <= i < |a| && Code(a[i]) == c;
        assert Code(s[i]) == c;
      } else {
        assert Code(s[|a|]) == c;
      }
    }
  }

  lemma {:induction false} PickAllIsWanted(opts: seq<DhcpOption>, pos: nat, codes: seq<byte>)
    requires Distinct(opts) && pos <= |opts|
    ensures var (opts', kept) := PickAll(opts, pos, codes);
            && Distinct(opts')
            && opts'[..kept] == opts[..pos] + Wanted(opts, codes, CodesOf(opts[..pos]))
    decreases |codes|
  {
    if codes != [] {
      var (opts1, pos1) := Pick(opts, pos, codes[0]);
      PickIsWanted(opts, pos, codes[0]);
      PickKeepsLookups(opts, pos, codes[0]);
      PickAllIsWanted(opts1, pos1, codes[1..]);
      SameLookups(opts1, opts, codes[1..], CodesOf(opts1[..pos1]));
    }
  }

  /** With distinct codes the filter gives the wanted options, in the order of their first mention, each once. */
  lemma FilterIsWanted(opts: seq<DhcpOption>, prl: seq<byte>)
    requires Distinct(opts)
    ensures Filtered(opts, prl) == Wanted(opts, prl + Mandatory(), {})
    ensures Distinct(Filtered(opts, prl))
  {
    PickAllIsWanted(opts, 0, prl + Mandatory());
    assert CodesOf(opts[..0]) == {};
    var (opts', kept) := PickAll(opts, 0, prl + Mandatory());
    assert forall i :: 0 <= i < kept ==> opts'[..kept][i] == opts'[i];
  }

  /** A lookup of an asked-for or mandatory code gives the same option before and after the filter. */
  lemma FilterKeepsLookup(opts: seq<DhcpOption>, prl: seq<byte>, c: byte)
    requires Distinct(opts) && c in prl + Mandatory()
    ensures FirstWithCode(Filtered(opts, prl), c) == FirstWithCode(opts, c)
  {
    hide Filtered, FirstWithCode, Wanted, Mandatory;
    FilterIsWanted(opts, prl);
    FilterKeeps(opts, prl, c);
    LookupExact(opts, c);
    LookupExact(Filtered(opts, prl), c);
    FilteredComesFrom(opts, prl);
    if FirstWithCode(opts, c).Some? {
      var k :| 0 <= k < |opts| && opts[k] == FirstWithCode(opts, c).value;
      assert HasCode(opts, c);
    }
  }

  /** Filtering again changes nothing. */
  lemma FilterTwice(opts: seq<DhcpOption>, prl: seq<byte>)
    requires Distinct(opts)
    ensures Filtered(Filtered(opts, prl), prl) == Filtered(opts, prl)
  {
    hide FirstWithCode;
    var codes := prl + Mandatory();
    var once := Filtered(opts, prl);
    FilterIsWanted(opts, prl);
    FilterIsWanted(once, prl);
    forall c | c in codes
      ensures FirstWithCode(once, c) == FirstWithCode(opts, c)
    {
      FilterKeepsLookup(opts, prl, c);
    }
    SameLookups(once, opts, codes, {});
  }

  lemma FilteredComesFrom(opts: seq<DhcpOption>, prl: seq<byte>)
    ensures forall o :: o in Filtered(opts, prl) ==> o in opts
    ensures multiset(Filtered(opts, prl)) <= multiset(opts)
  {
    PickAllPermutes(opts, 0, prl + Mandatory());
    var (opts', kept) := PickAll(opts, 0, prl + Mandatory());
    assert opts' == opts'[..kept] + opts'[kept..];
    forall o | o in Filtered(opts, prl)
      ensures o in opts
    {
      assert o in multiset(opts');
    }
  }

  // ----- The two in-place implementations -----

  lemma {:induction false} PickAllSplits(opts: seq<DhcpOption>, pos: nat, a: seq<byte>, b: seq<byte>)
    requires pos <= |opts|
    ensures var (opts1, pos1) := PickAll(opts, pos, a);
            PickAll(opts, pos, a + b) == PickAll(opts1, pos1, b)
    decreases |a|
  {
    if a == [] {
      assert a + b == b;
    } else {
      assert (a + b)[1..] == a[1..] + b;
      var (opts1, pos1) := Pick(opts, pos, a[0]);
      PickAllSplits(opts1, pos1, a[1..], b);
    }
  }

  lemma SwapNothing<T>(s: seq<T>, i: nat)
    requires i < |s|
    ensures Swapped(s, i, i) == s
  {
  }

  method SwapAt<T>(a: array<T>, i: nat, j: nat)
    requires i < a.Length && j < a.Length
    modifies a
    ensures a[..] == Swapped(old(a[..]), i, j)
  {
    a[i], a[j] := a[j], a[i];
  }

  method SearchOptions(opts: array<DhcpOption>, pos: nat, c: byte) returns (found: Option<nat>)
    requires pos <= opts.Length
    ensures found == FindFrom(opts[..], pos, c)
  {
    for i := pos to opts.Length
      invariant FindFrom(opts[..], pos, c) == FindFrom(opts[..], i, c)
    {
      if Code(opts[i]) == c {
        return Some(i);
      }
    }
    found := None;
  }

  /** The same search over cached codes. */
  method SearchCodes(
      ghost opts: seq<DhcpOption>, codes: array<byte>, pos: nat, n: nat, c: byte) returns (found: Option<nat>)
    requires pos <= n <= codes.Length && n == |opts|
    requires forall i :: 0 <= i < n ==> codes[i] == Code(opts[i])
    ensures found == FindFrom(opts, pos, c)
  {
    for i := pos to n
      invariant FindFrom(opts, pos, c) == FindFrom(opts, i, c)
    {
      if codes[i] == c {
        return Some(i);
      }
    }
    found := None;
  }

  /** Pick the codes of `wanted` in turn, searching the options themselves. */
  method PickSlow(opts: array<DhcpOption>, wanted: seq<byte>, from: nat) returns (pos: nat)
    requires from <= opts.Length
    modifies opts
    ensures pos <= opts.Length && (opts[..], pos) == PickAll(old(opts[..]), from, wanted)
  {
    hide FindFrom, Swapped;
    pos := from;
    for k := 0 to |wanted|
      invariant pos <= opts.Length
      invariant PickAll(opts[..], pos, wanted[k..]) == PickAll(old(opts[..]), from, wanted)
    {
      assert wanted[k..][1..] == wanted[k + 1..];
      var found := SearchOptions(opts, pos, wanted[k]);
      if found.Some? {
        if found.value != pos {
          SwapAt(opts, found.value, pos);
        } else {
          SwapNothing(opts[..], pos);
        }
        pos := pos + 1;
      }
    }
  }

  /** The same, searching the cached codes and swapping them in lockstep. */
  method PickFast(opts: array<DhcpOption>, codes: array<byte>, wanted: seq<byte>, from: nat) returns (pos: nat)
    requires from <= opts.Length <= codes.Length
    requires forall i :: 0 <= i < opts.Length ==> codes[i] == Code(opts[i])
    modifies opts, codes
    ensures pos <= opts.Length && (opts[..], pos) == PickAll(old(opts[..]), from, wanted)
    ensures forall i :: 0 <= i < opts.Length ==> codes[i] == Code(opts[i])
  {
    hide FindFrom;
    pos := from;
    for k := 0 to |wanted|
      invariant pos <= opts.Length
      invariant forall i :: 0 <= i < opts.Length ==> codes[i] == Code(opts[i])
      invariant PickAll(opts[..], pos, wanted[k..]) == PickAll(old(opts[..]), from, wanted)
    {
      assert wanted[k..][1..] == wanted[k + 1..];
      var found := SearchCodes(opts[..], codes, pos, opts.Length, wanted[k]);
      if found.Some? {
        if found.value != pos {
          SwapBoth(opts, codes, found.value, pos);
        } else {
          SwapNothing(opts[..], pos);
        }
        pos := pos + 1;
      }
    }
  }

  method SwapBoth(opts: array<DhcpOption>, codes: array<byte>, i: nat, j: nat)
    requires i < opts.Length <= codes.Length && j < opts.Length
    requires forall k :: 0 <= k < opts.Length ==> codes[k] == Code(opts[k])
    modifies opts, codes
    ensures opts[..] == Swapped(old(opts[..]), i, j)
    ensures forall k :: 0 <= k < opts.Length ==> codes[k] == Code(opts[k])
  {
    opts[i], opts[j] := opts[j], opts[i];
    codes[i], codes[j] := codes[j], codes[i];
  }

  method FilterSlow(opts: array<DhcpOption>, prl: seq<byte>) returns (kept: nat)
    modifies opts
    ensures kept <= opts.Length && (opts[..], kept) == PickAll(old(opts[..]), 0, prl + Mandatory())
  {
    PickAllSplits(opts[..], 0, prl, Mandatory());
    kept := PickSlow(opts, prl, 0);
    kept := PickSlow(opts, Mandatory(), kept);
  }

  /** Lists of up to 64 options use cached codes, longer ones the slow search, with the same result. */
  method FilterByReq(opts: array<DhcpOption>, prl: seq<byte>) returns (kept: nat)
    modifies opts
    ensures kept <= opts.Length && (opts[..], kept) == PickAll(old(opts[..]), 0, prl + Mandatory())
    ensures opts[..kept] == Filtered(old(opts[..]), prl)
  {
    hide PickAll, Mandatory;
    ghost var whole := PickAll(opts[..], 0, prl + Mandatory());
    assert whole.0[..whole.1] == Filtered(opts[..], prl);
    if opts.Length == 0 {
      assert |PickAll(opts[..], 0, prl + Mandatory()).0| == 0;
      return 0;
    }
    if opts.Length > 64 {
      kept := FilterSlow(opts, prl);
      return;
    }
    var codes := new byte[64](_ => 0);
    for i := 0 to opts.Length
      invariant opts[..] == old(opts[..])
      invariant forall j :: 0 <= j < i ==> codes[j] == Code(opts[j])
    {
      codes[i] := Code(opts[i]);
    }
    PickAllSplits(opts[..], 0, prl, Mandatory());
    kept := PickFast(opts, codes, prl, 0);
    kept := PickFast(opts, codes, Mandatory(), kept);
  }
}
