/**
 The cursor both lease tables allocate with: a position `last` in `[0, count)` that moves
 to the cyclically next free offset at each offer.

 `IsNext` says what the next free offset is without mentioning the scan that looks for it;
 the fairness theorem is proved from `IsNext` by counting, for each free offset, how many
 free offsets are at or below it.
 */
module RoundRobin {
  /** `n` is the cyclically first member of `free` strictly after `last` (`last` itself comes last). */
  ghost predicate IsNext(free: set<nat>, last: nat, n: nat) {
    && n in free
    && if last < n
       then forall y :: y in free && last < y ==> n <= y
       else forall y :: y in free ==> n <= y <= last
  }

  /** The least member of `s`, searched upwards from `k`; `x` bounds the search. */
  ghost function LeastFrom(s: set<nat>, x: nat, k: nat): (n: nat)
    requires x in s && k <= x && forall y :: y in s ==> k <= y
    ensures n in s && forall y :: y in s ==> n <= y
    decreases x - k
  {
    if k in s then k else LeastFrom(s, x, k + 1)
  }

  ghost function Least(s: set<nat>): (n: nat)
    requires s != {}
    ensures n in s && forall y :: y in s ==> n <= y
  {
    var x :| x in s;
    LeastFrom(s, x, 0)
  }

  lemma NextExists(free: set<nat>, last: nat)
    requires free != {}
    ensures exists n :: IsNext(free, last, n)
  {
    var above := set y: nat | y in free && last < y;
    if above != {} {
      assert forall y :: y in free && last < y ==> y in above;
      assert IsNext(free, last, Least(above));
    } else {
      assert forall y: nat :: y in free && last < y ==> y in above;
      assert IsNext(free, last, Least(free));
    }
  }

  ghost function Next(free: set<nat>, last: nat): (n: nat)
    requires free != {}
    ensures IsNext(free, last, n)
  {
    NextExists(free, last);
    var n :| IsNext(free, last, n);
    n
  }

  /** Offset `y` is one of the `j` offsets that cyclically follow `last`. */
  predicate Visited(count: nat, last: nat, j: nat, y: nat) {
    last < y <= last + j || y + count <= last + j
  }

  /** The cursor after `j` steps of the scan. */
  function After(count: nat, last: nat, j: nat): (r: nat)
    requires last < count && j <= count
    ensures r < count
  {
    if last + j < count then last + j else last + j - count
  }

  /** Advancing the cursor with a modulus and counting steps from `last` agree. */
  lemma AfterStep(count: nat, last: nat, j: nat)
    requires last < count && j < count
    ensures (After(count, last, j) + 1) % count == After(count, last, j + 1)
  {
    var next := After(count, last, j) + 1;
    if next == count {
      assert next % count == 0;
    } else {
      assert next % count == next;
    }
  }

  /** A scan whose first `j` probes found nothing and whose next one hits has found `Next`. */
  lemma ScanHit(free: set<nat>, count: nat, last: nat, j: nat)
    requires last < count && j < count
    requires forall y :: y in free ==> y < count && !Visited(count, last, j, y)
    requires After(count, last, j + 1) in free
    ensures IsNext(free, last, After(count, last, j + 1))
    ensures Next(free, last) == After(count, last, j + 1)
  {
    NextIsUnique(free, last, After(count, last, j + 1), Next(free, last));
  }

  lemma NextIsUnique(free: set<nat>, last: nat, m: nat, n: nat)
    requires IsNext(free, last, m) && IsNext(free, last, n)
    ensures m == n
  {
  }

  // ----- Fairness -----

  /** The members of `free` at or below `x`. */
  ghost function UpTo(free: set<nat>, x: nat): set<nat> {
    set y: nat | y in free && y <= x
  }

  ghost function Rank(free: set<nat>, x: nat): nat {
    |UpTo(free, x)|
  }

  lemma SubsetSize<T>(s: set<T>, t: set<T>)
    requires s <= t
    ensures |s| <= |t|
    ensures |s| == |t| ==> s == t
  {
    assert t == s + (t - s);
  }

  lemma RankOfNext(free: set<nat>, last: nat)
    requires last in free
    ensures 1 <= Rank(free, last) <= |free|
    ensures Rank(free, Next(free, last)) == if Rank(free, last) == |free| then 1 else Rank(free, last) + 1
  {
    var n := Next(free, last);
    assert last in UpTo(free, last);
    SubsetSize({last}, UpTo(free, last));
    SubsetSize(UpTo(free, last), free);
    if last < n {
      assert UpTo(free, n) == UpTo(free, last) + {n};
      assert n !in UpTo(free, last) && n in free;
    } else {
      assert UpTo(free, n) == {n};
      assert UpTo(free, last) == free;
    }
  }

  lemma RankGrows(free: set<nat>, x: nat, y: nat)
    requires y in free && x < y
    ensures Rank(free, x) < Rank(free, y)
  {
    SubsetSize(UpTo(free, x), UpTo(free, y));
    assert y in UpTo(free, y) && y !in UpTo(free, x);
  }

  /** Consecutive cursor positions of offers made while exactly `free` is available. */
  ghost predicate Orbit(free: set<nat>, s: seq<nat>) {
    free != {} && forall i :: 0 <= i < |s| - 1 ==> s[i + 1] == Next(free, s[i])
  }

  lemma {:induction false} RankAlongOrbit(free: set<nat>, s: seq<nat>, i: nat, j: nat)
    requires Orbit(free, s) && i + j < |s| && s[i] in free && j <= |free|
    ensures s[i + j] in free
    ensures Rank(free, s[i + j]) ==
            if Rank(free, s[i]) + j <= |free| then Rank(free, s[i]) + j else Rank(free, s[i]) + j - |free|
    decreases j
  {
    RankOfNext(free, s[i]);
    if j > 0 {
      RankAlongOrbit(free, s, i, j - 1);
      RankOfNext(free, s[i + j - 1]);
      assert s[i + (j - 1) + 1] == Next(free, s[i + (j - 1)]);
    }
  }

  ghost function Elements(w: seq<nat>): set<nat> {
    set x: nat | x in w
  }

  lemma {:induction false} DistinctSize(w: seq<nat>)
    requires forall i, j :: 0 <= i < j < |w| ==> w[i] != w[j]
    ensures |Elements(w)| == |w|
  {
    if w == [] {
      assert Elements(w) == {};
    } else {
      var front := w[..|w| - 1];
      DistinctSize(front);
      assert w == front + [w[|w| - 1]];
      assert Elements(w) == Elements(front) + {w[|w| - 1]};
    }
  }

  /** Any `|free|` consecutive offers are all of `free`, each once, and the offers repeat after that. */
  lemma Fairness(free: set<nat>, s: seq<nat>, i: nat)
    requires Orbit(free, s) && i + |free| <= |s| && s[i] in free
    ensures Elements(s[i..i + |free|]) == free
    ensures forall j, k :: i <= j < k < i + |free| ==> s[j] != s[k]
    ensures i + |free| < |s| ==> s[i + |free|] == s[i]
  {
    var w := s[i..i + |free|];
    forall j | 0 <= j < |w|
      ensures w[j] in free
    {
      RankAlongOrbit(free, s, i, j);
    }
    forall j, k | i <= j < k < i + |free|
      ensures s[j] != s[k]
    {
      DistinctOnOrbit(free, s, i, j, k);
    }
    forall j, k | 0 <= j < k < |w|
      ensures w[j] != w[k]
    {
      assert s[i + j] != s[i + k];
    }
    DistinctSize(w);
    SubsetSize(Elements(w), free);
    if i + |free| < |s| {
      RankOfNext(free, s[i]);
      RankAlongOrbit(free, s, i, |free|);
      if s[i] < s[i + |free|] {
        RankGrows(free, s[i], s[i + |free|]);
      } else if s[i + |free|] < s[i] {
        RankGrows(free, s[i + |free|], s[i]);
      }
    }
  }

  lemma DistinctOnOrbit(free: set<nat>, s: seq<nat>, i: nat, j: nat, k: nat)
    requires Orbit(free, s) && i <= j < k < i + |free| <= |s| && s[i] in free
    ensures s[j] != s[k]
  {
    RankOfNext(free, s[i]);
    RankAlongOrbit(free, s, i, j - i);
    RankAlongOrbit(free, s, i, k - i);
  }

  // ----- Fairness over a run -----

  /**
   `lasts` are the cursors of a run and `given` the address each step gives, if any. Step `i` is an
   offer iff `offers[i]`; only offers move the cursor, and an offer gives the address under it.
   */
  ghost predicate OfferRun(free: set<nat>, start: nat, lasts: seq<nat>, offers: seq<bool>, given: seq<nat>) {
    && free != {}
    && |lasts| == |offers| + 1 && |given| == |offers|
    && (forall i :: 0 <= i < |offers| ==> lasts[i + 1] == if offers[i] then Next(free, lasts[i]) else lasts[i])
    && (forall i :: 0 <= i < |offers| && offers[i] ==> given[i] == start + lasts[i + 1])
  }

  /** What the offers of a run give, in order. */
  ghost function Offered(given: seq<nat>, offers: seq<bool>): seq<nat>
    requires |given| == |offers|
  {
    if offers == [] then []
    else
      var n := |offers| - 1;
      Offered(given[..n], offers[..n]) + if offers[n] then [given[n]] else []
  }

  ghost function Addresses(free: set<nat>, start: nat): set<nat> {
    set o: nat | o in free :: start + o
  }

  /** The offers of a run are an orbit, seen from the start of the range. */
  lemma {:induction false} OfferedIsOrbit(
      free: set<nat>, start: nat, lasts: seq<nat>, offers: seq<bool>, given: seq<nat>) returns (o: seq<nat>)
    requires OfferRun(free, start, lasts, offers, given)
    ensures Orbit(free, o) && (forall i :: 0 <= i < |o| ==> o[i] in free)
    ensures o != [] ==> o[|o| - 1] == lasts[|offers|]
    ensures var w := Offered(given, offers); |w| == |o| && forall i :: 0 <= i < |o| ==> w[i] == start + o[i]
  {
    hide Next;
    o := [];
    if offers != [] {
      var n := |offers| - 1;
      o := OfferedIsOrbit(free, start, lasts[..n + 1], offers[..n], given[..n]);
      assert lasts[n + 1] == if offers[n] then Next(free, lasts[n]) else lasts[n];
      if offers[n] {
        NextIsFree(free, lasts[n]);
        ExtendOrbit(free, o, lasts[n]);
        o := o + [lasts[n + 1]];
      }
    }
  }

  lemma NextIsFree(free: set<nat>, last: nat)
    requires free != {}
    ensures Next(free, last) in free
  {
  }

  lemma ExtendOrbit(free: set<nat>, o: seq<nat>, last: nat)
    requires Orbit(free, o) && (o != [] ==> o[|o| - 1] == last)
    ensures Orbit(free, o + [Next(free, last)])
  {
    hide Next;
  }

  /**
   While the set of available offsets stays `free`, any `|free|` consecutive offers of a run
   give every available address exactly once, and the next offer repeats the first of them.
   */
  lemma FairRun(free: set<nat>, start: nat, lasts: seq<nat>, offers: seq<bool>, given: seq<nat>, i: nat)
    requires OfferRun(free, start, lasts, offers, given)
    requires i + |free| <= |Offered(given, offers)|
    ensures var w := Offered(given, offers);
            && Elements(w[i..i + |free|]) == Addresses(free, start)
            && (forall j, k :: i <= j < k < i + |free| ==> w[j] != w[k])
            && (i + |free| < |w| ==> w[i + |free|] == w[i])
  {
    hide Orbit, Next, Elements, Addresses, Offered;
    var o := OfferedIsOrbit(free, start, lasts, offers, given);
    FreeIsSome(free, start, lasts, offers, given);
    Fairness(free, o, i);
    var w := Offered(given, offers);
    ShiftedElements(o[i..i + |free|], w[i..i + |free|], start);
  }

  lemma FreeIsSome(free: set<nat>, start: nat, lasts: seq<nat>, offers: seq<bool>, given: seq<nat>)
    requires OfferRun(free, start, lasts, offers, given)
    ensures |free| > 0
  {
    var x :| x in free;
    SubsetSize({x}, free);
  }

  lemma ShiftedElements(o: seq<nat>, w: seq<nat>, start: nat)
    requires |o| == |w| && forall i :: 0 <= i < |o| ==> w[i] == start + o[i]
    ensures Elements(w) == Addresses(Elements(o), start)
  {
    forall a | a in Addresses(Elements(o), start)
      ensures a in w
    {
      var y :| y in o && a == start + y;
      var i :| 0 <= i < |o| && o[i] == y;
      assert w[i] == a;
    }
    forall a | a in w
      ensures a in Addresses(Elements(o), start)
    {
      var i :| 0 <= i < |w| && w[i] == a;
      assert o[i] in Elements(o);
    }
  }
}
