/**
 The storage both lease tables share: a dense slot array for the managed range, a hash
 table for everything else, a counter of filled slots, and a reverse index from clients to
 addresses that is only a hint.

 `Store` is the value of those fields at one moment; `Represents` ties it to the one finite
 map it stands for, and the lemmas say how each update of the fields moves that map.
 */
module SlotStore {
  import opened Wrappers
  import opened Leases

  /**
   `slotted` is how many addresses from `start` on live in slots: the whole range, or none
   when the range leaves the address space or the pool is hash-only.
   `order` is the order in which an iteration over the hash table meets its keys.
   */
  datatype Store<C, L> = Store(
    start: nat,
    slotted: nat,
    slots: seq<Option<L>>,
    filled: nat,
    overflow: map<nat, L>,
    order: seq<nat>,
    index: map<C, nat>)

  predicate InSlots<C, L>(s: Store<C, L>, a: nat) {
    s.start <= a < s.start + s.slotted
  }

  function Stored<C, L>(s: Store<C, L>, a: nat): Option<L>
    requires s.slotted <= |s.slots|
  {
    if InSlots(s, a) then s.slots[a - s.start]
    else if a in s.overflow then Some(s.overflow[a])
    else None
  }

  ghost function Occupied<L>(slots: seq<Option<L>>): set<nat> {
    set i: nat | i < |slots| && slots[i].Some?
  }

  ghost predicate IsOrder<L>(order: seq<nat>, overflow: map<nat, L>) {
    forall a :: a in order <==> a in overflow
  }

  ghost predicate Shaped<C, L>(s: Store<C, L>) {
    && s.slotted <= |s.slots|
    && (forall i :: s.slotted <= i < |s.slots| ==> s.slots[i] == None)
    && (forall a :: a in s.overflow ==> !InSlots(s, a))
    && IsOrder(s.order, s.overflow)
  }

  ghost predicate Counted<C, L>(s: Store<C, L>, size: nat) {
    && s.filled == |Occupied(s.slots)|
    && size == s.filled + |s.overflow|
  }

  ghost predicate Denotes<C, L>(s: Store<C, L>, m: map<nat, L>)
    requires s.slotted <= |s.slots|
  {
    forall a: nat :: Stored(s, a) == if a in m then Some(m[a]) else None
  }

  /** The fields stand for the map `m`, no address is in both parts, and the counts are right. */
  ghost predicate Represents<C, L>(s: Store<C, L>, m: map<nat, L>) {
    Shaped(s) && Denotes(s, m) && Counted(s, |m|)
  }

  // ----- The lookup of a client's current lease -----

  /** The first slot at or after `k` that belongs to `c`. */
  ghost function FirstSlot<C, X>(slots: seq<Option<Lease<C, X>>>, c: C, k: nat): (r: Option<nat>)
    requires k <= |slots|
    ensures r.Some? ==> k <= r.value < |slots| && slots[r.value].Some? && slots[r.value].value.client == c
    ensures r.None? ==> forall i :: k <= i < |slots| && slots[i].Some? ==> slots[i].value.client != c
    decreases |slots| - k
  {
    if k == |slots| then None
    else if slots[k].Some? && slots[k].value.client == c then Some(k)
    else FirstSlot(slots, c, k + 1)
  }

  /** The first key of the hash table, in iteration order from `k` on, that belongs to `c`. */
  ghost function FirstListed<C, X>(order: seq<nat>, overflow: map<nat, Lease<C, X>>, c: C, k: nat): (r: Option<nat>)
    requires k <= |order| && forall a :: a in order ==> a in overflow
    ensures r.Some? ==> r.value in overflow && overflow[r.value].client == c
    ensures r.None? ==> forall i :: k <= i < |order| ==> overflow[order[i]].client != c
    decreases |order| - k
  {
    if k == |order| then None
    else if overflow[order[k]].client == c then Some(order[k])
    else FirstListed(order, overflow, c, k + 1)
  }

  /** What a full scan, slots first, finds for `c`. */
  ghost function ScanFor<C, X>(s: Store<C, Lease<C, X>>, c: C): Option<nat>
    requires IsOrder(s.order, s.overflow)
  {
    match FirstSlot(s.slots, c, 0)
    case Some(i) => Some(s.start + i)
    case None => FirstListed(s.order, s.overflow, c, 0)
  }

  ghost predicate HintIsGood<C, X>(s: Store<C, Lease<C, X>>, c: C)
    requires s.slotted <= |s.slots|
  {
    c in s.index && Stored(s, s.index[c]).Some? && Stored(s, s.index[c]).value.client == c
  }

  /** The current lease of `c`: nothing in an empty table, else the hint if it checks out, else the scan. */
  ghost function Current<C, X>(s: Store<C, Lease<C, X>>, c: C): Option<nat>
    requires s.slotted <= |s.slots| && IsOrder(s.order, s.overflow)
  {
    if s.filled == 0 && s.overflow == map[] then None
    else if HintIsGood(s, c) then Some(s.index[c])
    else ScanFor(s, c)
  }

  lemma ScanIsExact<C, X>(s: Store<C, Lease<C, X>>, m: map<nat, Lease<C, X>>, c: C)
    requires Represents(s, m)
    ensures IsCurrent(m, c, ScanFor(s, c))
  {
    match FirstSlot(s.slots, c, 0)
    case Some(i) =>
      assert Stored(s, s.start + i) == s.slots[i];
    case None =>
      match FirstListed(s.order, s.overflow, c, 0)
      case Some(a) =>
        assert Stored(s, a) == Some(s.overflow[a]);
      case None =>
        forall a | a in m
          ensures m[a].client != c
        {
          assert Stored(s, a) == Some(m[a]);
          if !InSlots(s, a) {
            assert a in s.order;
          }
        }
  }

  /**
   However stale the index, the lookup is exact: a lease the client holds, or None iff it holds none;
   and it is the one the index names, if that checks out.
   */
  lemma CurrentIsExact<C, X>(s: Store<C, Lease<C, X>>, m: map<nat, Lease<C, X>>, c: C)
    requires Represents(s, m)
    ensures IsCurrent(m, c, Current(s, c))
    ensures c in s.index && Holds(m, c, s.index[c]) ==> Current(s, c) == Some(s.index[c])
  {
    if s.filled == 0 && s.overflow == map[] {
      assert m == map[];
    } else if HintIsGood(s, c) {
      assert Stored(s, s.index[c]).Some?;
    } else {
      ScanIsExact(s, m, c);
      assert c in s.index ==> Stored(s, s.index[c]) == if s.index[c] in m then Some(m[s.index[c]]) else None;
    }
  }

  // ----- Updates -----

  ghost function WithSlot<C, L>(s: Store<C, L>, a: nat, l: L): Store<C, L>
    requires s.slotted <= |s.slots| && InSlots(s, a)
  {
    var i := a - s.start;
    s.(slots := s.slots[i := Some(l)], filled := if s.slots[i].None? then s.filled + 1 else s.filled)
  }

  ghost function WithoutSlot<C, L>(s: Store<C, L>, a: nat): Store<C, L>
    requires s.slotted <= |s.slots| && InSlots(s, a) && s.filled > 0
  {
    s.(slots := s.slots[a - s.start := None], filled := s.filled - 1)
  }

  ghost function WithListed<C, L>(s: Store<C, L>, a: nat, l: L, order': seq<nat>): Store<C, L> {
    s.(overflow := s.overflow[a := l], order := order')
  }

  ghost function WithoutListed<C, L>(s: Store<C, L>, a: nat, order': seq<nat>): Store<C, L> {
    s.(overflow := s.overflow - {a}, order := order')
  }

  lemma MapSize<L>(m: map<nat, L>, a: nat, l: L)
    ensures |m[a := l]| == if a in m then |m| else |m| + 1
    ensures a in m ==> |m - {a}| == |m| - 1
  {
    assert m[a := l].Keys == m.Keys + {a} && (m - {a}).Keys == m.Keys - {a};
    assert |m[a := l]| == |m[a := l].Keys| && |m - {a}| == |(m - {a}).Keys| && |m| == |m.Keys|;
  }

  lemma OccupiedPut<L>(slots: seq<Option<L>>, i: nat, l: Option<L>)
    requires i < |slots|
    ensures slots[i].Some? ==> |Occupied(slots)| > 0
    ensures |Occupied(slots[i := l])| ==
            |Occupied(slots)| + (if l.Some? then 1 else 0) - (if slots[i].Some? then 1 else 0)
  {
    var others := Occupied(slots) - {i};
    assert Occupied(slots) == if slots[i].Some? then others + {i} else others;
    assert Occupied(slots[i := l]) == if l.Some? then others + {i} else others;
  }

  lemma SlotPutCounts<C, L>(s: Store<C, L>, m: map<nat, L>, a: nat, l: L)
    requires Shaped(s) && InSlots(s, a) && Counted(s, |m|) && (a in m <==> Stored(s, a).Some?)
    ensures Counted(WithSlot(s, a, l), |m[a := l]|)
  {
    OccupiedPut(s.slots, a - s.start, Some(l));
    MapSize(m, a, l);
  }

  lemma SlotPutDenotes<C, L>(s: Store<C, L>, m: map<nat, L>, a: nat, l: L)
    requires Shaped(s) && InSlots(s, a) && Denotes(s, m)
    ensures Shaped(WithSlot(s, a, l)) && Denotes(WithSlot(s, a, l), m[a := l])
    ensures a in m <==> Stored(s, a).Some?
  {
  }

  lemma PutSlot<C, L>(s: Store<C, L>, m: map<nat, L>, a: nat, l: L)
    requires Represents(s, m) && InSlots(s, a)
    ensures Represents(WithSlot(s, a, l), m[a := l])
  {
    SlotPutDenotes(s, m, a, l);
    SlotPutCounts(s, m, a, l);
  }

  lemma SlotClearCounts<C, L>(s: Store<C, L>, size: nat, a: nat)
    requires s.slotted <= |s.slots| && InSlots(s, a) && Counted(s, size) && Stored(s, a).Some?
    ensures s.slots[a - s.start].Some? && s.filled > 0 && size > 0
    ensures Counted(WithoutSlot(s, a), size - 1)
  {
    OccupiedPut(s.slots, a - s.start, None);
  }

  lemma SlotClearDenotes<C, L>(s: Store<C, L>, m: map<nat, L>, a: nat)
    requires Shaped(s) && InSlots(s, a) && a in m && Denotes(s, m) && s.filled > 0
    ensures Shaped(WithoutSlot(s, a)) && Denotes(WithoutSlot(s, a), m - {a})
  {
  }

  lemma ClearSlot<C, L>(s: Store<C, L>, m: map<nat, L>, a: nat)
    requires Represents(s, m) && InSlots(s, a) && a in m
    ensures s.slots[a - s.start].Some? && s.filled > 0
    ensures Represents(WithoutSlot(s, a), m - {a})
  {
    assert Stored(s, a) == Some(m[a]);
    SlotClearCounts(s, |m|, a);
    SlotClearDenotes(s, m, a);
    MapSize(m, a, m[a]);
  }

  lemma ListedPutCounts<C, L>(s: Store<C, L>, m: map<nat, L>, a: nat, l: L, order': seq<nat>)
    requires Counted(s, |m|) && (a in m <==> a in s.overflow)
    ensures Counted(WithListed(s, a, l, order'), |m[a := l]|)
  {
    MapSize(m, a, l);
    MapSize(s.overflow, a, l);
  }

  lemma ListedPutDenotes<C, L>(s: Store<C, L>, m: map<nat, L>, a: nat, l: L, order': seq<nat>)
    requires Shaped(s) && !InSlots(s, a) && Denotes(s, m) && IsOrder(order', s.overflow[a := l])
    ensures Shaped(WithListed(s, a, l, order')) && Denotes(WithListed(s, a, l, order'), m[a := l])
    ensures a in m <==> a in s.overflow
  {
    assert Stored(s, a) == if a in m then Some(m[a]) else None;
  }

  lemma PutListed<C, L>(s: Store<C, L>, m: map<nat, L>, a: nat, l: L, order': seq<nat>)
    requires Represents(s, m) && !InSlots(s, a) && IsOrder(order', s.overflow[a := l])
    ensures Represents(WithListed(s, a, l, order'), m[a := l])
  {
    ListedPutDenotes(s, m, a, l, order');
    ListedPutCounts(s, m, a, l, order');
  }

  lemma ListedDropCounts<C, L>(s: Store<C, L>, m: map<nat, L>, a: nat, order': seq<nat>)
    requires Counted(s, |m|) && a in m && a in s.overflow
    ensures Counted(WithoutListed(s, a, order'), |m - {a}|)
  {
    MapSize(m, a, m[a]);
    MapSize(s.overflow, a, m[a]);
  }

  lemma ListedDropDenotes<C, L>(s: Store<C, L>, m: map<nat, L>, a: nat, order': seq<nat>)
    requires Shaped(s) && !InSlots(s, a) && a in m && Denotes(s, m) && IsOrder(order', s.overflow - {a})
    ensures Shaped(WithoutListed(s, a, order')) && Denotes(WithoutListed(s, a, order'), m - {a})
    ensures a in s.overflow
  {
    assert Stored(s, a) == Some(m[a]);
  }

  lemma DropListed<C, L>(s: Store<C, L>, m: map<nat, L>, a: nat, order': seq<nat>)
    requires Represents(s, m) && !InSlots(s, a) && a in m && IsOrder(order', s.overflow - {a})
    ensures a in s.overflow
    ensures Represents(WithoutListed(s, a, order'), m - {a})
  {
    ListedDropDenotes(s, m, a, order');
    ListedDropCounts(s, m, a, order');
  }

  lemma IndexIsFree<C, L>(s: Store<C, L>, m: map<nat, L>, index': map<C, nat>)
    requires Represents(s, m)
    ensures Represents(s.(index := index'), m)
  {
    forall b: nat
      ensures Stored(s.(index := index'), b) == Stored(s, b)
    {
    }
  }

  /** The table with nothing in it. */
  lemma EmptyStore<C, L>(s: Store<C, L>)
    requires s.slotted <= |s.slots| && forall i :: 0 <= i < |s.slots| ==> s.slots[i] == None
    requires s.filled == 0 && s.overflow == map[] && s.order == []
    ensures Represents(s, map[])
  {
    assert Occupied(s.slots) == {};
  }

  // ----- The index -----

  /** The index after a lease at `a` goes to `c`: a hint of the previous holder for `a` is dropped. */
  function IndexAfterInsert<C(==), X>(m: map<nat, Lease<C, X>>, index: map<C, nat>, a: nat, c: C): map<C, nat> {
    var kept :=
      if a in m && m[a].client != c && m[a].client in index && index[m[a].client] == a
      then index - {m[a].client}
      else index;
    kept[c := a]
  }

  /** The index after `c` gives up the lease at `a`; `other` is another address it holds, if any. */
  function IndexAfterRemove<C(==)>(index: map<C, nat>, c: C, a: nat, other: Option<nat>): map<C, nat> {
    if c in index && index[c] == a
    then match other case Some(b) => index[c := b] case None => index - {c}
    else index
  }

  // ----- Iteration order of the hash table -----

  // A hash table may list its keys in any order, and the order may change at every update;
  // between updates it stays. Callers learn from these two methods only that the new order
  // lists the new keys.

  method OrderWith<L>(order: seq<nat>, ghost overflow: map<nat, L>, a: nat, ghost l: L) returns (order': seq<nat>)
    requires IsOrder(order, overflow)
    ensures IsOrder(order', overflow[a := l])
  {
    order' := if a in order then order else [a] + order;
  }

  method OrderWithout<L>(order: seq<nat>, ghost overflow: map<nat, L>, a: nat) returns (order': seq<nat>)
    requires IsOrder(order, overflow) && a in overflow
    ensures IsOrder(order', overflow - {a})
  {
    order' := [];
    for k := 0 to |order|
      invariant forall b :: b in order' <==> b in order[..k] && b != a
    {
      order' := if order[k] == a then order' else order' + [order[k]];
    }
  }
}
