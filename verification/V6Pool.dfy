/**
 The DHCPv6 address allocator: one managed range, leases keyed by client DUID, and
 reservations that may lie outside the range.

 The class keeps the fields of the original; every method is specified by what it does to the
 one finite map from addresses to leases (`leases`) and to the round-robin cursor.
 */
module DhcpV6Pool {
  import opened Wrappers
  import opened Bytes
  import opened RoundRobin
  import opened Leases
  import opened SlotStore

  type Duid = seq<byte>
  type Addr6 = u128
  type Lease6 = Lease<Duid, ()>
  type Table6 = Table<Duid, ()>

  datatype PoolError = NotAvailable

  const ADDRESS_SPACE: nat := 0x1_0000_0000_0000_0000_0000_0000_0000_0000

  // ----- What the operations do to the map -----

  function InsertSpec(t: Table6, addr: nat, duid: Duid, expiry: Option<Time>): Table6 {
    t.(leases := t.leases[addr := Lease(duid, expiry, ())])
  }

  /** Commit `addr`: a current lease wins unchanged, else the address is taken if available. */
  ghost function RequestSpec(p: Policy, duration: nat, t: Table6, cur: Option<nat>, duid: Duid, addr: nat, now: Time)
    : (Table6, Result<nat, PoolError>)
  {
    if cur.Some? then (t, Ok(cur.value))
    else if Available(p, t.leases, duid, now, addr) then
      (InsertSpec(t, addr, duid, Some(now + duration)), Ok(addr))
    else (t, Err(NotAvailable))
  }

  ghost function ReleaseSpec(t: Table6, cur: Option<nat>): (Table6, bool) {
    if cur.Some? then (t.(leases := t.leases - {cur.value}), true) else (t, false)
  }

  class V6Pool {
    const start: Addr6
    const end: Option<Addr6>
    const count: u64
    const leaseDuration: nat
    const useSlots: bool
    var last: nat
    const slots: array<Option<Lease6>>
    var filled: nat
    var overflow: map<nat, Lease6>
    var order: seq<nat>
    var byDuid: map<Duid, Addr6>
    ghost var leases: map<nat, Lease6>

    ghost function Fields(): Store<Duid, Lease6>
      reads `filled, `overflow, `order, `byDuid, slots
    {
      Store(start, if useSlots && end.Some? then count else 0, slots[..], filled, overflow, order, byDuid)
    }

    ghost predicate Shape() {
      && (end == if start + count < ADDRESS_SPACE then Some(start + count) else None)
      && slots.Length == (if useSlots then count else 0)
    }

    /** The stored leases are those of the map; the cursor plays no part in this. */
    ghost predicate Sound()
      reads `filled, `overflow, `order, `byDuid, `leases, slots
    {
      && Shape()
      && Represents(Fields(), leases)
      && (forall a :: a in leases ==> a < ADDRESS_SPACE)
    }

    ghost predicate Valid()
      reads this, slots
    {
      Sound() && (last < count || last == 0)
    }

    ghost function Managed(): Policy {
      Policy(start, count, end.Some?, false)
    }

    ghost function Contents(): Table6
      reads this
    {
      Table(leases, last)
    }

    /**
     The answer the next lookup for `duid` gives: an address it holds, or None iff it holds
     none. It depends on the stored fields only, not on the cursor.
     */
    ghost function CurrentOf(duid: Duid): (cur: Option<nat>)
      reads `filled, `overflow, `order, `byDuid, `leases, slots
      requires Sound()
      ensures IsCurrent(leases, duid, cur)
      ensures cur.Some? ==> cur.value < ADDRESS_SPACE
    {
      CurrentIsExact(Fields(), leases, duid);
      Current(Fields(), duid)
    }

    /** `slotLimit` is 100_000 in the server; pools with more addresses are hash-only. */
    constructor (start: Addr6, count: u64, leaseDuration: nat, slotLimit: nat)
      ensures Valid() && fresh(slots)
      ensures this.start == start && this.count == count && this.leaseDuration == leaseDuration
      ensures useSlots == (count <= slotLimit)
      ensures Managed() == Policy(start, count, start + count < ADDRESS_SPACE, false)
      ensures Contents() == Table(map[], 0)
    {
      this.start := start;
      this.end := if start + count < ADDRESS_SPACE then Some(start + count) else None;
      this.count := count;
      this.leaseDuration := leaseDuration;
      this.useSlots := count <= slotLimit;
      this.last := 0;
      this.slots := new Option<Lease6>[if count <= slotLimit then count else 0](_ => None);
      this.filled := 0;
      this.overflow := map[];
      this.order := [];
      this.byDuid := map[];
      this.leases := map[];
      new;
      EmptyStore(Fields());
    }

    /** Number of leases currently held. */
    function Len(): (n: nat)
      reads this, slots
      requires Valid()
      ensures n == |leases|
    {
      filled + |overflow|
    }

    predicate InRange(addr: Addr6) {
      addr >= start && end.Some? && addr < end.value
    }

    /** Slot of an in-range address; None out of range and for hash-only pools. */
    function Idx(addr: Addr6): (r: Option<nat>)
      requires Shape()
      ensures r.Some? ==> r.value < slots.Length && addr == start + r.value
      ensures r.Some? <==> start <= addr < start + if useSlots && end.Some? then count else 0
    {
      if !useSlots || end.None? then None
      else if addr < start then None
      else if addr - start < count then Some(addr - start)
      else None
    }

    function Lookup(addr: Addr6): (r: Option<Lease6>)
      reads `filled, `overflow, `order, `byDuid, `leases, slots
      requires Sound()
      ensures r == Stored(Fields(), addr) == if addr in leases then Some(leases[addr]) else None
    {
      StoredIsHeld(addr);
      hide Represents;
      match Idx(addr)
      case Some(i) => slots[i]
      case None => if addr in overflow then Some(overflow[addr]) else None
    }

    lemma StoredIsHeld(addr: Addr6)
      requires Sound()
      ensures Stored(Fields(), addr) == if addr in leases then Some(leases[addr]) else None
    {
    }

    predicate SlotAvailable(i: nat, duid: Duid, now: Time)
      reads slots
      requires i < slots.Length
    {
      match slots[i]
      case Some(l) => l.client == duid || (l.expiry.Some? && now > l.expiry.value)
      case None => true
    }

    /** Available to `duid`: in range, and unleased, its own, or past its expiry. Infinite leases never lapse. */
    predicate AvailableAt(duid: Duid, addr: Addr6, now: Time)
      reads `filled, `overflow, `order, `byDuid, `leases, slots
      requires Sound()
      ensures AvailableAt(duid, addr, now) <==> Available(Managed(), leases, duid, now, addr)
    {
      hide Represents;
      assert Lookup(addr) == if addr in leases then Some(leases[addr]) else None;
      match Idx(addr)
      case Some(i) => SlotAvailable(i, duid, now)
      case None =>
        if !useSlots && InRange(addr) then
          if addr in overflow
          then overflow[addr].client == duid || (overflow[addr].expiry.Some? && now > overflow[addr].expiry.value)
          else true
        else false
    }

    method ScanSlots(duid: Duid) returns (r: Option<nat>)
      requires Valid()
      ensures r == FirstSlot(slots[..], duid, 0)
    {
      for i := 0 to slots.Length
        invariant FirstSlot(slots[..], duid, 0) == FirstSlot(slots[..], duid, i)
      {
        if slots[i].Some? && slots[i].value.client == duid {
          return Some(i);
        }
      }
      r := None;
    }

    method ScanOverflow(duid: Duid) returns (r: Option<nat>)
      requires IsOrder(order, overflow)
      ensures r == FirstListed(order, overflow, duid, 0)
    {
      for k := 0 to |order|
        invariant FirstListed(order, overflow, duid, 0) == FirstListed(order, overflow, duid, k)
      {
        assert order[k] in order;
        if overflow[order[k]].client == duid {
          return Some(order[k]);
        }
      }
      r := None;
    }

    /** The hint for `duid`, if the table confirms it. */
    function Hint(duid: Duid): (r: Option<Addr6>)
      reads `filled, `overflow, `order, `byDuid, `leases, slots
      requires Sound()
      ensures r == if HintIsGood(Fields(), duid) then Some(byDuid[duid]) else None
    {
      if duid in byDuid then
        var held := Lookup(byDuid[duid]);
        if held.Some? && held.value.client == duid then Some(byDuid[duid]) else None
      else None
    }

    /** An address `duid` holds, or None iff it holds none, whatever the hint says. */
    method CurrentLease(duid: Duid) returns (r: Option<Addr6>)
      requires Valid()
      ensures r == CurrentOf(duid) && IsCurrent(leases, duid, r)
    {
      ghost var answer := CurrentOf(duid);
      if filled == 0 && overflow == map[] {
        return None;
      }
      var hint := Hint(duid);
      if hint.Some? {
        return hint;
      }
      if useSlots {
        var i := ScanSlots(duid);
        if i.Some? {
          assert answer == Some(start + i.value);
          return Some(start + i.value);
        }
      }
      r := ScanOverflow(duid);
    }

    // The four ways the stored leases change; each touches one address.

    method FillSlot(i: nat, lease: Lease6)
      requires Valid() && i < slots.Length && InSlots(Fields(), start + i)
      modifies this`filled, this`leases, slots
      ensures Valid() && leases == old(leases)[start + i := lease]
    {
      hide Represents;
      PutSlot(Fields(), leases, start + i, lease);
      ghost var after := WithSlot(Fields(), start + i, lease);
      if slots[i].None? {
        filled := filled + 1;
      }
      slots[i] := Some(lease);
      leases := leases[start + i := lease];
      assert slots[..] == after.slots;
      assert Fields() == after;
    }

    method FillOverflow(addr: Addr6, lease: Lease6)
      requires Valid() && !InSlots(Fields(), addr)
      modifies this`overflow, this`order, this`leases
      ensures Valid() && leases == old(leases)[addr := lease]
    {
      var order' := OrderWith(order, overflow, addr, lease);
      PutListed(Fields(), leases, addr, lease, order');
      overflow, order := overflow[addr := lease], order';
      leases := leases[addr := lease];
    }

    method EmptySlot(i: nat)
      requires Valid() && i < slots.Length && InSlots(Fields(), start + i) && start + i in leases
      modifies this`filled, this`leases, slots
      ensures Valid() && leases == old(leases) - {start + i as nat}
    {
      hide Represents;
      ClearSlot(Fields(), leases, start + i);
      ghost var after := WithoutSlot(Fields(), start + i);
      slots[i] := None;
      filled := filled - 1;
      leases := leases - {start + i as nat};
      assert slots[..] == after.slots;
      assert Fields() == after;
    }

    method EmptyOverflow(addr: Addr6)
      requires Valid() && !InSlots(Fields(), addr) && addr in leases
      modifies this`overflow, this`order, this`leases
      ensures Valid() && leases == old(leases) - {addr as nat}
    {
      hide Represents;
      ListedOnly(addr);
      var order' := OrderWithout(order, overflow, addr);
      DropListed(Fields(), leases, addr, order');
      overflow, order := overflow - {addr as nat}, order';
      leases := leases - {addr as nat};
    }

    lemma ListedOnly(addr: Addr6)
      requires Valid() && !InSlots(Fields(), addr) && addr in leases
      ensures addr in overflow && IsOrder(order, overflow)
    {
      assert Stored(Fields(), addr) == Some(leases[addr]);
    }

    method Put(addr: Addr6, duid: Duid, expiry: Option<Time>)
      requires Valid()
      modifies this, slots
      ensures Valid() && Contents() == InsertSpec(old(Contents()), addr, duid, expiry)
      ensures byDuid == old(byDuid)[duid := addr]
    {
      hide Represents;
      match Idx(addr) {
        case Some(i) => FillSlot(i, Lease(duid, expiry, ()));
        case None => FillOverflow(addr, Lease(duid, expiry, ()));
      }
      SetHint(duid, addr);
    }

    method SetHint(duid: Duid, addr: Addr6)
      requires Valid()
      modifies this`byDuid
      ensures Valid() && byDuid == old(byDuid)[duid := addr]
    {
      IndexIsFree(Fields(), leases, byDuid[duid := addr]);
      byDuid := byDuid[duid := addr];
    }

    method DropHint(duid: Duid)
      requires Valid()
      modifies this`byDuid
      ensures Valid() && byDuid == old(byDuid) - {duid}
    {
      IndexIsFree(Fields(), leases, byDuid - {duid});
      byDuid := byDuid - {duid};
    }

    /**
     Insert a reservation. The last insert at an address wins; one DUID may hold several
     addresses.
     */
    method Insert(addr: Addr6, duid: Duid, expiry: Option<Time>)
      requires Valid()
      modifies this, slots
      ensures Valid() && Contents() == InsertSpec(old(Contents()), addr, duid, expiry)
      ensures byDuid == IndexAfterInsert(old(leases), old(byDuid), addr, duid)
    {
      hide Represents;
      var held := Lookup(addr);
      if held.Some? {
        var oldDuid := held.value.client;
        if oldDuid != duid && oldDuid in byDuid && byDuid[oldDuid] == addr {
          DropHint(oldDuid);
        }
      }
      Put(addr, duid, expiry);
    }

    // One loop step of `Discover`: the candidate at the cursor, tested the way each storage mode does.

    predicate HashedCandidate(duid: Duid, now: Time)
      reads this, slots
      requires Sound() && !useSlots && last < count
      requires IsCurrent(leases, duid, None)
      ensures HashedCandidate(duid, now) == FreeAt(Managed(), leases, now, last)
    {
      start + last < ADDRESS_SPACE && end.Some? && start + last < end.value && AvailableAt(duid, start + last, now)
    }

    predicate SlotCandidate(duid: Duid, now: Time)
      reads this, slots
      requires Sound() && useSlots && last < count
      requires IsCurrent(leases, duid, None)
      ensures SlotCandidate(duid, now) == FreeAt(Managed(), leases, now, last)
    {
      hide Represents;
      assert end.Some? ==> AvailableAt(duid, start + last, now) == SlotAvailable(last, duid, now);
      start + last < ADDRESS_SPACE && end.Some? && start + last < end.value && SlotAvailable(last, duid, now)
    }

    /** Offer an address: the current lease, else the cyclically first available one. */
    method Discover(duid: Duid, now: Time) returns (r: Option<Addr6>)
      requires Valid()
      modifies `last
      ensures Valid()
      ensures (Contents(), r) == DiscoverSpec(Managed(), old(Contents()), old(CurrentOf(duid)), now)
    {
      var current := CurrentLease(duid);
      if current.Some? {
        return current;
      }
      if count == 0 {
        assert FreeOffsets(Managed(), leases, now) == {};
        return None;
      }
      r := Probe(duid, now);
    }

    method Probe(duid: Duid, now: Time) returns (r: Option<Addr6>)
      requires Sound() && last < count && IsCurrent(leases, duid, None)
      modifies `last
      ensures last < count
      ensures (Contents(), r) == DiscoverSpec(Managed(), old(Contents()), None, now)
    {
      hide Missed, FreeAt, Sound, DiscoverSpec, IsCurrent, After;
      ghost var before, p := Contents(), Managed();
      ScanStarts(p, before, now);
      for n := 0 to count
        invariant last < count && last == After(count, before.last, n)
        invariant Missed(p, before, now, n)
      {
        AfterStep(count, before.last, n);
        last := (last + 1) % count;
        var hit := if useSlots then SlotCandidate(duid, now) else HashedCandidate(duid, now);
        if hit {
          ScanHits(p, before, now, n);
          return Some(start + last);
        }
        ScanMisses(p, before, now, n);
      }
      ScanExhausted(p, before, now);
      r := None;
    }

    /** Commit a lease: the current lease wins unchanged, without a new expiry. */
    method Request(duid: Duid, addr: Addr6, now: Time) returns (r: Result<Addr6, PoolError>)
      requires Valid()
      modifies this, slots
      ensures Valid()
      ensures (Contents(), r) ==
              RequestSpec(Managed(), leaseDuration, old(Contents()), old(CurrentOf(duid)), duid, addr, now)
      ensures byDuid == if Contents() == old(Contents()) then old(byDuid) else old(byDuid)[duid := addr]
    {
      var current := CurrentLease(duid);
      if current.Some? {
        return Ok(current.value);
      }
      if !AvailableAt(duid, addr, now) {
        return Err(NotAvailable);
      }
      Put(addr, duid, Some(now + leaseDuration));
      r := Ok(addr);
    }

    /** Drop the caller's current lease, if any; the hint moves to another lease of `duid` if there is one. */
    method Release(duid: Duid) returns (released: bool, ghost other: Option<nat>)
      requires Valid()
      modifies this, slots
      ensures Valid()
      ensures (Contents(), released) == ReleaseSpec(old(Contents()), old(CurrentOf(duid)))
      ensures released ==>
                && IsCurrent(leases, duid, other)
                && byDuid == IndexAfterRemove(old(byDuid), duid, old(CurrentOf(duid)).value, other)
      ensures !released ==> byDuid == old(byDuid)
    {
      hide Represents, IsCurrent;
      other := None;
      var current := CurrentLease(duid);
      if current.None? {
        return false, None;
      }
      var ip := current.value;
      HeldIsLeased(duid, ip);
      match Idx(ip) {
        case Some(i) => EmptySlot(i);
        case None => EmptyOverflow(ip);
      }
      if duid in byDuid && byDuid[duid] == ip {
        DropHint(duid);
        other := RepairHint(duid);
      } else {
        other := CurrentOf(duid);
      }
      released := true;
    }

    lemma HeldIsLeased(duid: Duid, ip: nat)
      requires IsCurrent(leases, duid, Some(ip))
      ensures ip in leases
    {
    }

    method RepairHint(duid: Duid) returns (ghost other: Option<nat>)
      requires Valid() && duid !in byDuid
      modifies `byDuid
      ensures Valid() && IsCurrent(leases, duid, other)
      ensures byDuid == if other.Some? then old(byDuid)[duid := other.value] else old(byDuid)
    {
      hide Represents;
      ScanFindsHolder(duid);
      other := ScanFor(Fields(), duid);
      if useSlots {
        var j := ScanSlots(duid);
        if j.Some? {
          SetHint(duid, start + j.value);
        }
      }
      if duid !in byDuid {
        var listed := ScanOverflow(duid);
        if listed.Some? {
          SetHint(duid, listed.value);
        }
      }
    }

    lemma ScanFindsHolder(duid: Duid)
      requires Sound()
      ensures IsOrder(order, overflow)
      ensures IsCurrent(leases, duid, ScanFor(Fields(), duid))
      ensures ScanFor(Fields(), duid).Some? ==> ScanFor(Fields(), duid).value < ADDRESS_SPACE
    {
      ScanIsExact(Fields(), leases, duid);
    }
  }
}
