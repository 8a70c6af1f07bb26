/** The cross-field checks of the configuration, and what they give the services. */
module ConfigRules {
  import opened Wrappers
  import opened Bytes
  import V4 = Dhcpv4Server
  import V6 = Dhcpv6Server
  import V6Runs = Dhcpv6Runs
  import V6Pool = DhcpV6Pool
  import Leases

  datatype ConfigError = BadDuid | Ipv4PoolOverflows | Ipv6PoolOverflows

  datatype Settings = Settings(v4: V4.Config, v6: V6.Config)

  function Validate(s: Settings): Result<Settings, ConfigError> {
    if s.v6.serverDuid == [] || |s.v6.serverDuid| > 128 then Err(BadDuid)
    else
      var v4End: u64 := s.v4.ipStart + s.v4.leaseNum;
      if v4End > 0xFFFF_FFFF + 1 then Err(Ipv4PoolOverflows)
      else if s.v6.start + s.v6.count >= V6Pool.ADDRESS_SPACE then Err(Ipv6PoolOverflows)
      else Ok(s)
  }

  /**
   Accepted settings are unchanged, and give both services pools whose every address exists: the
   IPv4 scan stays within 32 bits, and the IPv6 range is usable in full.
   */
  lemma AcceptedPoolsExist(s: Settings)
    requires Validate(s).Ok?
    ensures Validate(s).value == s
    ensures V4.Validated(s.v4)
    ensures forall a: nat :: Leases.InPool(V6.PolicyOf(s.v6), a) <==> s.v6.start <= a < s.v6.start + s.v6.count
    ensures 16 * |s.v6.dns| <= 0xFFFF ==> V6Runs.Sendable(s.v6)
  {
  }

  /**
   The exact condition: settings are accepted iff the server DUID has 1 to 128 octets, the IPv4 pool ends
   within 32 bits and the end of the IPv6 range is a 128-bit number; the first one missing is reported.
   */
  lemma ValidateIff(s: Settings)
    ensures Validate(s).Ok? <==> GoodDuid(s) && GoodIpv4(s) && GoodIpv6(s)
    ensures Validate(s) == Err(BadDuid) <==> !GoodDuid(s)
    ensures Validate(s) == Err(Ipv4PoolOverflows) <==> GoodDuid(s) && !GoodIpv4(s)
    ensures Validate(s) == Err(Ipv6PoolOverflows) <==> GoodDuid(s) && GoodIpv4(s) && !GoodIpv6(s)
  {
  }

  predicate GoodDuid(s: Settings) {
    1 <= |s.v6.serverDuid| <= 128
  }

  predicate GoodIpv4(s: Settings) {
    s.v4.ipStart + s.v4.leaseNum <= 0x1_0000_0000
  }

  predicate GoodIpv6(s: Settings) {
    s.v6.start + s.v6.count <= 0xFFFF_FFFF_FFFF_FFFF_FFFF_FFFF_FFFF_FFFF
  }

  /** The pools are the configured ranges: address by address, a count of leases from the start. */
  lemma PoolsIff(s: Settings, a: nat)
    ensures Leases.InPool(V4.PolicyOf(s.v4), a) <==> s.v4.ipStart <= a < s.v4.ipStart + s.v4.leaseNum
    ensures Leases.InPool(V6.PolicyOf(s.v6), a) <==> GoodIpv6(s) && s.v6.start <= a < s.v6.start + s.v6.count
  {
  }
}
