/**
 * Every service call on the address tables: which error it answers exactly when, and what a
 * success changes, said of the rows alone.
 */
module CallOutcomes {
  import opened Wrappers
  import opened Addresses
  import opened Ipam

  // ----- sites

  ghost predicate SomeSiteNamed(t: Tables, name: string) {
    exists s :: s in t.sites && t.sites[s] == name
  }

  /** Only the sites changed. */
  predicate SameNetworks(t: Tables, t': Tables) {
    t'.subnets == t.subnets && t'.ips == t.ips
  }

  /** A name that is taken is refused by the database's unique key, which no layer turns into a conflict. */
  lemma CreateSiteOutcome(t: Tables, name: string)
    requires Inv(t)
    ensures match Exec(t, CreateSite(name))
            case Ok(t') => !SomeSiteNamed(t, name) && SameNetworks(t, t')
                           && exists s: nat :: s !in t.sites && t'.sites == t.sites[s := name]
            case Err(x) => x == DatabaseError && SomeSiteNamed(t, name)
  {
    assert t.nextSite !in t.sites;
  }

  lemma RenameSiteOutcome(t: Tables, site: SiteId, name: string)
    requires Inv(t)
    ensures var other := exists s :: s in t.sites && s != site && t.sites[s] == name;
            match Exec(t, RenameSite(site, name))
            case Ok(t') => site in t.sites && !other && SameNetworks(t, t') && t'.sites == t.sites[site := name]
            case Err(x) => (x == NotFound && site !in t.sites) || (x == DatabaseError && site in t.sites && other)
  {
    if site in t.sites && t.sites[site] != name && NameTaken(t, name) {
      var s :| s in t.sites && t.sites[s] == name;
      assert s != site;
    }
  }

  /** A deleted site leaves its subnets without a site and touches nothing else. */
  lemma DeleteSiteOutcome(t: Tables, site: SiteId)
    ensures match Exec(t, DeleteSite(site))
            case Ok(t') =>
              && site in t.sites && t'.sites == t.sites - {site} && t'.ips == t.ips && t'.subnets.Keys == t.subnets.Keys
              && forall n :: n in t.subnets ==>
                   var was := t.subnets[n].site;
                   t'.subnets[n] == t.subnets[n].(site := if was == Some(site) then None else was)
            case Err(x) => x == NotFound && site !in t.sites
  {
  }

  // ----- subnets

  /** The prefix has no host bits set. */
  ghost predicate NoHostBits(p: Cidr) {
    p.addr.value % Pow2((if p.addr.family.V4? then 32 else 128) - p.bits) == 0
  }

  /**
   * A request without a site is invalid, one with an unknown site not found, one with host bits
   * fails in the database.
   */
  lemma CreateSubnetOutcome(t: Tables, cidr: Cidr, owner: Option<SiteId>)
    requires Inv(t)
    ensures match Exec(t, CreateSubnet(cidr, owner))
            case Ok(t') =>
              && owner.Some? && owner.value in t.sites && NoHostBits(cidr) && t'.sites == t.sites && t'.ips == t.ips
              && exists n: nat :: n !in t.subnets && t'.subnets == t.subnets[n := Subnet(cidr, owner)]
            case Err(x) =>
              || (x == InvalidInput && owner.None?)
              || (x == NotFound && owner.Some? && owner.value !in t.sites)
              || (x == DatabaseError && owner.Some? && owner.value in t.sites && !NoHostBits(cidr))
  {
    assert t.nextSubnet !in t.subnets;
  }

  lemma AssignSubnetSiteOutcome(t: Tables, subnet: SubnetId, owner: Option<SiteId>)
    ensures match Exec(t, AssignSubnetSite(subnet, owner))
            case Ok(t') =>
              && owner.Some? && owner.value in t.sites && subnet in t.subnets && t'.sites == t.sites && t'.ips == t.ips
              && t'.subnets == t.subnets[subnet := Subnet(t.subnets[subnet].cidr, owner)]
            case Err(x) =>
              || (x == InvalidInput && owner.None?)
              || (x == NotFound && owner.Some? && (owner.value !in t.sites || subnet !in t.subnets))
  {
  }

  lemma UpdateSubnetOutcome(t: Tables, subnet: SubnetId, cidr: Cidr, owner: Option<SiteId>)
    ensures match Exec(t, UpdateSubnet(subnet, cidr, owner))
            case Ok(t') =>
              && owner.Some? && owner.value in t.sites && subnet in t.subnets && NoHostBits(cidr)
              && t'.sites == t.sites && t'.ips == t.ips && t'.subnets == t.subnets[subnet := Subnet(cidr, owner)]
            case Err(x) =>
              || (x == InvalidInput && owner.None?)
              || (x == NotFound && owner.Some? && owner.value !in t.sites)
              || (x == DatabaseError && owner.Some? && owner.value in t.sites && !NoHostBits(cidr))
              || (x == NotFound && owner.Some? && owner.value in t.sites && NoHostBits(cidr) && subnet !in t.subnets)
  {
  }

  /** A deleted subnet takes exactly its own IP rows with it. */
  lemma DeleteSubnetOutcome(t: Tables, subnet: SubnetId)
    ensures match Exec(t, DeleteSubnet(subnet))
            case Ok(t') =>
              && subnet in t.subnets && t'.sites == t.sites && t'.subnets == t.subnets - {subnet}
              && (forall i :: i in t'.ips <==> i in t.ips && t.ips[i].subnet != subnet)
              && (forall i :: i in t'.ips ==> t'.ips[i] == t.ips[i])
            case Err(x) => x == NotFound && subnet !in t.subnets
  {
  }

  // ----- IP rows

  /** The address is outside the prefix, or is the first or last of an IPv4 prefix other than a /31. */
  ghost predicate Unacceptable(p: Cidr, a: IpAddr) {
    || (forall low: nat :: !SameBlock(p, a, low))
    || (a.family.V4? && p.bits != 31 && exists low: nat :: SameBlock(p, a, low) && AtAnEnd(p, a, low))
  }

  /** Some row has this address in this subnet. */
  ghost predicate InUse(t: Tables, subnet: SubnetId, addr: IpAddr) {
    exists i :: i in t.ips && t.ips[i].subnet == subnet && t.ips[i].addr == addr
  }

  /**
   * Creating an IP row: not found exactly without the subnet, invalid exactly for an address
   * that the subnet does not take, a conflict exactly for one that is in use there; otherwise
   * exactly one row is new, with what was asked for.
   */
  lemma CreateIpOutcome(t: Tables, subnet: SubnetId, addr: IpAddr, hostname: string)
    requires Inv(t)
    ensures match Exec(t, CreateIp(subnet, addr, hostname))
            case Ok(t') =>
              && subnet in t.subnets && !Unacceptable(t.subnets[subnet].cidr, addr) && !InUse(t, subnet, addr)
              && t'.sites == t.sites && t'.subnets == t.subnets
              && exists i: nat :: i !in t.ips && t'.ips == t.ips[i := Ip(addr, hostname, subnet)]
            case Err(x) =>
              || (x == NotFound && subnet !in t.subnets)
              || (x == InvalidInput && subnet in t.subnets && Unacceptable(t.subnets[subnet].cidr, addr))
              || (x == Conflict && subnet in t.subnets && !Unacceptable(t.subnets[subnet].cidr, addr)
                  && InUse(t, subnet, addr))
  {
    if subnet in t.subnets {
      VerdictExactly(t.subnets[subnet].cidr, addr);
    }
    assert t.nextIp !in t.ips;
  }

  lemma UpdateIpHostnameOutcome(t: Tables, subnet: SubnetId, ip: IpId, hostname: string)
    ensures var there := subnet in t.subnets && ip in t.ips && t.ips[ip].subnet == subnet;
            match Exec(t, UpdateIpHostname(subnet, ip, hostname))
            case Ok(t') => there && t'.sites == t.sites && t'.subnets == t.subnets
                           && t'.ips == t.ips[ip := Ip(t.ips[ip].addr, hostname, subnet)]
            case Err(x) => x == NotFound && !there
  {
  }

  lemma DeleteIpOutcome(t: Tables, subnet: SubnetId, ip: IpId)
    ensures var there := ip in t.ips && t.ips[ip].subnet == subnet;
            match Exec(t, DeleteIp(subnet, ip))
            case Ok(t') => there && t'.sites == t.sites && t'.subnets == t.subnets && t'.ips == t.ips - {ip}
            case Err(x) => x == NotFound && !there
  {
  }
}
