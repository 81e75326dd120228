/**
 * The address-management tables (sites, subnets, IP rows) and the operations on them.
 *
 * A table is a map from its key. Keys come from counters that only grow: a key is
 * never handed out twice, as with the database's sequences and random UUIDs.
 */
module Ipam {
  import opened Wrappers
  import opened Addresses

  type SiteId = nat
  type SubnetId = nat
  type IpId = nat

  datatype Subnet = Subnet(cidr: Cidr, site: Option<SiteId>)

  datatype Ip = Ip(addr: IpAddr, hostname: string, subnet: SubnetId)

  datatype Tables = Tables(
    sites: map<SiteId, string>,
    subnets: map<SubnetId, Subnet>,
    ips: map<IpId, Ip>,
    nextSite: nat,
    nextSubnet: nat,
    nextIp: nat)

  const EMPTY := Tables(map[], map[], map[], 0, 0, 0)

  /** A database error is one that no layer gives a meaning of its own, be it an outage or a refused statement. */
  datatype Error = NotFound | Conflict | InvalidInput | DatabaseError

  datatype Op =
    | CreateSite(name: string)
    | RenameSite(site: SiteId, newName: string)
    | DeleteSite(site: SiteId)
    | CreateSubnet(cidr: Cidr, owner: Option<SiteId>)
    | AssignSubnetSite(subnet: SubnetId, owner: Option<SiteId>)
    | UpdateSubnet(subnet: SubnetId, cidr: Cidr, owner: Option<SiteId>)
    | DeleteSubnet(subnet: SubnetId)
    | CreateIp(subnet: SubnetId, addr: IpAddr, hostname: string)
    | UpdateIpHostname(subnet: SubnetId, ip: IpId, hostname: string)
    | DeleteIp(subnet: SubnetId, ip: IpId)

  /**
   * What one service call does to the tables, with the checks in the service's order.
   * An error leaves the tables as they were.
   */
  function Exec(t: Tables, op: Op): Result<Tables, Error> {
    match op
    case CreateSite(name) =>
      if NameTaken(t, name) then Err(DatabaseError)
      else Ok(t.(sites := t.sites[t.nextSite := name], nextSite := t.nextSite + 1))
    case RenameSite(site, name) =>
      if site !in t.sites then Err(NotFound)
      else if t.sites[site] != name && NameTaken(t, name) then Err(DatabaseError)
      else Ok(t.(sites := t.sites[site := name]))
    case DeleteSite(site) =>
      if site !in t.sites then Err(NotFound)
      else Ok(t.(sites := t.sites - {site}, subnets := Orphan(t.subnets, site)))
    case CreateSubnet(cidr, owner) =>
      if owner.None? then Err(InvalidInput)
      else if owner.value !in t.sites then Err(NotFound)
      else if !IsMasked(cidr) then Err(DatabaseError)
      else Ok(t.(subnets := t.subnets[t.nextSubnet := Subnet(cidr, owner)], nextSubnet := t.nextSubnet + 1))
    case AssignSubnetSite(subnet, owner) =>
      if owner.None? then Err(InvalidInput)
      else if owner.value !in t.sites || subnet !in t.subnets then Err(NotFound)
      else Ok(t.(subnets := t.subnets[subnet := t.subnets[subnet].(site := owner)]))
    case UpdateSubnet(subnet, cidr, owner) =>
      if owner.None? then Err(InvalidInput)
      else if owner.value !in t.sites then Err(NotFound)
      else if !IsMasked(cidr) then Err(DatabaseError)
      else if subnet !in t.subnets then Err(NotFound)
      else Ok(t.(subnets := t.subnets[subnet := Subnet(cidr, owner)]))
    case DeleteSubnet(subnet) =>
      if subnet !in t.subnets then Err(NotFound)
      else Ok(t.(subnets := t.subnets - {subnet}, ips := WithoutSubnet(t.ips, subnet)))
    case CreateIp(subnet, addr, hostname) =>
      if subnet !in t.subnets then Err(NotFound)
      else if !Accepts(t.subnets[subnet].cidr, addr) then Err(InvalidInput)
      else if AddressTaken(t, subnet, addr) then Err(Conflict)
      else Ok(t.(ips := t.ips[t.nextIp := Ip(addr, hostname, subnet)], nextIp := t.nextIp + 1))
    case UpdateIpHostname(subnet, ip, hostname) =>
      if subnet !in t.subnets || ip !in t.ips || t.ips[ip].subnet != subnet then Err(NotFound)
      else Ok(t.(ips := t.ips[ip := t.ips[ip].(hostname := hostname)]))
    case DeleteIp(subnet, ip) =>
      if ip !in t.ips || t.ips[ip].subnet != subnet then Err(NotFound)
      else Ok(t.(ips := t.ips - {ip}))
  }

  predicate NameTaken(t: Tables, name: string) {
    exists s :: s in t.sites && t.sites[s] == name
  }

  predicate AddressTaken(t: Tables, subnet: SubnetId, addr: IpAddr) {
    exists i :: i in t.ips && t.ips[i].subnet == subnet && t.ips[i].addr == addr
  }

  /** ON DELETE SET NULL from sites to subnets. */
  function Orphan(subnets: map<SubnetId, Subnet>, site: SiteId): map<SubnetId, Subnet> {
    map s | s in subnets :: if subnets[s].site == Some(site) then subnets[s].(site := None) else subnets[s]
  }

  /** ON DELETE CASCADE from subnets to IP rows. */
  function WithoutSubnet(ips: map<IpId, Ip>, subnet: SubnetId): map<IpId, Ip> {
    map i | i in ips && ips[i].subnet != subnet :: ips[i]
  }

  /** The tables after the call, whether or not it failed. */
  function After(t: Tables, op: Op): Tables {
    match Exec(t, op)
    case Ok(t') => t'
    case Err(_) => t
  }

  // ----- what every operation keeps

  ghost predicate SitesOk(t: Tables) {
    && (forall s :: s in t.sites ==> s < t.nextSite)
    && (forall s, s' :: s in t.sites && s' in t.sites && t.sites[s] == t.sites[s'] ==> s == s')
  }

  ghost predicate SubnetsOk(t: Tables) {
    && (forall n :: n in t.subnets ==> n < t.nextSubnet && IsMasked(t.subnets[n].cidr))
    && (forall n :: n in t.subnets && t.subnets[n].site.Some? ==> t.subnets[n].site.value in t.sites)
  }

  ghost predicate UniqueAddresses(t: Tables) {
    forall i, j :: i in t.ips && j in t.ips ==>
      (t.ips[i].subnet == t.ips[j].subnet && t.ips[i].addr == t.ips[j].addr ==> i == j)
  }

  ghost predicate IpsPlaced(t: Tables) {
    forall i :: i in t.ips ==> i < t.nextIp && t.ips[i].subnet in t.subnets
  }

  ghost predicate IpsOk(t: Tables) {
    IpsPlaced(t) && UniqueAddresses(t)
  }

  /** Foreign keys, unique keys, and every key below its counter. */
  ghost predicate Inv(t: Tables) {
    SitesOk(t) && SubnetsOk(t) && IpsOk(t)
  }

  lemma ExecKeepsSites(t: Tables, op: Op)
    requires SitesOk(t)
    ensures SitesOk(After(t, op))
  {
  }

  lemma ExecKeepsSubnets(t: Tables, op: Op)
    requires SubnetsOk(t)
    ensures SubnetsOk(After(t, op))
  {
  }

  lemma ExecKeepsPlaced(t: Tables, op: Op)
    requires IpsPlaced(t)
    ensures IpsPlaced(After(t, op))
  {
  }

  lemma ExecKeepsUnique(t: Tables, op: Op)
    requires IpsPlaced(t) && UniqueAddresses(t)
    ensures UniqueAddresses(After(t, op))
  {
    if op.CreateIp? && Exec(t, op).Ok? {
      assert !AddressTaken(t, op.subnet, op.addr);
    }
  }

  lemma ExecKeepsIps(t: Tables, op: Op)
    requires IpsOk(t)
    ensures IpsOk(After(t, op))
  {
    ExecKeepsPlaced(t, op);
    ExecKeepsUnique(t, op);
  }

  lemma ExecKeepsInv(t: Tables, op: Op)
    requires Inv(t)
    ensures Inv(After(t, op))
  {
    ExecKeepsSites(t, op);
    ExecKeepsSubnets(t, op);
    ExecKeepsIps(t, op);
  }

  /** An IP row never changes its address or subnet, and a deleted row's key is never reused. */
  lemma RowsAreStable(t: Tables, op: Op, i: IpId)
    requires Inv(t) && i in After(t, op).ips
    ensures i in t.ips ==> After(t, op).ips[i].addr == t.ips[i].addr && After(t, op).ips[i].subnet == t.ips[i].subnet
    ensures i !in t.ips ==> i == t.nextIp && op.CreateIp?
    ensures t.nextIp <= After(t, op).nextIp
  {
  }

  /** An IP row goes away exactly when it or its subnet is deleted, and nothing but a rename of it changes it. */
  lemma RowsLeaveExactly(t: Tables, op: Op, i: IpId)
    requires Inv(t) && i in t.ips
    ensures i !in After(t, op).ips <==>
            op == DeleteIp(t.ips[i].subnet, i) || op == DeleteSubnet(t.ips[i].subnet)
    ensures i in After(t, op).ips && After(t, op).ips[i] != t.ips[i] ==>
              op == UpdateIpHostname(t.ips[i].subnet, i, After(t, op).ips[i].hostname)
  {
    if op.DeleteIp? && op.ip == i {
      assert Exec(t, op).Ok? <==> op.subnet == t.ips[i].subnet;
    }
  }

  /** A subnet's site changes exactly by deleting that site or by moving the subnet to another existing site. */
  lemma SiteChangesExactly(t: Tables, op: Op, n: SubnetId)
    requires Inv(t) && n in t.subnets && n in After(t, op).subnets
    ensures After(t, op).subnets[n].site != t.subnets[n].site <==>
            || (op.DeleteSite? && t.subnets[n].site == Some(op.site))
            || ((op.AssignSubnetSite? || (op.UpdateSubnet? && IsMasked(op.cidr))) && op.subnet == n
                && op.owner.Some? && op.owner.value in t.sites && op.owner != t.subnets[n].site)
    ensures op.DeleteSite? && t.subnets[n].site == Some(op.site) ==> After(t, op).subnets[n].site == None
  {
    if op.DeleteSite? && t.subnets[n].site == Some(op.site) {
      assert op.site in t.sites;
    }
  }

  // ----- allocation stays inside the subnet

  ghost predicate Contained(t: Tables) {
    forall i :: i in t.ips && t.ips[i].subnet in t.subnets ==> Accepts(t.subnets[t.ips[i].subnet].cidr, t.ips[i].addr)
  }

  /** The operation does not give an existing subnet a different CIDR. */
  predicate KeepsCidr(t: Tables, op: Op) {
    op.UpdateSubnet? && op.subnet in t.subnets ==> op.cidr == t.subnets[op.subnet].cidr
  }

  lemma CidrStays(t: Tables, op: Op, n: SubnetId)
    requires Inv(t) && KeepsCidr(t, op) && n in t.subnets && n in After(t, op).subnets
    ensures After(t, op).subnets[n].cidr == t.subnets[n].cidr
  {
  }

  lemma NewIpIsAccepted(t: Tables, op: Op, i: IpId)
    requires i !in t.ips && i in After(t, op).ips
    ensures var n := After(t, op).ips[i].subnet;
            n in t.subnets && After(t, op).subnets == t.subnets && Accepts(t.subnets[n].cidr, After(t, op).ips[i].addr)
  {
  }

  lemma ContainmentStep(t: Tables, op: Op)
    requires Inv(t) && Contained(t) && KeepsCidr(t, op)
    ensures Contained(After(t, op))
  {
    var t' := After(t, op);
    forall i | i in t'.ips && t'.ips[i].subnet in t'.subnets
      ensures Accepts(t'.subnets[t'.ips[i].subnet].cidr, t'.ips[i].addr)
    {
      if i in t.ips {
        RowsAreStable(t, op, i);
        CidrStays(t, op, t.ips[i].subnet);
      } else {
        NewIpIsAccepted(t, op, i);
      }
    }
  }

  /** A CIDR update keeps containment exactly when every IP row of the subnet fits the new CIDR. */
  lemma CidrUpdateKeepsContainment(t: Tables, subnet: SubnetId, cidr: Cidr, owner: Option<SiteId>)
    requires Inv(t) && Contained(t) && Exec(t, UpdateSubnet(subnet, cidr, owner)).Ok?
    ensures Contained(After(t, UpdateSubnet(subnet, cidr, owner))) <==>
            forall i :: i in t.ips && t.ips[i].subnet == subnet ==> Accepts(cidr, t.ips[i].addr)
  {
    var t' := After(t, UpdateSubnet(subnet, cidr, owner));
    if Contained(t') {
      forall i | i in t.ips && t.ips[i].subnet == subnet
        ensures Accepts(cidr, t.ips[i].addr)
      {
        assert i in t'.ips;
      }
    }
  }

  function Run(t: Tables, ops: seq<Op>): Tables
    decreases |ops|
  {
    if ops == [] then t else After(Run(t, ops[..|ops| - 1]), ops[|ops| - 1])
  }

  /** No operation of the run changes an existing subnet's CIDR. */
  ghost predicate CidrStable(t: Tables, ops: seq<Op>) {
    forall k :: 0 <= k < |ops| ==> KeepsCidr(Run(t, ops[..k]), ops[k])
  }

  lemma {:induction false} RunKeepsInv(t: Tables, ops: seq<Op>)
    requires Inv(t)
    ensures Inv(Run(t, ops))
    decreases |ops|
  {
    if ops != [] {
      RunKeepsInv(t, ops[..|ops| - 1]);
      ExecKeepsInv(Run(t, ops[..|ops| - 1]), ops[|ops| - 1]);
    }
  }

  /** Every stored IP passes the allocation check in every run that never changes a CIDR. */
  lemma {:induction false} RunStaysContained(t: Tables, ops: seq<Op>)
    requires Inv(t) && Contained(t) && CidrStable(t, ops)
    ensures Contained(Run(t, ops))
    decreases |ops|
  {
    if ops != [] {
      var k := |ops| - 1;
      var before := ops[..k];
      forall j | 0 <= j < k
        ensures KeepsCidr(Run(t, before[..j]), before[j])
      {
        assert before[..j] == ops[..j];
      }
      RunStaysContained(t, before);
      RunKeepsInv(t, before);
      ContainmentStep(Run(t, before), ops[k]);
    }
  }

  // ----- used never exceeds capacity

  function IpsOf(t: Tables, subnet: SubnetId): set<IpId> {
    set i | i in t.ips && t.ips[i].subnet == subnet
  }

  function Used(t: Tables, subnet: SubnetId): nat {
    |IpsOf(t, subnet)|
  }

  /** The total shown for a subnet: its capacity, raised to the used count if that is larger. */
  function TotalIPs(capacity: int, used: nat): int {
    if capacity < used then used else capacity
  }

  function ValuesOf(t: Tables, ids: set<IpId>): set<nat>
    requires forall i :: i in ids ==> i in t.ips
  {
    set i | i in ids :: t.ips[i].addr.value
  }

  lemma {:induction false} DistinctValues(t: Tables, subnet: SubnetId, ids: set<IpId>)
    requires UniqueAddresses(t)
    requires forall i :: i in ids ==> i in t.ips && t.ips[i].subnet == subnet
    requires forall i, j :: i in ids && j in ids ==> t.ips[i].addr.family == t.ips[j].addr.family
    ensures |ValuesOf(t, ids)| == |ids|
  {
    if ids != {} {
      var x :| x in ids;
      DistinctValues(t, subnet, ids - {x});
      assert ValuesOf(t, ids) == ValuesOf(t, ids - {x}) + {t.ips[x].addr.value};
    }
  }

  /**
   * In every run that never changes a CIDR the used count of a subnet is at most its capacity,
   * for every IPv4 prefix and every IPv6 prefix with fewer than 63 host bits, so the total
   * shown is the capacity itself.
   */
  lemma AllocationWithinCapacity(ops: seq<Op>, subnet: SubnetId)
    requires CidrStable(EMPTY, ops) && subnet in Run(EMPTY, ops).subnets
    requires var p := Run(EMPTY, ops).subnets[subnet].cidr; p.addr.family.V6? ==> HostBits(p) < 63
    ensures var t := Run(EMPTY, ops);
            && Used(t, subnet) <= SubnetCapacity(t.subnets[subnet].cidr)
            && TotalIPs(SubnetCapacity(t.subnets[subnet].cidr), Used(t, subnet))
               == SubnetCapacity(t.subnets[subnet].cidr)
  {
    RunKeepsInv(EMPTY, ops);
    RunStaysContained(EMPTY, ops);
    UsedWithinCapacity(Run(EMPTY, ops), subnet);
  }

  lemma UsedWithinCapacity(t: Tables, subnet: SubnetId)
    requires Inv(t) && Contained(t) && subnet in t.subnets
    requires t.subnets[subnet].cidr.addr.family.V6? ==> HostBits(t.subnets[subnet].cidr) < 63
    ensures Used(t, subnet) <= SubnetCapacity(t.subnets[subnet].cidr)
  {
    var p, ids := t.subnets[subnet].cidr, IpsOf(t, subnet);
    forall i | i in ids
      ensures t.ips[i].addr.family == p.addr.family && t.ips[i].addr.value in AcceptedValues(p)
    {
      assert Accepts(p, t.ips[i].addr);
    }
    DistinctValues(t, subnet, ids);
    AcceptedNeverExceedCapacity(p, ValuesOf(t, ids));
  }
}
