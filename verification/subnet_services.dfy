/**
 * The per-subnet read: every active service of the sources bound to the subnet's site.
 * Four query results are joined in memory by service identity.
 */
module SubnetServices {
  import opened Wrappers
  import opened Addresses
  import opened Ipam
  import opened Discovery
  import opened Protocol
  import opened Sequences
  import opened Integrity
  import opened DiscoveryReads

  /** A service row's identity across all sources: no two services ever share one. */
  datatype RowId = RowId(source: string, uid: Uid, serial: nat)

  datatype ServiceRow = ServiceRow(id: RowId, sourceName: string, uid: Uid, info: Info, observedAt: Time)

  /** An address row as the query computes it, before the loop reads its nullable columns. */
  datatype AddressJoin = AddressJoin(kind: string, addr: IpAddr, ipMode: string, status: MatchStatus, count: nat,
                                     ip: Option<IpId>, subnet: Option<SubnetId>)

  datatype ServiceStatus = AnyMatched | AnyAmbiguous | AllUnmatched | NoUsableIp

  datatype Observation = Observation(key: string, sourceName: string, uid: Uid, info: Info, observedAt: Time,
                                     addresses: seq<AddressView>, ports: seq<Port>, hostnames: seq<Hostname>,
                                     status: ServiceStatus)

  // ----- the queries

  function JoinAddress(t: Tables, site: SiteId, a: AddressRow): AddressJoin {
    var subnet := LinkedSubnet(t, site, a.link);
    var lost := a.status.Matched? && subnet.None?;
    AddressJoin(a.kind, a.addr, CoalesceEmpty(a.ipMode),
                if lost then Unmatched else a.status, if lost then 0 else a.count,
                if a.status.Matched? && subnet.Some? then a.link else None, subnet)
  }

  /** The subnet link is reported only beside an IP link. */
  function DecodeAddress(j: AddressJoin): AddressView {
    AddressView(j.kind, j.addr, j.ipMode, j.status, j.count, j.ip, if j.ip.Some? then j.subnet else None)
  }

  /** The service is active and its source is bound to the subnet's site. */
  ghost predicate Visible(db: Db, subnet: SubnetId, k: string, u: Uid) {
    && subnet in db.ipam.subnets
    && k in db.sources && u in db.sources[k].services && db.sources[k].services[u].active
    && db.ipam.subnets[subnet].site == Some(db.sources[k].site)
  }

  function IdentityOf(db: Db, k: string, u: Uid): RowId
    requires k in db.sources && u in db.sources[k].services
  {
    RowId(k, u, db.sources[k].services[u].id)
  }

  function RowOf(db: Db, k: string, u: Uid): ServiceRow
    requires k in db.sources && u in db.sources[k].services
  {
    var s := db.sources[k].services[u];
    ServiceRow(IdentityOf(db, k, u), db.sources[k].name, u, s.content.info, s.observedAt)
  }

  /** Each visible service once, in some order. */
  ghost predicate ServiceQuery(db: Db, subnet: SubnetId, rows: seq<ServiceRow>) {
    && NoDup(rows)
    && (forall r :: r in rows ==> Visible(db, subnet, r.id.source, r.uid) && r == RowOf(db, r.id.source, r.uid))
    && (forall k, u :: Visible(db, subnet, k, u) ==> RowOf(db, k, u) in rows)
  }

  /** The visible service of that source and UID has this row identity. */
  ghost predicate VisibleRow(db: Db, subnet: SubnetId, id: RowId) {
    Visible(db, subnet, id.source, id.uid) && db.sources[id.source].services[id.uid].id == id.serial
  }

  ghost predicate OnlyVisible<V>(db: Db, subnet: SubnetId, rows: seq<(RowId, V)>) {
    forall id :: !VisibleRow(db, subnet, id) ==> Select(rows, id) == []
  }

  ghost predicate AddressQuery(db: Db, subnet: SubnetId, rows: seq<(RowId, AddressJoin)>) {
    && OnlyVisible(db, subnet, rows)
    && forall k, u :: Visible(db, subnet, k, u) ==>
        multiset(Select(rows, IdentityOf(db, k, u)))
        == multiset(Map(a => JoinAddress(db.ipam, db.sources[k].site, a), db.sources[k].services[u].content.addresses))
  }

  ghost predicate PortQuery(db: Db, subnet: SubnetId, rows: seq<(RowId, PortRow)>) {
    && OnlyVisible(db, subnet, rows)
    && forall k, u :: Visible(db, subnet, k, u) ==>
        multiset(Select(rows, IdentityOf(db, k, u))) == multiset(db.sources[k].services[u].content.ports)
  }

  ghost predicate HostnameQuery(db: Db, subnet: SubnetId, rows: seq<(RowId, Hostname)>) {
    && OnlyVisible(db, subnet, rows)
    && forall k, u :: Visible(db, subnet, k, u) ==>
        multiset(Select(rows, IdentityOf(db, k, u))) == multiset(db.sources[k].services[u].content.hostnames)
  }

  // ----- the loops

  /** Matched if any address is, else ambiguous if any is, else unmatched; no address at all is its own status. */
  ghost predicate StatusIs(addresses: seq<AddressView>, s: ServiceStatus) {
    match s
    case AnyMatched => exists i :: 0 <= i < |addresses| && addresses[i].status.Matched?
    case AnyAmbiguous => (forall i :: 0 <= i < |addresses| ==> !addresses[i].status.Matched?)
                         && exists i :: 0 <= i < |addresses| && addresses[i].status.Ambiguous?
    case AllUnmatched => addresses != [] && forall i :: 0 <= i < |addresses| ==> addresses[i].status.Unmatched?
    case NoUsableIp => addresses == []
  }

  /** Each list of addresses has only one status. */
  lemma StatusIsUnique(addresses: seq<AddressView>, s: ServiceStatus, s': ServiceStatus)
    requires StatusIs(addresses, s) && StatusIs(addresses, s')
    ensures s == s'
  {
  }

  method MatchStatusOf(addresses: seq<AddressView>) returns (s: ServiceStatus)
    ensures StatusIs(addresses, s)
  {
    if |addresses| == 0 {
      return NoUsableIp;
    }
    s := AllUnmatched;
    for i := 0 to |addresses|
      invariant s == AllUnmatched || s == AnyAmbiguous
      invariant forall j :: 0 <= j < i ==> !addresses[j].status.Matched?
      invariant s == AnyAmbiguous <==> exists j :: 0 <= j < i && addresses[j].status.Ambiguous?
    {
      if addresses[i].status.Matched? {
        return AnyMatched;
      }
      if addresses[i].status.Ambiguous? {
        s := AnyAmbiguous;
      }
    }
  }

  ghost predicate DistinctIds(rows: seq<ServiceRow>) {
    forall i, j :: 0 <= i < j < |rows| ==> rows[i].id != rows[j].id
  }

  ghost predicate Indexed(rows: seq<ServiceRow>, indexes: map<RowId, nat>) {
    && (forall id :: id in indexes ==> indexes[id] < |rows| && rows[indexes[id]].id == id)
    && (forall i :: 0 <= i < |rows| ==> rows[i].id in indexes && indexes[rows[i].id] == i)
  }

  /** Appends each row's value to the list of its service; rows of unlisted services are skipped. */
  method Distribute<V>(services: seq<ServiceRow>, indexes: map<RowId, nat>, rows: seq<(RowId, V)>)
    returns (lists: seq<seq<V>>)
    requires Indexed(services, indexes)
    ensures |lists| == |services| && forall i :: 0 <= i < |services| ==> lists[i] == Select(rows, services[i].id)
  {
    lists := seq(|services|, _ => []);
    for n := 0 to |rows|
      invariant |lists| == |services|
      invariant forall i :: 0 <= i < |services| ==> lists[i] == Select(rows[..n], services[i].id)
    {
      assert rows[..n + 1][..n] == rows[..n];
      var id := rows[n].0;
      if id in indexes {
        var index := indexes[id];
        lists := lists[index := lists[index] + [rows[n].1]];
      }
    }
    assert rows[..|rows|] == rows;
  }

  /** The four result lists of one read. */
  datatype Results = Results(services: seq<ServiceRow>, addresses: seq<(RowId, AddressJoin)>,
                             ports: seq<(RowId, PortRow)>, hostnames: seq<(RowId, Hostname)>)

  /** Joins the four results; the answer keeps the order of the service rows. */
  method ListAllServicesBySubnetID(rows: Results) returns (services: seq<Observation>)
    requires DistinctIds(rows.services)
    ensures |services| == |rows.services|
    ensures forall i :: 0 <= i < |services| ==> Observes(services[i], rows.services[i], rows)
  {
    var indexes := IndexServices(rows.services);
    var addresses := Distribute(rows.services, indexes, rows.addresses);
    var ports := Distribute(rows.services, indexes, rows.ports);
    var hostnames := Distribute(rows.services, indexes, rows.hostnames);
    services := [];
    for i := 0 to |rows.services|
      invariant |services| == i
      invariant forall j :: 0 <= j < i ==> Observes(services[j], rows.services[j], rows)
    {
      var o := Assemble(rows.services[i], addresses[i], ports[i], hostnames[i]);
      services := services + [o];
    }
  }

  method IndexServices(services: seq<ServiceRow>) returns (indexes: map<RowId, nat>)
    requires DistinctIds(services)
    ensures Indexed(services, indexes)
  {
    indexes := map[];
    for i := 0 to |services|
      invariant Indexed(services[..i], indexes)
    {
      indexes := indexes[services[i].id := i];
    }
    assert services[..|services|] == services;
  }

  /** One service with what was appended to it, and the status of its addresses. */
  method Assemble(r: ServiceRow, addresses: seq<AddressJoin>, ports: seq<PortRow>, hostnames: seq<Hostname>)
    returns (o: Observation)
    ensures o == Observation(r.id.source, r.sourceName, r.uid, r.info, r.observedAt, Map(DecodeAddress, addresses),
                             DecodePorts(ports), hostnames, o.status)
    ensures StatusIs(o.addresses, o.status)
  {
    var views := Map(DecodeAddress, addresses);
    var status := MatchStatusOf(views);
    o := Observation(r.id.source, r.sourceName, r.uid, r.info, r.observedAt, views, DecodePorts(ports), hostnames,
                     status);
  }

  ghost predicate Observes(o: Observation, r: ServiceRow, rows: Results) {
    && o.key == r.id.source && o.sourceName == r.sourceName && o.uid == r.uid && o.info == r.info
       && o.observedAt == r.observedAt
    && o.addresses == Map(DecodeAddress, Select(rows.addresses, r.id))
    && o.ports == DecodePorts(Select(rows.ports, r.id))
    && o.hostnames == Select(rows.hostnames, r.id)
    && StatusIs(o.addresses, o.status)
  }

  /** The four results taken from one state of the database, and the answer the loops make of them. */
  ghost predicate Answered(db: Db, subnet: SubnetId, rows: Results, services: seq<Observation>) {
    && ServiceQuery(db, subnet, rows.services) && AddressQuery(db, subnet, rows.addresses)
    && PortQuery(db, subnet, rows.ports) && HostnameQuery(db, subnet, rows.hostnames)
    && |services| == |rows.services|
    && forall i :: 0 <= i < |services| ==> Observes(services[i], rows.services[i], rows)
  }

  /** Row identities are distinct, so the join's index is well defined. */
  lemma QueryIdsDistinct(db: Db, subnet: SubnetId, rows: seq<ServiceRow>)
    requires ServiceQuery(db, subnet, rows)
    ensures DistinctIds(rows)
  {
    forall i, j | 0 <= i < j < |rows|
      ensures rows[i].id != rows[j].id
    {
      assert rows[i] in rows && rows[j] in rows;
    }
  }

  // ----- what the read reports

  /** An observation is the stored service: same fields, and the same multiset of every kind of child. */
  ghost predicate Reports(db: Db, o: Observation) {
    && o.key in db.sources && o.uid in db.sources[o.key].services
    && var src := db.sources[o.key];
       var svc := src.services[o.uid];
       && o.sourceName == src.name && o.info == svc.content.info && o.observedAt == svc.observedAt
       && multiset(o.addresses) == multiset(Map(a => ViewAddress(db.ipam, src.site, a), svc.content.addresses))
       && multiset(o.ports) == multiset(DecodePorts(svc.content.ports))
       && multiset(o.hostnames) == multiset(svc.content.hostnames)
       && StatusIs(o.addresses, o.status)
  }

  lemma ViewsOf(t: Tables, site: SiteId, rows: seq<AddressRow>, joined: seq<AddressJoin>)
    requires multiset(joined) == multiset(Map(a => JoinAddress(t, site, a), rows))
    ensures multiset(Map(DecodeAddress, joined)) == multiset(Map(a => ViewAddress(t, site, a), rows))
  {
    MapPermutation(DecodeAddress, joined, Map(a => JoinAddress(t, site, a), rows));
    assert Map(DecodeAddress, Map(a => JoinAddress(t, site, a), rows)) == Map(a => ViewAddress(t, site, a), rows);
  }

  lemma PortsPermute(a: seq<PortRow>, b: seq<PortRow>)
    requires multiset(a) == multiset(b)
    ensures multiset(DecodePorts(a)) == multiset(DecodePorts(b))
  {
    MapPermutation(DecodePort, a, b);
    assert Map(DecodePort, a) == DecodePorts(a) && Map(DecodePort, b) == DecodePorts(b);
  }

  lemma ObservationReports(db: Db, subnet: SubnetId, rows: Results, services: seq<Observation>, i: nat)
    requires Answered(db, subnet, rows, services) && i < |services|
    ensures Visible(db, subnet, services[i].key, services[i].uid) && Reports(db, services[i])
  {
    var o, r := services[i], rows.services[i];
    assert r in rows.services;
    var src := db.sources[o.key];
    ViewsOf(db.ipam, src.site, src.services[o.uid].content.addresses, Select(rows.addresses, r.id));
    PortsPermute(Select(rows.ports, r.id), src.services[o.uid].content.ports);
  }

  ghost predicate Found(services: seq<Observation>, k: string, u: Uid) {
    exists i :: 0 <= i < |services| && services[i].key == k && services[i].uid == u
  }

  /** Exactly the visible services are reported, each as stored. */
  lemma ReadsExactlyTheVisible(db: Db, subnet: SubnetId, rows: Results, services: seq<Observation>, k: string, u: Uid)
    requires Answered(db, subnet, rows, services)
    ensures Found(services, k, u) <==>
            && subnet in db.ipam.subnets && k in db.sources && u in db.sources[k].services
            && db.sources[k].services[u].active && db.ipam.subnets[subnet].site == Some(db.sources[k].site)
    ensures forall i :: 0 <= i < |services| && services[i].key == k && services[i].uid == u ==> Reports(db, services[i])
  {
    forall i: nat | i < |services| && services[i].key == k && services[i].uid == u
      ensures Visible(db, subnet, k, u) && Reports(db, services[i])
    {
      ObservationReports(db, subnet, rows, services, i);
    }
    if Visible(db, subnet, k, u) {
      VisibleIsFound(db, subnet, rows, services, k, u);
    }
  }

  lemma VisibleIsFound(db: Db, subnet: SubnetId, rows: Results, services: seq<Observation>, k: string, u: Uid)
    requires Answered(db, subnet, rows, services) && Visible(db, subnet, k, u)
    ensures Found(services, k, u)
  {
    var i :| 0 <= i < |rows.services| && rows.services[i] == RowOf(db, k, u);
    assert services[i].key == k && services[i].uid == u;
  }

  /** No service is reported twice. */
  lemma ReadsEachOnce(db: Db, subnet: SubnetId, rows: Results, services: seq<Observation>, i: nat, j: nat)
    requires Answered(db, subnet, rows, services) && i < j < |services|
    ensures !(services[i].key == services[j].key && services[i].uid == services[j].uid)
  {
    assert rows.services[i] in rows.services && rows.services[j] in rows.services;
  }

  // ----- the two reads agree

  /** The service list reports the address of the service as matched to the IP row and the subnet. */
  ghost predicate ReportedMatch(services: seq<Observation>, ip: IpId, subnet: SubnetId, k: string, u: Uid,
                                x: MatchedAddress) {
    exists i, v :: 0 <= i < |services| && services[i].key == k && services[i].uid == u && v in services[i].addresses
                   && v.addr == x.addr && v.kind == x.kind && v.matchedIp == Some(ip) && v.matchedSubnet == Some(subnet)
  }

  /** The per-IP read lists the service under the IP row with the address. */
  ghost predicate ListedMatch(groups: Groups, ip: IpId, k: string, u: Uid, x: MatchedAddress) {
    var list := ListAt(groups, ip);
    PosOf(list, k, u) >= 0 && x in list[PosOf(list, k, u)].addresses
  }

  ghost predicate StoredMatch(db: Db, subnet: SubnetId, ip: IpId, k: string, u: Uid, x: MatchedAddress) {
    exists a :: LinkedTo(db, subnet, ip, k, u, a) && a.addr == x.addr && a.kind == x.kind
  }

  lemma ListedIsStored(db: Db, subnet: SubnetId, rows: seq<MatchRow>, groups: Groups, ip: IpId, k: string, u: Uid,
                       x: MatchedAddress)
    requires MatchQuery(db, subnet, rows) && GroupsOk(rows, groups)
    ensures ListedMatch(groups, ip, k, u, x) <==> StoredMatch(db, subnet, ip, k, u, x)
  {
    RegroupUndoesJoin(db, subnet, rows, groups, ip, k, u);
    var list := ListAt(groups, ip);
    if PosOf(list, k, u) >= 0 {
      assert Enriches(db, subnet, ip, list[PosOf(list, k, u)]);
    }
  }

  lemma MultisetMembers<T>(a: seq<T>, b: seq<T>, x: T)
    requires multiset(a) == multiset(b)
    ensures x in a <==> x in b
  {
    assert x in multiset(a) <==> x in multiset(b);
  }

  lemma ReportedToStored(db: Db, subnet: SubnetId, k: string, u: Uid, o: Observation, v: AddressView, ip: IpId)
    requires Reports(db, o) && o.key == k && o.uid == u && Visible(db, subnet, k, u)
    requires v in o.addresses && v.matchedIp == Some(ip) && v.matchedSubnet == Some(subnet)
    ensures StoredMatch(db, subnet, ip, k, u, MatchedAddress(v.addr, v.kind))
  {
    var src := db.sources[k];
    var stored := src.services[u].content.addresses;
    var views := Map(a => ViewAddress(db.ipam, src.site, a), stored);
    MultisetMembers(o.addresses, views, v);
    var j :| 0 <= j < |views| && views[j] == v;
    assert LinkedTo(db, subnet, ip, k, u, stored[j]);
  }

  lemma StoredToReported(db: Db, subnet: SubnetId, o: Observation, a: AddressRow, ip: IpId)
    requires Reports(db, o) && LinkedTo(db, subnet, ip, o.key, o.uid, a)
    ensures ViewAddress(db.ipam, db.sources[o.key].site, a) in o.addresses
    ensures var v := ViewAddress(db.ipam, db.sources[o.key].site, a);
            v.matchedIp == Some(ip) && v.matchedSubnet == Some(subnet)
  {
    var src := db.sources[o.key];
    var stored := src.services[o.uid].content.addresses;
    var views := Map(a => ViewAddress(db.ipam, src.site, a), stored);
    var j :| 0 <= j < |stored| && stored[j] == a;
    assert views[j] == ViewAddress(db.ipam, src.site, a);
    MultisetMembers(o.addresses, views, views[j]);
  }

  lemma ReportedIsStored(db: Db, subnet: SubnetId, rows: Results, services: seq<Observation>, ip: IpId, k: string,
                         u: Uid, x: MatchedAddress)
    requires Answered(db, subnet, rows, services)
    ensures ReportedMatch(services, ip, subnet, k, u, x) <==> StoredMatch(db, subnet, ip, k, u, x)
  {
    ReadsExactlyTheVisible(db, subnet, rows, services, k, u);
    if ReportedMatch(services, ip, subnet, k, u, x) {
      var i, v :| 0 <= i < |services| && services[i].key == k && services[i].uid == u && v in services[i].addresses
                  && v.addr == x.addr && v.kind == x.kind && v.matchedIp == Some(ip) && v.matchedSubnet == Some(subnet);
      ReportedToStored(db, subnet, k, u, services[i], v, ip);
    }
    if StoredMatch(db, subnet, ip, k, u, x) {
      var a :| LinkedTo(db, subnet, ip, k, u, a) && a.addr == x.addr && a.kind == x.kind;
      assert Visible(db, subnet, k, u);
      var i :| 0 <= i < |services| && services[i].key == k && services[i].uid == u;
      StoredToReported(db, subnet, services[i], a, ip);
    }
  }

  /**
   * The two reads agree: a service is listed under an IP row of the subnet with an address
   * exactly when the service list reports that address of it as matched to that row and subnet.
   */
  lemma ReadsAgree(db: Db, subnet: SubnetId, matchRows: seq<MatchRow>, groups: Groups, rows: Results,
                   services: seq<Observation>, ip: IpId, k: string, u: Uid, x: MatchedAddress)
    requires MatchQuery(db, subnet, matchRows) && GroupsOk(matchRows, groups)
    requires Answered(db, subnet, rows, services)
    ensures ListedMatch(groups, ip, k, u, x) <==> ReportedMatch(services, ip, subnet, k, u, x)
  {
    ListedIsStored(db, subnet, matchRows, groups, ip, k, u, x);
    ReportedIsStored(db, subnet, rows, services, ip, k, u, x);
  }

  // ----- write, then read

  function PlainAddress(v: AddressView): Address {
    Address(v.kind, v.addr, v.ipMode)
  }

  /** The observation gives back the reported service. */
  ghost predicate Returns(o: Observation, key: string, name: string, s: Snapshot, t: Time) {
    && o.key == key && o.sourceName == name && o.uid == s.uid && o.info == s.info && o.observedAt == t
    && multiset(o.ports) == multiset(s.ports)
    && multiset(Map(PlainAddress, o.addresses)) == multiset(s.addresses)
    && multiset(o.hostnames) == multiset(s.hostnames)
    && StatusIs(o.addresses, o.status)
  }

  /** The database after a committed reconcile of the snapshot. */
  ghost function Committed(db: Db, cfg: SourceConfig, services: seq<Snapshot>, view: View, t: Time): Db {
    db.(sources := db.sources[cfg.key :=
      Reconciled(UpsertSource(db.sources, cfg), ResolveAll(view, cfg.site, services), t, cfg.retention)])
  }

  predicate NoZeroNodePort(ports: seq<Port>) {
    forall i :: 0 <= i < |ports| ==> ports[i].nodePort != Some(0)
  }

  /** The ports come back from storage exactly when none carries an explicit node port 0. */
  lemma PortsComeBack(ports: seq<Port>)
    ensures multiset(DecodePorts(EncodePorts(ports))) == multiset(ports) <==> NoZeroNodePort(ports)
  {
    var back := DecodePorts(EncodePorts(ports));
    forall i | 0 <= i < |ports|
      ensures back[i] == ports[i] <==> ports[i].nodePort != Some(0)
      ensures back[i].nodePort != Some(0)
    {
      PortRoundTrip(ports[i]);
    }
    if NoZeroNodePort(ports) {
      assert back == ports;
    }
    if multiset(back) == multiset(ports) {
      forall i | 0 <= i < |ports|
        ensures ports[i].nodePort != Some(0)
      {
        MultisetMembers(back, ports, ports[i]);
        var j :| 0 <= j < |back| && back[j] == ports[i];
      }
    }
  }

  /**
   * An address read back before anything changes is the reported one, and its status says how
   * many IP rows of the site carry it: matched names the only one, with its subnet.
   */
  lemma FreshLookupReads(t: Tables, site: SiteId, a: Address)
    ensures var v, c := ViewAddress(t, site, AddressRowFor(t, site, a)), Candidates(t, site, a.addr);
            && PlainAddress(v) == a && v.count == |c|
            && (v.status.Matched? <==> |c| == 1) && (v.status.Unmatched? <==> |c| == 0)
               && (v.status.Ambiguous? <==> |c| >= 2)
            && (v.status.Matched? ==> v.matchedIp.Some? && c == {v.matchedIp.value}
                                      && v.matchedSubnet == Some(t.ips[v.matchedIp.value].subnet))
  {
    StatusIsCandidateCount(t, site, a);
    var row := AddressRowFor(t, site, a);
    if row.link.Some? {
      assert row.link.value in Candidates(t, site, a.addr);
    }
  }

  /** However its lookup came out, a stored address reads back as the reported one. */
  lemma AnswerReadsBack(t: Tables, site: SiteId, reported: Address, a: AddressRow)
    requires a.kind == reported.kind && a.addr == reported.addr && a.ipMode == NullIfEmpty(reported.ipMode)
    ensures PlainAddress(ViewAddress(t, site, a)) == reported
  {
  }

  lemma AddressesComeBack(t: Tables, site: SiteId, reported: seq<Address>, rows: seq<AddressRow>,
                          views: seq<AddressView>)
    requires AddressesAnswer(reported, rows) && |rows| == |reported|
    requires multiset(views) == multiset(Map(a => ViewAddress(t, site, a), rows))
    ensures multiset(Map(PlainAddress, views)) == multiset(reported)
  {
    var stored := Map(a => ViewAddress(t, site, a), rows);
    MapPermutation(PlainAddress, views, stored);
    forall i | 0 <= i < |reported|
      ensures Map(PlainAddress, stored)[i] == reported[i]
    {
      AnswerReadsBack(t, site, reported[i], rows[i]);
      assert stored[i] == ViewAddress(t, site, rows[i]);
    }
    assert Map(PlainAddress, stored) == reported;
  }

  lemma CommittedService(db: Db, cfg: SourceConfig, services: seq<Snapshot>, view: View, t: Time, i: nat)
    requires DbOk(db) && DistinctSnapshots(services) && i < |services|
    ensures var src := Committed(db, cfg, services, view, t).sources[cfg.key]; var u := services[i].uid;
            && src.site == cfg.site && src.name == cfg.name
            && u in src.services && src.services[u].active && src.services[u].observedAt == t
            && src.services[u].content == Resolve(view, i, cfg.site, services[i]).content
  {
    var base, rs := UpsertSource(db.sources, cfg), ResolveAll(view, cfg.site, services);
    assert rs[i].uid == services[i].uid;
    assert cfg.key in db.sources ==> SourceOk(db.ipam, db.sources[cfg.key]);
    assert services[i].uid in base.services ==> ServiceOk(db.ipam, base.services[services[i].uid], base.nextId);
    ReconciledIsSnapshot(base, rs, t, cfg.retention, services[i].uid);
    PutAllSite(base, rs, t);
    PutAllName(base, rs, t);
    assert services[i].uid in Uids(rs);
    var j := LastReport(rs, services[i].uid);
    assert services[j].uid == services[i].uid;
  }

  lemma {:induction false} PutAllName(src: Source, rs: seq<Resolved>, t: Time)
    ensures PutAll(src, rs, t).name == src.name
    decreases |rs|
  {
    if rs != [] {
      PutAllName(src, rs[..|rs| - 1], t);
    }
  }

  /** One of the observations gives back the reported service. */
  ghost predicate GivesBack(read: seq<Observation>, key: string, name: string, s: Snapshot, t: Time) {
    exists j :: 0 <= j < |read| && Returns(read[j], key, name, s, t)
  }

  /** The stored service is an answer to the reported one. */
  ghost predicate Stores(db: Db, key: string, s: Snapshot)
    requires key in db.sources && s.uid in db.sources[key].services
  {
    Answers(s, Resolved(s.uid, db.sources[key].services[s.uid].content))
  }

  lemma ObservationReturns(db: Db, o: Observation, s: Snapshot)
    requires Reports(db, o) && o.uid == s.uid && Stores(db, o.key, s)
    ensures Returns(o, o.key, db.sources[o.key].name, s, db.sources[o.key].services[s.uid].observedAt)
            <==> NoZeroNodePort(s.ports)
  {
    var src := db.sources[o.key];
    PortsComeBack(s.ports);
    AddressesComeBack(db.ipam, src.site, s.addresses, src.services[s.uid].content.addresses, o.addresses);
  }

  /**
   * A stored answer to a reported service is read back as that service, whatever its lookups
   * found and whatever became of its links, exactly when no port has an explicit node port 0.
   */
  lemma StoredReadsBack(db: Db, subnet: SubnetId, rows: Results, read: seq<Observation>, k: string, s: Snapshot)
    requires Answered(db, subnet, rows, read) && Visible(db, subnet, k, s.uid) && Stores(db, k, s)
    ensures GivesBack(read, k, db.sources[k].name, s, db.sources[k].services[s.uid].observedAt)
            <==> NoZeroNodePort(s.ports)
  {
    ReadsExactlyTheVisible(db, subnet, rows, read, k, s.uid);
    var name, t := db.sources[k].name, db.sources[k].services[s.uid].observedAt;
    forall j | 0 <= j < |read| && read[j].key == k && read[j].uid == s.uid
      ensures Returns(read[j], k, name, s, t) <==> NoZeroNodePort(s.ports)
    {
      ObservationReturns(db, read[j], s);
    }
    var j :| 0 <= j < |read| && read[j].key == k && read[j].uid == s.uid;
  }

  /**
   * After a committed reconcile of a snapshot with distinct UIDs, reading any subnet of the
   * source's site returns a reported service with the same fields and the same multisets of
   * ports, addresses and hostnames, exactly when none of its ports carries an explicit node
   * port 0, whatever address tables the lookups saw.
   */
  lemma WriteThenRead(db: Db, cfg: SourceConfig, services: seq<Snapshot>, view: View, t: Time, subnet: SubnetId,
                      rows: Results, read: seq<Observation>, i: nat)
    requires DbOk(db) && DistinctSnapshots(services) && i < |services|
    requires subnet in db.ipam.subnets && db.ipam.subnets[subnet].site == Some(cfg.site)
    requires Answered(Committed(db, cfg, services, view, t), subnet, rows, read)
    ensures GivesBack(read, cfg.key, cfg.name, services[i], t) <==> NoZeroNodePort(services[i].ports)
  {
    CommittedService(db, cfg, services, view, t, i);
    CommittedStores(db, cfg, services, view, t, subnet, i);
    StoredReadsBack(Committed(db, cfg, services, view, t), subnet, rows, read, cfg.key, services[i]);
  }

  lemma ResolveAnswers(view: View, i: nat, site: SiteId, s: Snapshot)
    ensures Answers(s, Resolve(view, i, site, s))
  {
    var rows := AddressRowsFor(view, i, site, s.addresses);
    forall j | 0 <= j < |rows|
      ensures rows[j].kind == s.addresses[j].kind && rows[j].addr == s.addresses[j].addr
              && rows[j].ipMode == NullIfEmpty(s.addresses[j].ipMode)
    {
      assert rows[j] == AddressRowFor(view(i, j), site, s.addresses[j]);
    }
  }

  lemma CommittedStores(db: Db, cfg: SourceConfig, services: seq<Snapshot>, view: View, t: Time, subnet: SubnetId,
                        i: nat)
    requires DbOk(db) && DistinctSnapshots(services) && i < |services|
    requires subnet in db.ipam.subnets && db.ipam.subnets[subnet].site == Some(cfg.site)
    ensures Visible(Committed(db, cfg, services, view, t), subnet, cfg.key, services[i].uid)
    ensures Stores(Committed(db, cfg, services, view, t), cfg.key, services[i])
  {
    CommittedService(db, cfg, services, view, t, i);
    ResolveAnswers(view, i, cfg.site, services[i]);
  }

  /** And nothing else of that source is returned, while other sources' rows are untouched. */
  lemma WriteThenReadOnly(db: Db, cfg: SourceConfig, services: seq<Snapshot>, view: View, t: Time, subnet: SubnetId,
                          rows: Results, read: seq<Observation>, j: nat)
    requires DbOk(db) && j < |read| && read[j].key == cfg.key
    requires Answered(Committed(db, cfg, services, view, t), subnet, rows, read)
    ensures exists i :: 0 <= i < |services| && services[i].uid == read[j].uid
    ensures forall k :: k in db.sources && k != cfg.key ==>
              Committed(db, cfg, services, view, t).sources[k] == db.sources[k]
  {
    ObservationReports(Committed(db, cfg, services, view, t), subnet, rows, read, j);
    ActiveIsReported(db, cfg, services, view, t, read[j].uid);
  }

  lemma ActiveIsReported(db: Db, cfg: SourceConfig, services: seq<Snapshot>, view: View, t: Time, u: Uid)
    requires DbOk(db)
    requires var src := Committed(db, cfg, services, view, t).sources[cfg.key];
             u in src.services && src.services[u].active
    ensures exists i :: 0 <= i < |services| && services[i].uid == u
  {
    var base, rs := UpsertSource(db.sources, cfg), ResolveAll(view, cfg.site, services);
    assert cfg.key in db.sources ==> SourceOk(db.ipam, db.sources[cfg.key]);
    assert u in base.services ==> ServiceOk(db.ipam, base.services[u], base.nextId);
    ReconciledIsSnapshot(base, rs, t, cfg.retention, u);
    var i :| 0 <= i < |rs| && rs[i].uid == u;
    assert services[i].uid == u;
  }
}
