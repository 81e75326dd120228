/**
 * The discovery tables and the SQL statements of one reconcile.
 *
 * A child table is stored partitioned by its foreign key: a source row carries its
 * services by UID (the table's unique key), a service row carries its ports, addresses
 * and hostnames in insertion order. Deleting a row therefore deletes what hangs off it.
 * Row identity of a service is a serial that its source never hands out twice.
 */
module Discovery {
  import opened Wrappers
  import opened Addresses
  import opened Ipam
  import opened Sequences

  type Time = int
  type Uid = string

  const CLUSTER_IP := "cluster_ip"
  const LOAD_BALANCER := "load_balancer"

  // ----- what the cluster reports

  datatype Port = Port(name: string, protocol: string, port: int, targetPort: string, appProtocol: string,
                       nodePort: Option<int>)

  datatype Address = Address(kind: string, addr: IpAddr, ipMode: string)

  datatype Hostname = Hostname(kind: string, hostname: string)

  datatype Info = Info(namespace: string, name: string, serviceType: string, resourceVersion: string,
                       externalName: string, dnsName: string)

  datatype Snapshot = Snapshot(uid: Uid, info: Info, ports: seq<Port>, addresses: seq<Address>,
                               hostnames: seq<Hostname>)

  datatype SourceConfig = SourceConfig(key: string, name: string, site: SiteId, clusterDomain: string,
                                       namespaces: seq<string>, retention: int)

  // ----- what is stored

  datatype PortRow = PortRow(name: Option<string>, protocol: string, port: int, targetPort: string,
                             appProtocol: Option<string>, nodePort: Option<int>)

  datatype MatchStatus = Matched | Unmatched | Ambiguous

  datatype AddressRow = AddressRow(kind: string, addr: IpAddr, ipMode: Option<string>, link: Option<IpId>,
                                   status: MatchStatus, count: nat)

  datatype Content = Content(info: Info, ports: seq<PortRow>, addresses: seq<AddressRow>, hostnames: seq<Hostname>)

  datatype Service = Service(id: nat, content: Content, observedAt: Time, active: bool, staleAt: Option<Time>)

  datatype Counts = Counts(services: nat, matched: nat, unmatched: nat, ambiguous: nat, noUsableIp: nat)

  const NO_COUNTS := Counts(0, 0, 0, 0, 0)

  datatype Source = Source(
    name: string, site: SiteId, clusterDomain: string, namespaces: seq<string>,
    lastAttempt: Option<Time>, lastSuccess: Option<Time>, lastError: string,
    counts: Counts, services: map<Uid, Service>, nextId: nat)

  /** One reported service with every address already looked up. */
  datatype Resolved = Resolved(uid: Uid, content: Content)

  // ----- NULLIF on the way in, COALESCE on the way out

  function NullIfEmpty(s: string): Option<string> {
    if s == "" then None else Some(s)
  }

  function CoalesceEmpty(s: Option<string>): string {
    if s.Some? then s.value else ""
  }

  function EncodePort(p: Port): PortRow {
    var nodePort := if p.nodePort.Some? then p.nodePort.value else 0;
    PortRow(NullIfEmpty(p.name), p.protocol, p.port, p.targetPort, NullIfEmpty(p.appProtocol),
            if nodePort == 0 then None else Some(nodePort))
  }

  function DecodePort(r: PortRow): Port {
    Port(CoalesceEmpty(r.name), r.protocol, r.port, r.targetPort, CoalesceEmpty(r.appProtocol), r.nodePort)
  }

  /** A port survives storage exactly when it does not carry an explicit node port 0. */
  lemma PortRoundTrip(p: Port)
    ensures DecodePort(EncodePort(p)) == p <==> p.nodePort != Some(0)
  {
  }

  function EncodePorts(ports: seq<Port>): seq<PortRow> {
    seq(|ports|, i requires 0 <= i < |ports| => EncodePort(ports[i]))
  }

  function DecodePorts(rows: seq<PortRow>): seq<Port> {
    seq(|rows|, i requires 0 <= i < |rows| => DecodePort(rows[i]))
  }

  // ----- the candidate lookup

  /** The IP rows with this address in a subnet of this site. */
  function Candidates(t: Tables, site: SiteId, addr: IpAddr): set<IpId> {
    set i | i in t.ips && t.ips[i].addr == addr && t.ips[i].subnet in t.subnets
      && t.subnets[t.ips[i].subnet].site == Some(site)
  }

  ghost function AddressRowFor(t: Tables, site: SiteId, a: Address): AddressRow {
    var c := Candidates(t, site, a.addr);
    var mode := NullIfEmpty(a.ipMode);
    if c == {} then AddressRow(a.kind, a.addr, mode, None, Unmatched, 0)
    else if |c| == 1 then AddressRow(a.kind, a.addr, mode, Some(var i :| i in c; i), Matched, 1)
    else AddressRow(a.kind, a.addr, mode, None, Ambiguous, |c|)
  }

  /** The address tables that the lookup for address j of service i sees. */
  type View = (nat, nat) -> Tables

  /** Tables that stand still for all lookups. */
  function Still(t: Tables): View {
    (i: nat, j: nat) => t
  }

  ghost function AddressRowsFor(view: View, i: nat, site: SiteId, addresses: seq<Address>): seq<AddressRow> {
    seq(|addresses|, j requires 0 <= j < |addresses| => AddressRowFor(view(i, j), site, addresses[j]))
  }

  /** Service i of a snapshot with each address looked up at its own moment. */
  ghost function Resolve(view: View, i: nat, site: SiteId, s: Snapshot): Resolved {
    Resolved(s.uid, Content(s.info, EncodePorts(s.ports), AddressRowsFor(view, i, site, s.addresses), s.hostnames))
  }

  ghost function ResolveAll(view: View, site: SiteId, services: seq<Snapshot>): seq<Resolved> {
    seq(|services|, i requires 0 <= i < |services| => Resolve(view, i, site, services[i]))
  }

  // ----- constraints of the child tables

  predicate AddressStorable(stored: seq<AddressRow>, a: Address) {
    && (a.kind == CLUSTER_IP || a.kind == LOAD_BALANCER)
    && forall i :: 0 <= i < |stored| ==> !(stored[i].kind == a.kind && stored[i].addr == a.addr)
  }

  predicate HostnamesStorable(hostnames: seq<Hostname>) {
    && (forall i :: 0 <= i < |hostnames| ==> hostnames[i].kind == LOAD_BALANCER)
    && (forall i, j :: 0 <= i < j < |hostnames| ==> hostnames[i] != hostnames[j])
  }

  predicate AddressesStorable(addresses: seq<Address>) {
    && (forall i :: 0 <= i < |addresses| ==> addresses[i].kind == CLUSTER_IP || addresses[i].kind == LOAD_BALANCER)
    && (forall i, j :: 0 <= i < j < |addresses| ==>
          !(addresses[i].kind == addresses[j].kind && addresses[i].addr == addresses[j].addr))
  }

  predicate Storable(s: Snapshot) {
    s.uid != "" && AddressesStorable(s.addresses) && HostnamesStorable(s.hostnames)
  }

  predicate AllStorable(services: seq<Snapshot>) {
    forall i :: 0 <= i < |services| ==> Storable(services[i])
  }

  /** One more address fits the stored ones exactly when it is of a known kind and new. */
  lemma StorableSnocAddress(before: seq<Address>, a: Address)
    requires AddressesStorable(before)
    ensures AddressesStorable(before + [a]) <==>
            && (a.kind == CLUSTER_IP || a.kind == LOAD_BALANCER)
            && forall k :: 0 <= k < |before| ==> !(before[k].kind == a.kind && before[k].addr == a.addr)
  {
    var longer := before + [a];
    assert longer[|before|] == a;
    assert forall k :: 0 <= k < |before| ==> longer[k] == before[k];
  }

  predicate DistinctSnapshots(services: seq<Snapshot>) {
    forall i, j :: 0 <= i < j < |services| ==> services[i].uid != services[j].uid
  }

  // ----- the statements

  function NewSource(cfg: SourceConfig): Source {
    Source(cfg.name, cfg.site, cfg.clusterDomain, cfg.namespaces, None, None, "", NO_COUNTS, map[], 0)
  }

  function UpsertSource(sources: map<string, Source>, cfg: SourceConfig): Source {
    if cfg.key in sources then
      sources[cfg.key].(name := cfg.name, site := cfg.site, clusterDomain := cfg.clusterDomain,
                        namespaces := cfg.namespaces)
    else NewSource(cfg)
  }

  function EnsureSource(sources: map<string, Source>, cfg: SourceConfig): Source {
    if cfg.key in sources then sources[cfg.key] else NewSource(cfg)
  }

  function RecordFailure(src: Source, at: Time, message: string): Source {
    src.(lastAttempt := Some(at), lastError := message)
  }

  /** Inserts or refreshes the service row; its old children stay until they are replaced. */
  function UpsertService(src: Source, uid: Uid, info: Info, t: Time): Source {
    if uid in src.services then
      var prior := src.services[uid];
      src.(services := src.services[uid := Service(prior.id, prior.content.(info := info), t, true, None)])
    else
      src.(services := src.services[uid := Service(src.nextId, Content(info, [], [], []), t, true, None)],
           nextId := src.nextId + 1)
  }

  function SetContent(src: Source, uid: Uid, content: Content): Source
    requires uid in src.services
  {
    src.(services := src.services[uid := src.services[uid].(content := content)])
  }

  function DeletePorts(src: Source, uid: Uid): Source
    requires uid in src.services
  {
    SetContent(src, uid, src.services[uid].content.(ports := []))
  }

  function InsertPort(src: Source, uid: Uid, row: PortRow): Source
    requires uid in src.services
  {
    SetContent(src, uid, src.services[uid].content.(ports := src.services[uid].content.ports + [row]))
  }

  function DeleteAddresses(src: Source, uid: Uid): Source
    requires uid in src.services
  {
    SetContent(src, uid, src.services[uid].content.(addresses := []))
  }

  function InsertAddress(src: Source, uid: Uid, row: AddressRow): Source
    requires uid in src.services
  {
    SetContent(src, uid, src.services[uid].content.(addresses := src.services[uid].content.addresses + [row]))
  }

  function DeleteHostnames(src: Source, uid: Uid): Source
    requires uid in src.services
  {
    SetContent(src, uid, src.services[uid].content.(hostnames := []))
  }

  function InsertHostname(src: Source, uid: Uid, h: Hostname): Source
    requires uid in src.services
  {
    SetContent(src, uid, src.services[uid].content.(hostnames := src.services[uid].content.hostnames + [h]))
  }

  function MarkMissing(services: map<Uid, Service>, uids: set<Uid>, t: Time): map<Uid, Service> {
    map u | u in services ::
      if services[u].active && u !in uids then services[u].(active := false, staleAt := Some(t)) else services[u]
  }

  predicate Expired(s: Service, cutoff: Time) {
    !s.active && s.staleAt.Some? && s.staleAt.value <= cutoff
  }

  function DeleteStale(services: map<Uid, Service>, cutoff: Time): map<Uid, Service> {
    map u | u in services && !Expired(services[u], cutoff) :: services[u]
  }

  /** The three closing statements: mark the missing, delete the expired, record the success. */
  function Finish(src: Source, uids: set<Uid>, t: Time, retention: int, counts: Counts): Source {
    src.(services := DeleteStale(MarkMissing(src.services, uids, t), t - retention),
         lastAttempt := Some(t), lastSuccess := Some(t), lastError := "", counts := counts)
  }

  // ----- the reconcile as one step

  /** All statements for one service at once. */
  function Put(src: Source, r: Resolved, t: Time): Source {
    SetContent(UpsertService(src, r.uid, r.content.info, t), r.uid, r.content)
  }

  function PutAll(src: Source, rs: seq<Resolved>, t: Time): Source
    decreases |rs|
  {
    if rs == [] then src else Put(PutAll(src, rs[..|rs| - 1], t), rs[|rs| - 1], t)
  }

  function Uids(rs: seq<Resolved>): set<Uid> {
    set i | 0 <= i < |rs| :: rs[i].uid
  }

  function StatusCount(rows: seq<AddressRow>, status: MatchStatus): nat
    decreases |rows|
  {
    if rows == [] then 0
    else StatusCount(rows[..|rows| - 1], status) + if rows[|rows| - 1].status == status then 1 else 0
  }

  function TallyRows(c: Counts, rows: seq<AddressRow>): Counts {
    c.(matched := c.matched + StatusCount(rows, Matched),
       unmatched := c.unmatched + StatusCount(rows, Unmatched),
       ambiguous := c.ambiguous + StatusCount(rows, Ambiguous))
  }

  /** A service that reports no address at all is counted when it is begun. */
  function Begun(c: Counts, reported: nat): Counts {
    c.(noUsableIp := c.noUsableIp + if reported == 0 then 1 else 0)
  }

  /** The counters as the loop leaves them; the service count is set once at the end. */
  function Tally(rs: seq<Resolved>): Counts
    decreases |rs|
  {
    if rs == [] then NO_COUNTS
    else
      var rows := rs[|rs| - 1].content.addresses;
      TallyRows(Begun(Tally(rs[..|rs| - 1]), |rows|), rows)
  }

  function FinalCounts(rs: seq<Resolved>): Counts {
    Tally(rs).(services := |rs|)
  }

  function Reconciled(src: Source, rs: seq<Resolved>, t: Time, retention: int): Source {
    Finish(PutAll(src, rs, t), Uids(rs), t, retention, FinalCounts(rs))
  }

  // ----- foreign keys into the address tables

  /** ON DELETE SET NULL from IP rows to stored links. */
  function LiveRow(a: AddressRow, live: set<IpId>): AddressRow {
    if a.link.Some? && a.link.value !in live then a.(link := None) else a
  }

  function LiveRows(rows: seq<AddressRow>, live: set<IpId>): seq<AddressRow> {
    seq(|rows|, i requires 0 <= i < |rows| => LiveRow(rows[i], live))
  }

  function LiveContent(c: Content, live: set<IpId>): Content {
    c.(addresses := LiveRows(c.addresses, live))
  }

  function LiveService(s: Service, live: set<IpId>): Service {
    s.(content := LiveContent(s.content, live))
  }

  function LiveSource(src: Source, live: set<IpId>): Source {
    src.(services := map u | u in src.services :: LiveService(src.services[u], live))
  }

  function LiveResolved(r: Resolved, live: set<IpId>): Resolved {
    r.(content := LiveContent(r.content, live))
  }

  function LiveAll(rs: seq<Resolved>, live: set<IpId>): seq<Resolved> {
    seq(|rs|, i requires 0 <= i < |rs| => LiveResolved(rs[i], live))
  }

  // ----- lemmas about the statements

  lemma PutHas(src: Source, r: Resolved, t: Time)
    ensures r.uid in Put(src, r, t).services
    ensures Put(src, r, t).services[r.uid].content == r.content
  {
  }

  /** One more address row after a put is the put of a longer content. */
  lemma PutInsertAddress(src: Source, r: Resolved, row: AddressRow, t: Time)
    ensures InsertAddress(Put(src, r, t), r.uid, row)
            == Put(src, r.(content := r.content.(addresses := r.content.addresses + [row])), t)
  {
    var x := InsertAddress(Put(src, r, t), r.uid, row);
    var y := Put(src, r.(content := r.content.(addresses := r.content.addresses + [row])), t);
    assert x.services == y.services;
  }

  lemma PutSetContent(src: Source, r: Resolved, c: Content, t: Time)
    requires c.info == r.content.info
    ensures SetContent(Put(src, r, t), r.uid, c) == Put(src, r.(content := c), t)
  {
    assert SetContent(Put(src, r, t), r.uid, c).services == Put(src, r.(content := c), t).services;
  }

  /** Nulling dead links commutes with the writes of a service. */
  lemma LivePut(src: Source, r: Resolved, t: Time, live: set<IpId>)
    ensures LiveSource(Put(src, r, t), live) == Put(LiveSource(src, live), LiveResolved(r, live), t)
  {
    assert LiveSource(Put(src, r, t), live).services == Put(LiveSource(src, live), LiveResolved(r, live), t).services;
  }

  lemma {:induction false} LivePutAll(src: Source, rs: seq<Resolved>, t: Time, live: set<IpId>)
    ensures LiveSource(PutAll(src, rs, t), live) == PutAll(LiveSource(src, live), LiveAll(rs, live), t)
    decreases |rs|
  {
    if rs != [] {
      var k := |rs| - 1;
      LivePutAll(src, rs[..k], t, live);
      LivePut(PutAll(src, rs[..k], t), rs[k], t, live);
      assert LiveAll(rs, live)[..k] == LiveAll(rs[..k], live);
    }
  }

  lemma {:induction false} LiveStatusCount(rows: seq<AddressRow>, status: MatchStatus, live: set<IpId>)
    ensures StatusCount(LiveRows(rows, live), status) == StatusCount(rows, status)
    decreases |rows|
  {
    if rows != [] {
      LiveStatusCount(rows[..|rows| - 1], status, live);
      assert LiveRows(rows, live)[..|rows| - 1] == LiveRows(rows[..|rows| - 1], live);
    }
  }

  lemma StatusSnoc(rows: seq<AddressRow>, row: AddressRow, status: MatchStatus)
    ensures StatusCount(rows + [row], status) == StatusCount(rows, status) + StatusCount([row], status)
  {
    assert (rows + [row])[..|rows|] == rows;
    assert StatusCount([row][..0], status) == 0;
  }

  lemma TallySnoc(c: Counts, rows: seq<AddressRow>, row: AddressRow)
    ensures TallyRows(c, rows + [row]) == TallyRows(TallyRows(c, rows), [row])
  {
    StatusSnoc(rows, row, Matched);
    StatusSnoc(rows, row, Unmatched);
    StatusSnoc(rows, row, Ambiguous);
  }

  lemma TallyOne(c: Counts, row: AddressRow)
    ensures TallyRows(c, [row]) ==
            match row.status
            case Matched => c.(matched := c.matched + 1)
            case Unmatched => c.(unmatched := c.unmatched + 1)
            case Ambiguous => c.(ambiguous := c.ambiguous + 1)
  {
    StatusOne(row, Matched);
    StatusOne(row, Unmatched);
    StatusOne(row, Ambiguous);
  }

  lemma StatusOne(row: AddressRow, status: MatchStatus)
    ensures StatusCount([row], status) == if row.status == status then 1 else 0
  {
    assert StatusCount([row][..0], status) == 0;
  }

  lemma LiveTallyRows(c: Counts, rows: seq<AddressRow>, live: set<IpId>)
    ensures TallyRows(c, LiveRows(rows, live)) == TallyRows(c, rows)
  {
    LiveStatusCount(rows, Matched, live);
    LiveStatusCount(rows, Unmatched, live);
    LiveStatusCount(rows, Ambiguous, live);
  }

  /** Nulling links changes no counter. */
  lemma {:induction false} LiveTally(rs: seq<Resolved>, live: set<IpId>)
    ensures Tally(LiveAll(rs, live)) == Tally(rs)
    decreases |rs|
  {
    if rs != [] {
      var k := |rs| - 1;
      LiveTally(rs[..k], live);
      assert LiveAll(rs, live)[..k] == LiveAll(rs[..k], live);
      LiveTallyRows(Begun(Tally(rs[..k]), |rs[k].content.addresses|), rs[k].content.addresses, live);
    }
  }

  lemma LiveUids(rs: seq<Resolved>, live: set<IpId>)
    ensures Uids(LiveAll(rs, live)) == Uids(rs)
  {
    forall u
      ensures u in Uids(LiveAll(rs, live)) <==> u in Uids(rs)
    {
      if u in Uids(rs) {
        var i :| 0 <= i < |rs| && rs[i].uid == u;
        assert LiveAll(rs, live)[i].uid == u;
      }
    }
  }

  lemma LiveFinish(src: Source, uids: set<Uid>, t: Time, retention: int, counts: Counts, live: set<IpId>)
    ensures LiveSource(Finish(src, uids, t, retention, counts), live)
            == Finish(LiveSource(src, live), uids, t, retention, counts)
  {
    assert LiveSource(Finish(src, uids, t, retention, counts), live).services
           == Finish(LiveSource(src, live), uids, t, retention, counts).services;
  }

  /** Nulling dead links commutes with the whole reconcile. */
  lemma LiveReconciled(src: Source, rs: seq<Resolved>, t: Time, retention: int, live: set<IpId>)
    ensures LiveSource(Reconciled(src, rs, t, retention), live)
            == Reconciled(LiveSource(src, live), LiveAll(rs, live), t, retention)
  {
    LivePutAll(src, rs, t, live);
    LiveUids(rs, live);
    LiveTally(rs, live);
    LiveFinish(PutAll(src, rs, t), Uids(rs), t, retention, FinalCounts(rs), live);
  }

  lemma {:induction false} PutAllSite(src: Source, rs: seq<Resolved>, t: Time)
    ensures PutAll(src, rs, t).site == src.site
    decreases |rs|
  {
    if rs != [] {
      PutAllSite(src, rs[..|rs| - 1], t);
    }
  }

  // ----- what a reconcile leaves behind

  /** The position of the last report for a UID, or -1. */
  function LastReport(rs: seq<Resolved>, u: Uid): int {
    LastWhere(rs, (r: Resolved) => r.uid == u)
  }

  lemma LastReportUids(rs: seq<Resolved>, u: Uid)
    ensures LastReport(rs, u) >= 0 <==> u in Uids(rs)
  {
    if u in Uids(rs) {
      var i :| 0 <= i < |rs| && rs[i].uid == u;
      assert !(LastReport(rs, u) < i);
    }
  }

  /** A reported service is the last report of its UID, active; every other service is untouched. */
  lemma {:induction false} PutAllContent(src: Source, rs: seq<Resolved>, t: Time, u: Uid)
    ensures var after := PutAll(src, rs, t).services; var i := LastReport(rs, u);
            if i >= 0 then
              u in after && after[u] == Service(after[u].id, rs[i].content, t, true, None)
              && (u in src.services ==> after[u].id == src.services[u].id)
              && (u !in src.services ==> src.nextId <= after[u].id < PutAll(src, rs, t).nextId)
            else (u in after <==> u in src.services) && (u in after ==> after[u] == src.services[u])
    ensures src.nextId <= PutAll(src, rs, t).nextId
    decreases |rs|
  {
    if rs != [] {
      PutAllContent(src, rs[..|rs| - 1], t, u);
    }
  }

  /**
   * After a reconcile the active services of the source are exactly the reported UIDs,
   * each with the contents of its last report and the identity it had before.
   */
  lemma ReconciledIsSnapshot(src: Source, rs: seq<Resolved>, t: Time, retention: int, u: Uid)
    requires u in src.services ==> (src.services[u].active <==> src.services[u].staleAt.None?)
    ensures var after := Reconciled(src, rs, t, retention).services;
            && ((u in after && after[u].active) <==> u in Uids(rs))
            && (u in Uids(rs) ==>
                  var i := LastReport(rs, u);
                  && i >= 0
                  && after[u] == Service(after[u].id, rs[i].content, t, true, None)
                  && (u in src.services ==> after[u].id == src.services[u].id))
  {
    PutAllContent(src, rs, t, u);
    LastReportUids(rs, u);
  }

  /** A service that was not reported is kept, marked or deleted by its own stale time alone. */
  lemma ReconciledUnreported(src: Source, rs: seq<Resolved>, t: Time, retention: int, u: Uid)
    requires u !in Uids(rs)
    ensures var after := Reconciled(src, rs, t, retention).services;
            if u !in src.services then u !in after
            else
              var prior := src.services[u];
              var marked := if prior.active then prior.(active := false, staleAt := Some(t)) else prior;
              (u in after <==> !Expired(marked, t - retention)) && (u in after ==> after[u] == marked)
  {
    PutAllContent(src, rs, t, u);
    LastReportUids(rs, u);
  }

  // ----- the counters

  ghost predicate DistinctUids(rs: seq<Resolved>) {
    forall i, j :: 0 <= i < j < |rs| ==> rs[i].uid != rs[j].uid
  }

  function AddressTotal(rs: seq<Resolved>): nat
    decreases |rs|
  {
    if rs == [] then 0 else AddressTotal(rs[..|rs| - 1]) + |rs[|rs| - 1].content.addresses|
  }

  lemma {:induction false} StatusPartition(rows: seq<AddressRow>)
    ensures StatusCount(rows, Matched) + StatusCount(rows, Unmatched) + StatusCount(rows, Ambiguous) == |rows|
    decreases |rows|
  {
    if rows != [] {
      StatusPartition(rows[..|rows| - 1]);
    }
  }

  /** The three outcome counters add up to the number of addresses reported. */
  lemma {:induction false} CountersPartitionAddresses(rs: seq<Resolved>)
    ensures Tally(rs).matched + Tally(rs).unmatched + Tally(rs).ambiguous == AddressTotal(rs)
    decreases |rs|
  {
    if rs != [] {
      CountersPartitionAddresses(rs[..|rs| - 1]);
      StatusPartition(rs[|rs| - 1].content.addresses);
    }
  }

  /** The looked-up status says exactly whether there were no, one or several candidates. */
  lemma StatusIsCandidateCount(t: Tables, site: SiteId, a: Address)
    ensures var row := AddressRowFor(t, site, a); var n := |Candidates(t, site, a.addr)|;
            && row.count == n
            && (row.status.Unmatched? <==> n == 0) && (row.status.Matched? <==> n == 1)
               && (row.status.Ambiguous? <==> n >= 2)
            && (row.link.Some? <==> n == 1) && (row.link.Some? ==> Candidates(t, site, a.addr) == {row.link.value})
  {
    var c := Candidates(t, site, a.addr);
    if |c| == 1 {
      var i := AddressRowFor(t, site, a).link.value;
      SingletonIs(c, i);
    }
  }

  /** The IP row has this address and lies in a subnet of this site. */
  predicate Fits(t: Tables, site: SiteId, addr: IpAddr, i: IpId) {
    i in t.ips && t.ips[i].addr == addr && t.ips[i].subnet in t.subnets && t.subnets[t.ips[i].subnet].site == Some(site)
  }

  ghost predicate OnlyFit(t: Tables, site: SiteId, addr: IpAddr, i: IpId) {
    Fits(t, site, addr, i) && forall j :: Fits(t, site, addr, j) ==> j == i
  }

  ghost predicate SeveralFit(t: Tables, site: SiteId, addr: IpAddr) {
    exists i, j :: i != j && Fits(t, site, addr, i) && Fits(t, site, addr, j)
  }

  /** What a looked-up row says: the address as reported, and which IP rows fit it. */
  ghost predicate LookupIs(t: Tables, site: SiteId, a: Address, row: AddressRow) {
    && row.kind == a.kind && row.addr == a.addr
       && (if a.ipMode == "" then row.ipMode.None? else row.ipMode == Some(a.ipMode))
    && (row.status.Unmatched? <==> forall i :: !Fits(t, site, a.addr, i))
    && (forall i: IpId :: row.status.Matched? && row.link == Some(i) <==> OnlyFit(t, site, a.addr, i))
    && (row.status.Ambiguous? <==> SeveralFit(t, site, a.addr))
    && (row.link.Some? <==> row.status.Matched?)
    && row.count == |set i | i in t.ips && Fits(t, site, a.addr, i)|
  }

  /**
   * A lookup says unmatched exactly when no IP row of the site has the address, matched with a
   * row exactly when that row is the only one, and ambiguous exactly when there are several.
   */
  lemma LookupExactly(t: Tables, site: SiteId, a: Address)
    ensures LookupIs(t, site, a, AddressRowFor(t, site, a))
  {
    StatusIsCandidateCount(t, site, a);
    var row, c := AddressRowFor(t, site, a), Candidates(t, site, a.addr);
    assert c == set i | i in t.ips && Fits(t, site, a.addr, i);
    assert forall i :: i in c <==> Fits(t, site, a.addr, i);
    if |c| == 0 {
      assert c == {};
    } else {
      var x :| x in c;
      if |c| == 1 {
        SingletonIs(c, x);
      } else {
        var y := Another(c, x);
        assert Fits(t, site, a.addr, y);
      }
    }
  }

  lemma Another<T>(s: set<T>, x: T) returns (y: T)
    requires x in s && |s| >= 2
    ensures y in s && y != x
  {
    assert |s - {x}| == |s| - 1;
    y :| y in s - {x};
  }

  lemma SingletonIs<T>(s: set<T>, x: T)
    requires |s| == 1 && x in s
    ensures s == {x}
  {
    assert |s - {x}| == 0;
    assert s == (s - {x}) + {x};
  }

  lemma UidsSnoc(rs: seq<Resolved>)
    requires rs != []
    ensures Uids(rs) == Uids(rs[..|rs| - 1]) + {rs[|rs| - 1].uid}
  {
    var before, last := rs[..|rs| - 1], rs[|rs| - 1];
    forall u
      ensures u in Uids(rs) <==> u in Uids(before) + {last.uid}
    {
      if u in Uids(before) {
        var i :| 0 <= i < |before| && before[i].uid == u;
        assert rs[i].uid == u;
      }
      if u in Uids(rs) && u != last.uid {
        var i :| 0 <= i < |rs| && rs[i].uid == u;
        assert before[i].uid == u;
      }
    }
  }

  lemma DistinctUidsSnoc(rs: seq<Resolved>)
    requires rs != []
    ensures DistinctUids(rs) <==> DistinctUids(rs[..|rs| - 1]) && rs[|rs| - 1].uid !in Uids(rs[..|rs| - 1])
  {
    var before, last := rs[..|rs| - 1], rs[|rs| - 1];
    assert forall i :: 0 <= i < |before| ==> before[i] == rs[i];
    if last.uid in Uids(before) {
      var i :| 0 <= i < |before| && before[i].uid == last.uid;
      assert rs[i].uid == rs[|rs| - 1].uid;
    }
  }

  lemma {:induction false} UidsSize(rs: seq<Resolved>)
    ensures |Uids(rs)| <= |rs|
    ensures |Uids(rs)| == |rs| <==> DistinctUids(rs)
    decreases |rs|
  {
    if rs == [] {
      assert Uids(rs) == {};
    } else {
      UidsSize(rs[..|rs| - 1]);
      UidsSnoc(rs);
      DistinctUidsSnoc(rs);
    }
  }

  function ActiveUids(src: Source): set<Uid> {
    set u | u in src.services && src.services[u].active
  }

  /** The recorded service count is the number of active rows exactly when the UIDs are distinct. */
  lemma ServiceCountIsActiveRows(src: Source, rs: seq<Resolved>, t: Time, retention: int)
    requires forall u :: u in src.services ==> (src.services[u].active <==> src.services[u].staleAt.None?)
    ensures Reconciled(src, rs, t, retention).counts.services == |ActiveUids(Reconciled(src, rs, t, retention))|
            <==> DistinctUids(rs)
  {
    UidsSize(rs);
    forall u
      ensures u in ActiveUids(Reconciled(src, rs, t, retention)) <==> u in Uids(rs)
    {
      if u in src.services || u in Uids(rs) {
        ReconciledIsSnapshot(src, rs, t, retention, u);
      } else {
        ReconciledUnreported(src, rs, t, retention, u);
      }
    }
    assert ActiveUids(Reconciled(src, rs, t, retention)) == Uids(rs);
  }
}
