/** Every database has answers to the queries of the reads, so what is proved of all answers is never empty. */
module ReadsExist {
  import opened Wrappers
  import opened Ipam
  import opened Discovery
  import opened Protocol
  import opened Sequences
  import opened DiscoveryReads
  import opened SubnetServices
  import SiteStatistics

  // ----- the service list

  function VisibleIds(db: Db, subnet: SubnetId): set<RowId> {
    set k, u | k in db.sources && u in db.sources[k].services && db.sources[k].services[u].active
               && subnet in db.ipam.subnets && db.ipam.subnets[subnet].site == Some(db.sources[k].site)
      :: IdentityOf(db, k, u)
  }

  function RowAt(db: Db, id: RowId): ServiceRow
    requires id.source in db.sources && id.uid in db.sources[id.source].services
  {
    RowOf(db, id.source, id.uid)
  }

  /** The stored values of each visible row. */
  ghost function ValuesAt<V>(db: Db, subnet: SubnetId, f: (Source, Service) -> seq<V>): RowId -> seq<V> {
    id => if VisibleRow(db, subnet, id) then f(db.sources[id.source], db.sources[id.source].services[id.uid]) else []
  }

  lemma VisibleIdsExactly(db: Db, subnet: SubnetId, id: RowId)
    ensures id in VisibleIds(db, subnet) <==> VisibleRow(db, subnet, id)
  {
    if VisibleRow(db, subnet, id) {
      assert id == IdentityOf(db, id.source, id.uid);
    }
  }

  lemma ValuesSelected<V>(db: Db, subnet: SubnetId, f: (Source, Service) -> seq<V>, id: RowId)
    ensures Select(Tagged(SeqOf(VisibleIds(db, subnet)), ValuesAt(db, subnet, f)), id) == ValuesAt(db, subnet, f)(id)
  {
    VisibleIdsExactly(db, subnet, id);
    SelectTagged(SeqOf(VisibleIds(db, subnet)), ValuesAt(db, subnet, f), id);
  }

  ghost function ServiceRows(db: Db, subnet: SubnetId): seq<ServiceRow> {
    SeqOf(set id | id in VisibleIds(db, subnet) :: RowAt(db, id))
  }

  lemma ServiceRowsAnswer(db: Db, subnet: SubnetId)
    ensures ServiceQuery(db, subnet, ServiceRows(db, subnet))
  {
    forall k, u | Visible(db, subnet, k, u)
      ensures RowOf(db, k, u) in ServiceRows(db, subnet)
    {
      assert IdentityOf(db, k, u) in VisibleIds(db, subnet);
      assert RowAt(db, IdentityOf(db, k, u)) == RowOf(db, k, u);
    }
  }

  ghost function AddressRows(db: Db, subnet: SubnetId): seq<(RowId, AddressJoin)> {
    Tagged(SeqOf(VisibleIds(db, subnet)),
           ValuesAt(db, subnet, (src: Source, s: Service) =>
             Map(a => JoinAddress(db.ipam, src.site, a), s.content.addresses)))
  }

  ghost function PortRows(db: Db, subnet: SubnetId): seq<(RowId, PortRow)> {
    Tagged(SeqOf(VisibleIds(db, subnet)), ValuesAt(db, subnet, (src: Source, s: Service) => s.content.ports))
  }

  ghost function HostnameRows(db: Db, subnet: SubnetId): seq<(RowId, Hostname)> {
    Tagged(SeqOf(VisibleIds(db, subnet)), ValuesAt(db, subnet, (src: Source, s: Service) => s.content.hostnames))
  }

  lemma AddressRowsAnswer(db: Db, subnet: SubnetId)
    ensures AddressQuery(db, subnet, AddressRows(db, subnet))
  {
    var f := (src: Source, s: Service) => Map(a => JoinAddress(db.ipam, src.site, a), s.content.addresses);
    forall id
      ensures Select(AddressRows(db, subnet), id) == ValuesAt(db, subnet, f)(id)
    {
      ValuesSelected(db, subnet, f, id);
    }
    assert forall k, u :: Visible(db, subnet, k, u) ==> VisibleRow(db, subnet, IdentityOf(db, k, u));
  }

  lemma PortRowsAnswer(db: Db, subnet: SubnetId)
    ensures PortQuery(db, subnet, PortRows(db, subnet))
  {
    var f := (src: Source, s: Service) => s.content.ports;
    forall id
      ensures Select(PortRows(db, subnet), id) == ValuesAt(db, subnet, f)(id)
    {
      ValuesSelected(db, subnet, f, id);
    }
    assert forall k, u :: Visible(db, subnet, k, u) ==> VisibleRow(db, subnet, IdentityOf(db, k, u));
  }

  lemma HostnameRowsAnswer(db: Db, subnet: SubnetId)
    ensures HostnameQuery(db, subnet, HostnameRows(db, subnet))
  {
    var f := (src: Source, s: Service) => s.content.hostnames;
    forall id
      ensures Select(HostnameRows(db, subnet), id) == ValuesAt(db, subnet, f)(id)
    {
      ValuesSelected(db, subnet, f, id);
    }
    assert forall k, u :: Visible(db, subnet, k, u) ==> VisibleRow(db, subnet, IdentityOf(db, k, u));
  }

  /** The four queries can be answered in every state, one row for each visible service. */
  lemma ServiceListExists(db: Db, subnet: SubnetId)
    ensures exists rows: Results ::
              && ServiceQuery(db, subnet, rows.services) && AddressQuery(db, subnet, rows.addresses)
              && PortQuery(db, subnet, rows.ports) && HostnameQuery(db, subnet, rows.hostnames)
  {
    ServiceRowsAnswer(db, subnet);
    AddressRowsAnswer(db, subnet);
    PortRowsAnswer(db, subnet);
    HostnameRowsAnswer(db, subnet);
    var rows := Results(ServiceRows(db, subnet), AddressRows(db, subnet), PortRows(db, subnet),
                        HostnameRows(db, subnet));
    assert ServiceQuery(db, subnet, rows.services) && AddressQuery(db, subnet, rows.addresses);
  }

  // ----- the matched services

  /** One row for each port, or one without a port. */
  function PortChoices(s: Service): seq<Option<PortRow>> {
    if s.content.ports == [] then [None] else Map(p => Some(p), s.content.ports)
  }

  ghost function MatchRowSet(db: Db, subnet: SubnetId): set<MatchRow> {
    set k, u, a, port | k in db.sources && u in db.sources[k].services
                        && a in db.sources[k].services[u].content.addresses
                        && port in PortChoices(db.sources[k].services[u])
                        && a.link.Some? && LinkedTo(db, subnet, a.link.value, k, u, a)
      :: RowFor(db, a.link.value, k, u, a, port)
  }

  lemma ChoicesExactly(s: Service, port: Option<PortRow>)
    ensures port in PortChoices(s) <==> PortOf(s, port)
  {
    if port.Some? && port.value in s.content.ports {
      var i :| 0 <= i < |s.content.ports| && s.content.ports[i] == port.value;
      assert PortChoices(s)[i] == port;
    }
  }

  lemma MatchRowsExactly(db: Db, subnet: SubnetId, r: MatchRow)
    ensures r in MatchRowSet(db, subnet) <==> IsMatchRow(db, subnet, r)
  {
    if r in MatchRowSet(db, subnet) {
      var k, u, a, port :|
        && k in db.sources && u in db.sources[k].services
        && a in db.sources[k].services[u].content.addresses && port in PortChoices(db.sources[k].services[u])
        && a.link.Some? && LinkedTo(db, subnet, a.link.value, k, u, a) && r == RowFor(db, a.link.value, k, u, a, port);
      ChoicesExactly(db.sources[k].services[u], port);
      assert LinkedTo(db, subnet, r.ip, r.key, r.uid, a) && a.addr == r.addr && a.kind == r.kind;
    }
    if IsMatchRow(db, subnet, r) {
      var a :| LinkedTo(db, subnet, r.ip, r.key, r.uid, a) && a.addr == r.addr && a.kind == r.kind;
      ChoicesExactly(db.sources[r.key].services[r.uid], r.port);
      assert r == RowFor(db, a.link.value, r.key, r.uid, a, r.port);
    }
  }

  /** And the query behind the per-IP read can be, in every state. */
  lemma MatchRowsExist(db: Db, subnet: SubnetId)
    ensures exists rows :: MatchQuery(db, subnet, rows)
  {
    var rows := SeqOf(MatchRowSet(db, subnet));
    forall r
      ensures r in rows <==> IsMatchRow(db, subnet, r)
    {
      MatchRowsExactly(db, subnet, r);
    }
    assert MatchQuery(db, subnet, rows);
  }

  // ----- the subnet list and the statistics

  function ViewOf(t: Tables, n: SubnetId): SiteStatistics.SubnetView
    requires n in t.subnets
  {
    SiteStatistics.SubnetView(n, t.subnets[n].cidr, t.subnets[n].site, Used(t, n), 0)
  }

  /** Every state of the tables has a subnet list and statistics rows. */
  lemma StatisticsExist(t: Tables)
    ensures exists views :: SiteStatistics.IsListing(t, views)
    ensures exists rows :: SiteStatistics.IsStatistics(t, rows)
  {
    var ids := SeqOf(t.subnets.Keys);
    var views := seq(|ids|, i requires 0 <= i < |ids| => ViewOf(t, ids[i]));
    forall n | n in t.subnets
      ensures exists i :: 0 <= i < |views| && views[i].id == n
    {
      var i :| 0 <= i < |ids| && ids[i] == n;
      assert views[i].id == n;
    }
    assert SiteStatistics.IsListing(t, views);
    SiteStatistics.ListingIsStatistics(t, views);
  }
}
