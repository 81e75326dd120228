/**
 * The read of a subnet's services when commits fall between its four queries: they are
 * separate statements outside a transaction, so each may see another state.
 */
module TornReads {
  import opened Ipam
  import opened Discovery
  import opened Protocol
  import opened Sequences
  import opened Integrity
  import opened SubnetServices
  import opened Lookups
  import opened Identity

  // ----- four states

  ghost predicate SameAddresses(db: Db, k: string, u: Uid, addresses: seq<AddressView>)
    requires StoredIn(db, k, u)
  {
    var view := (a: AddressRow) => ViewAddress(db.ipam, db.sources[k].site, a);
    multiset(addresses) == multiset(Map(view, db.sources[k].services[u].content.addresses))
  }

  ghost predicate SamePorts(db: Db, k: string, u: Uid, ports: seq<Port>)
    requires StoredIn(db, k, u)
  {
    multiset(ports) == multiset(DecodePorts(db.sources[k].services[u].content.ports))
  }

  ghost predicate SameHostnames(db: Db, k: string, u: Uid, hostnames: seq<Hostname>)
    requires StoredIn(db, k, u)
  {
    multiset(hostnames) == multiset(db.sources[k].services[u].content.hostnames)
  }

  /**
   * What the address query of one state says of a service row: its stored addresses, or none if
   * it is not visible there.
   */
  ghost predicate AddressesOfState(db: Db, subnet: SubnetId, id: RowId, addresses: seq<AddressView>) {
    if VisibleRow(db, subnet, id) then SameAddresses(db, id.source, id.uid, addresses) else addresses == []
  }

  ghost predicate PortsOfState(db: Db, subnet: SubnetId, id: RowId, ports: seq<Port>) {
    if VisibleRow(db, subnet, id) then SamePorts(db, id.source, id.uid, ports) else ports == []
  }

  ghost predicate HostnamesOfState(db: Db, subnet: SubnetId, id: RowId, hostnames: seq<Hostname>) {
    if VisibleRow(db, subnet, id) then SameHostnames(db, id.source, id.uid, hostnames) else hostnames == []
  }

  /** The four queries, each answered in a state of its own, and what the loops make of the answers. */
  ghost predicate AnsweredApart(db: Db, dbA: Db, dbP: Db, dbH: Db, subnet: SubnetId, rows: Results,
                                read: seq<Observation>) {
    && ServiceQuery(db, subnet, rows.services) && AddressQuery(dbA, subnet, rows.addresses)
    && PortQuery(dbP, subnet, rows.ports) && HostnameQuery(dbH, subnet, rows.hostnames)
    && |read| == |rows.services|
    && forall i :: 0 <= i < |read| ==> Observes(read[i], rows.services[i], rows)
  }

  /**
   * Each observation is a service row visible to the first query, with its fields of that
   * state; its addresses, ports and hostnames are exactly what the same row has in the state of
   * the query that reads them, or none if the row is not visible there.
   */
  lemma TornReadReports(db: Db, dbA: Db, dbP: Db, dbH: Db, subnet: SubnetId, rows: Results, read: seq<Observation>,
                        i: nat)
    requires AnsweredApart(db, dbA, dbP, dbH, subnet, rows, read) && i < |read|
    ensures var o := read[i];
            && Visible(db, subnet, o.key, o.uid) && rows.services[i] == RowOf(db, o.key, o.uid)
            && o.info == rows.services[i].info && o.observedAt == rows.services[i].observedAt
            && o.sourceName == rows.services[i].sourceName
            && AddressesOfState(dbA, subnet, IdentityOf(db, o.key, o.uid), o.addresses)
            && PortsOfState(dbP, subnet, IdentityOf(db, o.key, o.uid), o.ports)
            && HostnamesOfState(dbH, subnet, IdentityOf(db, o.key, o.uid), o.hostnames)
  {
    var o, id := read[i], rows.services[i].id;
    assert rows.services[i] in rows.services;
    if VisibleRow(dbA, subnet, id) {
      var src := dbA.sources[id.source];
      ViewsOf(dbA.ipam, src.site, src.services[id.uid].content.addresses, Select(rows.addresses, id));
    }
    if VisibleRow(dbP, subnet, id) {
      PortsPermute(Select(rows.ports, id), dbP.sources[id.source].services[id.uid].content.ports);
    }
  }

  // ----- four moments of a run

  /** The service is stored from one moment to the other without a break. */
  ghost predicate StaysStored(x: Execution, k: string, u: Uid, m: nat, n: nat) {
    Unbroken(Identities(x, k, u), m, n)
  }

  /** None, or those of that very service at moment n; certainly those if it stayed stored and is visible then. */
  ghost predicate OwnAddresses(x: Execution, subnet: SubnetId, o: Observation, m: nat, n: nat)
    requires n <= |x.steps|
  {
    var db := StateAt(x, n).db;
    var shown := Visible(db, subnet, o.key, o.uid) && SameAddresses(db, o.key, o.uid, o.addresses);
    (o.addresses == [] || shown) && (StaysStored(x, o.key, o.uid, m, n) && Visible(db, subnet, o.key, o.uid) ==> shown)
  }

  ghost predicate OwnPorts(x: Execution, subnet: SubnetId, o: Observation, m: nat, n: nat)
    requires n <= |x.steps|
  {
    var db := StateAt(x, n).db;
    var shown := Visible(db, subnet, o.key, o.uid) && SamePorts(db, o.key, o.uid, o.ports);
    (o.ports == [] || shown) && (StaysStored(x, o.key, o.uid, m, n) && Visible(db, subnet, o.key, o.uid) ==> shown)
  }

  ghost predicate OwnHostnames(x: Execution, subnet: SubnetId, o: Observation, m: nat, n: nat)
    requires n <= |x.steps|
  {
    var db := StateAt(x, n).db;
    var shown := Visible(db, subnet, o.key, o.uid) && SameHostnames(db, o.key, o.uid, o.hostnames);
    (o.hostnames == [] || shown) && (StaysStored(x, o.key, o.uid, m, n) && Visible(db, subnet, o.key, o.uid) ==> shown)
  }

  /** A service that stays stored and is visible later is visible there under its old identity. */
  lemma SameRowLater(x: Execution, subnet: SubnetId, k: string, u: Uid, m: nat, n: nat)
    requires m <= n <= |x.steps| && StoredIn(StateAt(x, m).db, k, u) && StaysStored(x, k, u, m, n)
    ensures Visible(StateAt(x, n).db, subnet, k, u) ==>
            VisibleRow(StateAt(x, n).db, subnet, IdentityOf(StateAt(x, m).db, k, u))
  {
    IdentityIsStable(x, k, u, m, n);
    assert Identities(x, k, u)(n) == Identities(x, k, u)(m);
  }

  /**
   * A read whose queries fall on four moments of a run shows every service visible to the
   * first. Whatever was committed in between, no child of another service slips in: each list
   * of children is the service's own at the moment of its query, or empty, and it is never
   * lost while the service stays stored and visible.
   */
  lemma TornReadOverRun(x: Execution, m: nat, mA: nat, mP: nat, mH: nat, subnet: SubnetId, rows: Results,
                        read: seq<Observation>)
    requires m <= mA <= mP <= mH <= |x.steps|
    requires AnsweredApart(StateAt(x, m).db, StateAt(x, mA).db, StateAt(x, mP).db, StateAt(x, mH).db, subnet, rows,
                           read)
    ensures forall k, u :: Visible(StateAt(x, m).db, subnet, k, u) <==> SubnetServices.Found(read, k, u)
    ensures forall i :: 0 <= i < |read| ==>
              && OwnAddresses(x, subnet, read[i], m, mA)
              && OwnPorts(x, subnet, read[i], m, mP)
              && OwnHostnames(x, subnet, read[i], m, mH)
  {
    var db := StateAt(x, m).db;
    forall i: nat | i < |read|
      ensures OwnAddresses(x, subnet, read[i], m, mA)
      ensures OwnPorts(x, subnet, read[i], m, mP)
      ensures OwnHostnames(x, subnet, read[i], m, mH)
    {
      TornReadReports(db, StateAt(x, mA).db, StateAt(x, mP).db, StateAt(x, mH).db, subnet, rows, read, i);
      OwnChildren(x, m, mA, mP, mH, subnet, read[i]);
    }
    forall k, u
      ensures Visible(db, subnet, k, u) <==> SubnetServices.Found(read, k, u)
    {
      FirstQueryFinds(db, subnet, rows.services, read, k, u);
    }
  }

  /** Which services are shown is the first query's matter alone. */
  lemma FirstQueryFinds(db: Db, subnet: SubnetId, rows: seq<ServiceRow>, read: seq<Observation>, k: string, u: Uid)
    requires ServiceQuery(db, subnet, rows) && |read| == |rows|
    requires forall i :: 0 <= i < |read| ==> read[i].key == rows[i].id.source && read[i].uid == rows[i].uid
    ensures Visible(db, subnet, k, u) <==> SubnetServices.Found(read, k, u)
  {
    forall i | 0 <= i < |read|
      ensures Visible(db, subnet, read[i].key, read[i].uid)
    {
      assert rows[i] in rows;
    }
    if Visible(db, subnet, k, u) {
      var i :| 0 <= i < |rows| && rows[i] == RowOf(db, k, u);
      assert read[i].key == k && read[i].uid == u;
    }
  }

  lemma OwnChildren(x: Execution, m: nat, mA: nat, mP: nat, mH: nat, subnet: SubnetId, o: Observation)
    requires m <= mA <= mP <= mH <= |x.steps| && Visible(StateAt(x, m).db, subnet, o.key, o.uid)
    requires var id := IdentityOf(StateAt(x, m).db, o.key, o.uid);
             && AddressesOfState(StateAt(x, mA).db, subnet, id, o.addresses)
             && PortsOfState(StateAt(x, mP).db, subnet, id, o.ports)
             && HostnamesOfState(StateAt(x, mH).db, subnet, id, o.hostnames)
    ensures OwnAddresses(x, subnet, o, m, mA) && OwnPorts(x, subnet, o, m, mP) && OwnHostnames(x, subnet, o, m, mH)
  {
    if StaysStored(x, o.key, o.uid, m, mA) { SameRowLater(x, subnet, o.key, o.uid, m, mA); }
    if StaysStored(x, o.key, o.uid, m, mP) { SameRowLater(x, subnet, o.key, o.uid, m, mP); }
    if StaysStored(x, o.key, o.uid, m, mH) { SameRowLater(x, subnet, o.key, o.uid, m, mH); }
  }
}
