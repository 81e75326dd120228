/**
 * The repository's read side. The result lists of the queries are parameters, in any order
 * the engine may return them; the loops regroup them into services.
 */
module DiscoveryReads {
  import opened Wrappers
  import opened Addresses
  import opened Ipam
  import opened Discovery
  import opened Protocol
  import opened Sequences

  // ----- the per-IP read: matched services of a subnet

  datatype MatchRow = MatchRow(ip: IpId, key: string, sourceName: string, uid: Uid, info: Info, observedAt: Time,
                               addr: IpAddr, kind: string, port: Option<PortRow>)

  datatype MatchedAddress = MatchedAddress(addr: IpAddr, kind: string)

  datatype Enrichment = Enrichment(key: string, sourceName: string, uid: Uid, info: Info, observedAt: Time,
                                   addresses: seq<MatchedAddress>, ports: seq<Port>)

  /** The joined and filtered rows behind one link: an active service's matched address in the subnet. */
  ghost predicate LinkedTo(db: Db, subnet: SubnetId, ip: IpId, k: string, u: Uid, a: AddressRow) {
    && k in db.sources && u in db.sources[k].services && db.sources[k].services[u].active
    && a in db.sources[k].services[u].content.addresses && a.status.Matched? && a.link == Some(ip)
    && ip in db.ipam.ips && db.ipam.ips[ip].subnet == subnet
    && subnet in db.ipam.subnets && db.ipam.subnets[subnet].site == Some(db.sources[k].site)
  }

  /** The left join: each port of the service once, or a single row without a port. */
  ghost predicate PortOf(s: Service, port: Option<PortRow>) {
    if port.Some? then port.value in s.content.ports else s.content.ports == []
  }

  ghost predicate IsMatchRow(db: Db, subnet: SubnetId, r: MatchRow) {
    && (exists a :: LinkedTo(db, subnet, r.ip, r.key, r.uid, a) && a.addr == r.addr && a.kind == r.kind)
    && var src := db.sources[r.key];
       && r.sourceName == src.name && r.info == src.services[r.uid].content.info
       && r.observedAt == src.services[r.uid].observedAt && PortOf(src.services[r.uid], r.port)
  }

  /** Exactly the joined rows, in some order. */
  ghost predicate MatchQuery(db: Db, subnet: SubnetId, rows: seq<MatchRow>) {
    forall r :: r in rows <==> IsMatchRow(db, subnet, r)
  }

  // ----- regrouping

  predicate Of(r: MatchRow, ip: IpId, k: string, u: Uid) {
    r.ip == ip && r.key == k && r.uid == u
  }

  /** The first row that mentions the service under the IP row. */
  function FirstOf(rows: seq<MatchRow>, ip: IpId, k: string, u: Uid): Option<MatchRow>
    decreases |rows|
  {
    if rows == [] then None
    else
      var prior := FirstOf(rows[..|rows| - 1], ip, k, u);
      if prior.Some? then prior
      else if Of(rows[|rows| - 1], ip, k, u) then Some(rows[|rows| - 1])
      else None
  }

  lemma {:induction false} FirstOfRows(rows: seq<MatchRow>, ip: IpId, k: string, u: Uid)
    ensures var f := FirstOf(rows, ip, k, u);
            if f.Some? then f.value in rows && Of(f.value, ip, k, u) else forall r :: r in rows ==> !Of(r, ip, k, u)
    decreases |rows|
  {
    if rows != [] {
      FirstOfRows(rows[..|rows| - 1], ip, k, u);
      assert rows == rows[..|rows| - 1] + [rows[|rows| - 1]];
    }
  }

  lemma {:induction false} UnmentionedIsEmpty(rows: seq<MatchRow>, ip: IpId, k: string, u: Uid)
    requires FirstOf(rows, ip, k, u).None?
    ensures AddressesOf(rows, ip, k, u) == [] && PortsOf(rows, ip, k, u) == []
    decreases |rows|
  {
    if rows != [] {
      UnmentionedIsEmpty(rows[..|rows| - 1], ip, k, u);
    }
  }

  function AddressesOf(rows: seq<MatchRow>, ip: IpId, k: string, u: Uid): seq<MatchedAddress>
    decreases |rows|
  {
    if rows == [] then []
    else
      var prior, r := AddressesOf(rows[..|rows| - 1], ip, k, u), rows[|rows| - 1];
      if Of(r, ip, k, u) then Append(prior, MatchedAddress(r.addr, r.kind)) else prior
  }

  function PortsOf(rows: seq<MatchRow>, ip: IpId, k: string, u: Uid): seq<Port>
    decreases |rows|
  {
    if rows == [] then []
    else
      var prior, r := PortsOf(rows[..|rows| - 1], ip, k, u), rows[|rows| - 1];
      if Of(r, ip, k, u) && r.port.Some? then Append(prior, DecodePort(r.port.value)) else prior
  }

  lemma {:induction false} AddressesOfRows(rows: seq<MatchRow>, ip: IpId, k: string, u: Uid, x: MatchedAddress)
    ensures NoDup(AddressesOf(rows, ip, k, u))
    ensures x in AddressesOf(rows, ip, k, u) <==>
            exists i :: 0 <= i < |rows| && Of(rows[i], ip, k, u) && rows[i].addr == x.addr && rows[i].kind == x.kind
    decreases |rows|
  {
    if rows != [] {
      var before, r := rows[..|rows| - 1], rows[|rows| - 1];
      AddressesOfRows(before, ip, k, u, x);
      AppendIsSet(AddressesOf(before, ip, k, u), MatchedAddress(r.addr, r.kind));
      if i :| 0 <= i < |before| && Of(before[i], ip, k, u) && before[i].addr == x.addr && before[i].kind == x.kind {
        assert rows[i] == before[i];
      }
      if i :| 0 <= i < |rows| && Of(rows[i], ip, k, u) && rows[i].addr == x.addr && rows[i].kind == x.kind {
        if i < |before| { assert rows[i] == before[i]; }
      }
    }
  }

  lemma {:induction false} PortsOfRows(rows: seq<MatchRow>, ip: IpId, k: string, u: Uid, x: Port)
    ensures NoDup(PortsOf(rows, ip, k, u))
    ensures x in PortsOf(rows, ip, k, u) <==>
            exists i :: 0 <= i < |rows| && Of(rows[i], ip, k, u) && rows[i].port.Some?
              && DecodePort(rows[i].port.value) == x
    decreases |rows|
  {
    if rows != [] {
      var before, r := rows[..|rows| - 1], rows[|rows| - 1];
      PortsOfRows(before, ip, k, u, x);
      if r.port.Some? {
        AppendIsSet(PortsOf(before, ip, k, u), DecodePort(r.port.value));
      }
      if i :| 0 <= i < |before| && Of(before[i], ip, k, u) && before[i].port.Some?
              && DecodePort(before[i].port.value) == x {
        assert rows[i] == before[i];
      }
      if i :| 0 <= i < |rows| && Of(rows[i], ip, k, u) && rows[i].port.Some? && DecodePort(rows[i].port.value) == x {
        if i < |before| { assert rows[i] == before[i]; }
      }
    }
  }

  const NUL: char := '\0'

  /** The database stores no NUL character in text. */
  predicate NulFree(s: string) {
    NUL !in s
  }

  function ServiceKey(k: string, u: Uid): string {
    k + [NUL] + u
  }

  /** The joined key is injective on NUL-free source keys. */
  lemma ServiceKeyInjective(k: string, u: Uid, k': string, u': Uid)
    requires NulFree(k) && NulFree(k') && ServiceKey(k, u) == ServiceKey(k', u')
    ensures k == k' && u == u'
  {
    var a, b := ServiceKey(k, u), ServiceKey(k', u');
    assert |k| == |k'| by {
      assert forall i :: 0 <= i < |k| ==> a[i] == k[i];
      assert forall i :: 0 <= i < |k'| ==> b[i] == k'[i];
      assert a[|k|] == NUL && b[|k'|] == NUL;
    }
    assert a[..|k|] == k && b[..|k|] == k';
    assert a[|k| + 1..] == u && b[|k| + 1..] == u';
  }

  type Groups = map<IpId, seq<Enrichment>>

  /** The entry stands for a mentioned service and holds what the rows said of it. */
  ghost predicate EntryOk(rows: seq<MatchRow>, ip: IpId, e: Enrichment) {
    var f := FirstOf(rows, ip, e.key, e.uid);
    && f.Some? && e.sourceName == f.value.sourceName && e.info == f.value.info && e.observedAt == f.value.observedAt
    && e.addresses == AddressesOf(rows, ip, e.key, e.uid)
    && e.ports == PortsOf(rows, ip, e.key, e.uid)
  }

  predicate SameService(e: Enrichment, e': Enrichment) {
    e.key == e'.key && e.uid == e'.uid
  }

  /** The position of a service's entry, or -1. */
  function PosOf(list: seq<Enrichment>, k: string, u: Uid): (p: int)
    ensures -1 <= p < |list|
    ensures p >= 0 ==> list[p].key == k && list[p].uid == u
    ensures p < 0 ==> forall j :: 0 <= j < |list| ==> !(list[j].key == k && list[j].uid == u)
    decreases |list|
  {
    if list == [] then -1
    else if list[|list| - 1].key == k && list[|list| - 1].uid == u then |list| - 1
    else PosOf(list[..|list| - 1], k, u)
  }

  /** The list under one IP row: one entry per service its rows mention, and no other. */
  ghost predicate ListOk(rows: seq<MatchRow>, ip: IpId, list: seq<Enrichment>) {
    && (forall j :: 0 <= j < |list| ==> EntryOk(rows, ip, list[j]))
    && (forall i, j :: 0 <= i < j < |list| ==> !SameService(list[i], list[j]))
    && (forall k, u :: FirstOf(rows, ip, k, u).Some? ==> PosOf(list, k, u) >= 0)
  }

  ghost predicate GroupsOk(rows: seq<MatchRow>, groups: Groups) {
    && (forall ip :: ip in groups ==> ListOk(rows, ip, groups[ip]))
    && (forall r :: r in rows ==> r.ip in groups)
  }

  /** The index of one list points at exactly its entries. */
  ghost predicate IndexOk(list: seq<Enrichment>, index: map<string, nat>) {
    && (forall s :: s in index ==> index[s] < |list| && s == ServiceKey(list[index[s]].key, list[index[s]].uid))
    && (forall j :: 0 <= j < |list| ==>
          NulFree(list[j].key) && ServiceKey(list[j].key, list[j].uid) in index
            && index[ServiceKey(list[j].key, list[j].uid)] == j)
  }

  type Indexes = map<IpId, map<string, nat>>

  ghost predicate IndexesOk(groups: Groups, indexes: Indexes) {
    indexes.Keys == groups.Keys && forall ip :: ip in groups ==> IndexOk(groups[ip], indexes[ip])
  }

  // ----- one row of the loop

  function Blank(r: MatchRow): Enrichment {
    Enrichment(r.key, r.sourceName, r.uid, r.info, r.observedAt, [], [])
  }

  function Extend(e: Enrichment, r: MatchRow): Enrichment {
    e.(addresses := Append(e.addresses, MatchedAddress(r.addr, r.kind)),
       ports := if r.port.Some? then Append(e.ports, DecodePort(r.port.value)) else e.ports)
  }

  lemma OtherEntryStays(rows: seq<MatchRow>, r: MatchRow, ip: IpId, e: Enrichment)
    requires EntryOk(rows, ip, e) && !Of(r, ip, e.key, e.uid)
    ensures EntryOk(rows + [r], ip, e)
  {
    assert (rows + [r])[..|rows|] == rows;
  }

  lemma ExtendedEntry(rows: seq<MatchRow>, r: MatchRow, e: Enrichment)
    requires Of(r, r.ip, e.key, e.uid)
    requires EntryOk(rows, r.ip, e) || (FirstOf(rows, r.ip, r.key, r.uid).None? && e == Blank(r))
    ensures EntryOk(rows + [r], r.ip, Extend(e, r))
  {
    assert (rows + [r])[..|rows|] == rows;
    if FirstOf(rows, r.ip, r.key, r.uid).None? {
      UnmentionedIsEmpty(rows, r.ip, r.key, r.uid);
    }
  }

  lemma FirstOfSnoc(rows: seq<MatchRow>, r: MatchRow, ip: IpId, k: string, u: Uid)
    ensures FirstOf(rows + [r], ip, k, u).Some? <==> FirstOf(rows, ip, k, u).Some? || Of(r, ip, k, u)
  {
    assert (rows + [r])[..|rows|] == rows;
  }

  function ListAt(groups: Groups, ip: IpId): seq<Enrichment> {
    if ip in groups then groups[ip] else []
  }

  function IndexAt(indexes: Indexes, ip: IpId): map<string, nat> {
    if ip in indexes then indexes[ip] else map[]
  }

  lemma OtherListStays(rows: seq<MatchRow>, r: MatchRow, ip: IpId, list: seq<Enrichment>)
    requires ListOk(rows, ip, list) && r.ip != ip
    ensures ListOk(rows + [r], ip, list)
  {
    forall j | 0 <= j < |list|
      ensures EntryOk(rows + [r], ip, list[j])
    {
      OtherEntryStays(rows, r, ip, list[j]);
    }
    forall k, u | FirstOf(rows + [r], ip, k, u).Some?
      ensures PosOf(list, k, u) >= 0
    {
      FirstOfSnoc(rows, r, ip, k, u);
    }
  }

  /** The row goes into entry j, which already stands for its service or starts it. */
  ghost predicate Placed(r: MatchRow, list: seq<Enrichment>, list': seq<Enrichment>, j: nat) {
    if j < |list| then Of(r, r.ip, list[j].key, list[j].uid) && list' == list[j := Extend(list[j], r)]
    else j == |list| && PosOf(list, r.key, r.uid) < 0 && list' == list + [Extend(Blank(r), r)]
  }

  lemma PlacedEntry(rows: seq<MatchRow>, r: MatchRow, list: seq<Enrichment>, list': seq<Enrichment>, j: nat, i: nat)
    requires ListOk(rows, r.ip, list) && Placed(r, list, list', j) && i < |list'|
    ensures EntryOk(rows + [r], r.ip, list'[i])
  {
    if i != j {
      assert j < |list| ==> !SameService(list[i], list[j]) && !SameService(list[j], list[i]);
      OtherEntryStays(rows, r, r.ip, list[i]);
    } else if j < |list| {
      ExtendedEntry(rows, r, list[j]);
    } else {
      ExtendedEntry(rows, r, Blank(r));
    }
  }

  lemma PlacedCovers(rows: seq<MatchRow>, r: MatchRow, list: seq<Enrichment>, list': seq<Enrichment>, j: nat,
                     k: string, u: Uid)
    requires ListOk(rows, r.ip, list) && Placed(r, list, list', j) && FirstOf(rows + [r], r.ip, k, u).Some?
    ensures PosOf(list', k, u) >= 0
  {
    FirstOfSnoc(rows, r, r.ip, k, u);
    var p := PosOf(list, k, u);
    if p >= 0 {
      assert SameService(list'[p], list[p]);
    } else {
      assert list'[j].key == k && list'[j].uid == u;
    }
  }

  lemma PlacedDistinct(r: MatchRow, list: seq<Enrichment>, list': seq<Enrichment>, j: nat)
    requires Placed(r, list, list', j)
    requires forall a, b :: 0 <= a < b < |list| ==> !SameService(list[a], list[b])
    ensures forall a, b :: 0 <= a < b < |list'| ==> !SameService(list'[a], list'[b])
  {
  }

  lemma ListStep(rows: seq<MatchRow>, r: MatchRow, list: seq<Enrichment>, list': seq<Enrichment>, j: nat)
    requires ListOk(rows, r.ip, list) && Placed(r, list, list', j)
    ensures ListOk(rows + [r], r.ip, list')
  {
    forall i: nat | i < |list'| {
      PlacedEntry(rows, r, list, list', j, i);
    }
    PlacedDistinct(r, list, list', j);
    forall k, u | FirstOf(rows + [r], r.ip, k, u).Some?
      ensures PosOf(list', k, u) >= 0
    {
      PlacedCovers(rows, r, list, list', j, k, u);
    }
  }

  /** The index finds the row's entry, and stays an index after the row is placed. */
  lemma IndexStep(r: MatchRow, list: seq<Enrichment>, index: map<string, nat>)
    requires IndexOk(list, index) && NulFree(r.key)
    ensures var s := ServiceKey(r.key, r.uid);
            if s in index then Placed(r, list, list[index[s] := Extend(list[index[s]], r)], index[s])
                               && IndexOk(list[index[s] := Extend(list[index[s]], r)], index)
            else PosOf(list, r.key, r.uid) < 0 && IndexOk(list + [Extend(Blank(r), r)], index[s := |list|])
  {
    var s := ServiceKey(r.key, r.uid);
    if s in index {
      ServiceKeyInjective(r.key, r.uid, list[index[s]].key, list[index[s]].uid);
    }
  }

  /** Finds or starts the service's entry in the list of the row's IP and adds what the row carries. */
  method GroupRow(r: MatchRow, list: seq<Enrichment>, index: map<string, nat>, ghost rows: seq<MatchRow>)
    returns (list': seq<Enrichment>, index': map<string, nat>)
    requires ListOk(rows, r.ip, list) && IndexOk(list, index) && NulFree(r.key)
    ensures ListOk(rows + [r], r.ip, list') && IndexOk(list', index')
  {
    IndexStep(r, list, index);
    var serviceKey := ServiceKey(r.key, r.uid);
    if serviceKey in index {
      var j := index[serviceKey];
      list', index' := list[j := Extend(list[j], r)], index;
      ListStep(rows, r, list, list', j);
    } else {
      list', index' := list + [Extend(Blank(r), r)], index[serviceKey := |list|];
      ListStep(rows, r, list, list', |list|);
    }
  }

  lemma NothingListed(rows: seq<MatchRow>, groups: Groups, ip: IpId)
    requires GroupsOk(rows, groups)
    ensures ListOk(rows, ip, ListAt(groups, ip))
  {
    if ip !in groups {
      forall k, u
        ensures FirstOf(rows, ip, k, u).None?
      {
        FirstOfRows(rows, ip, k, u);
      }
    }
  }

  lemma GroupsStep(rows: seq<MatchRow>, r: MatchRow, groups: Groups, list: seq<Enrichment>)
    requires GroupsOk(rows, groups) && ListOk(rows + [r], r.ip, list)
    ensures GroupsOk(rows + [r], groups[r.ip := list])
  {
    forall ip | ip in groups && ip != r.ip
      ensures ListOk(rows + [r], ip, groups[ip])
    {
      OtherListStays(rows, r, ip, groups[ip]);
    }
  }

  /** Regroups joined rows into services per IP row. */
  method ListServicesBySubnetID(rows: seq<MatchRow>) returns (groups: Groups)
    requires forall r :: r in rows ==> NulFree(r.key)
    ensures GroupsOk(rows, groups)
  {
    groups := map[];
    var indexes: Indexes := map[];
    for n := 0 to |rows|
      invariant GroupsOk(rows[..n], groups) && IndexesOk(groups, indexes)
    {
      var r := rows[n];
      NothingListed(rows[..n], groups, r.ip);
      var list, index := GroupRow(r, ListAt(groups, r.ip), IndexAt(indexes, r.ip), rows[..n]);
      GroupsStep(rows[..n], r, groups, list);
      assert rows[..n] + [r] == rows[..n + 1];
      groups, indexes := groups[r.ip := list], indexes[r.ip := index];
    }
    assert rows[..|rows|] == rows;
  }

  // ----- regrouping undoes the join

  /** The service's entry as the stored rows alone describe it. */
  ghost predicate Enriches(db: Db, subnet: SubnetId, ip: IpId, e: Enrichment) {
    && (exists a :: LinkedTo(db, subnet, ip, e.key, e.uid, a))
    && var src := db.sources[e.key];
       var svc := src.services[e.uid];
       && e.sourceName == src.name && e.info == svc.content.info && e.observedAt == svc.observedAt
       && NoDup(e.addresses) && NoDup(e.ports)
       && (forall x :: x in e.addresses
             <==> exists a :: LinkedTo(db, subnet, ip, e.key, e.uid, a) && a.addr == x.addr && a.kind == x.kind)
       && (forall p :: p in e.ports <==> p in DecodePorts(svc.content.ports))
  }

  function RowFor(db: Db, ip: IpId, k: string, u: Uid, a: AddressRow, port: Option<PortRow>): MatchRow
    requires k in db.sources && u in db.sources[k].services
  {
    var src := db.sources[k];
    MatchRow(ip, k, src.name, u, src.services[u].content.info, src.services[u].observedAt, a.addr, a.kind, port)
  }

  /** A linked address of an active service gives one row per port, or one row without a port. */
  lemma LinkGivesRow(db: Db, subnet: SubnetId, rows: seq<MatchRow>, ip: IpId, k: string, u: Uid, a: AddressRow,
                     port: Option<PortRow>)
    requires MatchQuery(db, subnet, rows) && LinkedTo(db, subnet, ip, k, u, a)
             && PortOf(db.sources[k].services[u], port)
    ensures RowFor(db, ip, k, u, a, port) in rows
  {
    assert IsMatchRow(db, subnet, RowFor(db, ip, k, u, a, port));
  }

  lemma AnyPort(s: Service) returns (port: Option<PortRow>)
    ensures PortOf(s, port)
  {
    port := if s.content.ports == [] then None else Some(s.content.ports[0]);
  }

  lemma EntryAddresses(db: Db, subnet: SubnetId, rows: seq<MatchRow>, ip: IpId, k: string, u: Uid, x: MatchedAddress)
    requires MatchQuery(db, subnet, rows)
    ensures x in AddressesOf(rows, ip, k, u)
            <==> exists a :: LinkedTo(db, subnet, ip, k, u, a) && a.addr == x.addr && a.kind == x.kind
  {
    AddressesOfRows(rows, ip, k, u, x);
    if i :| 0 <= i < |rows| && Of(rows[i], ip, k, u) && rows[i].addr == x.addr && rows[i].kind == x.kind {
      assert IsMatchRow(db, subnet, rows[i]);
    }
    if a :| LinkedTo(db, subnet, ip, k, u, a) && a.addr == x.addr && a.kind == x.kind {
      var port := AnyPort(db.sources[k].services[u]);
      LinkGivesRow(db, subnet, rows, ip, k, u, a, port);
      var i :| 0 <= i < |rows| && rows[i] == RowFor(db, ip, k, u, a, port);
      assert Of(rows[i], ip, k, u);
    }
  }

  lemma EntryPorts(db: Db, subnet: SubnetId, rows: seq<MatchRow>, ip: IpId, k: string, u: Uid, a: AddressRow, p: Port)
    requires MatchQuery(db, subnet, rows) && LinkedTo(db, subnet, ip, k, u, a)
    ensures p in PortsOf(rows, ip, k, u) <==> p in DecodePorts(db.sources[k].services[u].content.ports)
  {
    var stored := db.sources[k].services[u].content.ports;
    PortsOfRows(rows, ip, k, u, p);
    if i :| 0 <= i < |rows| && Of(rows[i], ip, k, u) && rows[i].port.Some? && DecodePort(rows[i].port.value) == p {
      assert IsMatchRow(db, subnet, rows[i]);
      var j :| 0 <= j < |stored| && stored[j] == rows[i].port.value;
      assert DecodePorts(stored)[j] == p;
    }
    if p in DecodePorts(stored) {
      var j :| 0 <= j < |stored| && DecodePorts(stored)[j] == p;
      LinkGivesRow(db, subnet, rows, ip, k, u, a, Some(stored[j]));
      var i :| 0 <= i < |rows| && rows[i] == RowFor(db, ip, k, u, a, Some(stored[j]));
      assert Of(rows[i], ip, k, u);
    }
  }

  lemma EntryEnriches(db: Db, subnet: SubnetId, rows: seq<MatchRow>, ip: IpId, e: Enrichment)
    requires MatchQuery(db, subnet, rows) && EntryOk(rows, ip, e)
    ensures Enriches(db, subnet, ip, e)
  {
    FirstOfRows(rows, ip, e.key, e.uid);
    var f := FirstOf(rows, ip, e.key, e.uid).value;
    assert IsMatchRow(db, subnet, f);
    var a :| LinkedTo(db, subnet, f.ip, f.key, f.uid, a) && a.addr == f.addr && a.kind == f.kind;
    AddressesOfRows(rows, ip, e.key, e.uid, MatchedAddress(f.addr, f.kind));
    PortsOfRows(rows, ip, e.key, e.uid, Port("", "", 0, "", "", None));
    forall x {
      EntryAddresses(db, subnet, rows, ip, e.key, e.uid, x);
    }
    forall p {
      EntryPorts(db, subnet, rows, ip, e.key, e.uid, a, p);
    }
  }

  /**
   * Whatever order the joined rows come in, the loop returns under each IP row exactly one
   * entry for each active service matched to it in the source's site, with exactly its
   * addresses linked to that row and exactly its ports, none twice.
   */
  lemma RegroupUndoesJoin(db: Db, subnet: SubnetId, rows: seq<MatchRow>, groups: Groups, ip: IpId, k: string, u: Uid)
    requires MatchQuery(db, subnet, rows) && GroupsOk(rows, groups)
    ensures (exists a :: LinkedTo(db, subnet, ip, k, u, a)) <==> PosOf(ListAt(groups, ip), k, u) >= 0
    ensures forall j :: 0 <= j < |ListAt(groups, ip)| ==> Enriches(db, subnet, ip, ListAt(groups, ip)[j])
    ensures forall i, j :: 0 <= i < j < |ListAt(groups, ip)| ==>
              !SameService(ListAt(groups, ip)[i], ListAt(groups, ip)[j])
  {
    var list := ListAt(groups, ip);
    NothingListed(rows, groups, ip);
    forall j | 0 <= j < |list|
      ensures Enriches(db, subnet, ip, list[j])
    {
      EntryEnriches(db, subnet, rows, ip, list[j]);
    }
    if a :| LinkedTo(db, subnet, ip, k, u, a) {
      var port := AnyPort(db.sources[k].services[u]);
      LinkGivesRow(db, subnet, rows, ip, k, u, a, port);
      FirstOfRows(rows, ip, k, u);
      assert Of(RowFor(db, ip, k, u, a, port), ip, k, u);
    }
  }

  /** The ports come back as the same multiset exactly when no two stored ports read alike. */
  lemma PortsExact(db: Db, subnet: SubnetId, ip: IpId, e: Enrichment)
    requires Enriches(db, subnet, ip, e)
    ensures multiset(e.ports) == multiset(DecodePorts(db.sources[e.key].services[e.uid].content.ports))
            <==> NoDup(DecodePorts(db.sources[e.key].services[e.uid].content.ports))
  {
    var stored := DecodePorts(db.sources[e.key].services[e.uid].content.ports);
    if NoDup(stored) {
      SameElements(e.ports, stored);
    } else {
      var i, j :| 0 <= i < j < |stored| && stored[i] == stored[j];
      WithoutOne(stored, i);
      assert (stored[..i] + stored[i + 1..])[j - 1] == stored[j];
      assert stored[j] in stored[..i] + stored[i + 1..];
      CountOnce(e.ports, stored[i]);
    }
  }
}
