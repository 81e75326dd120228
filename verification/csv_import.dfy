/**
 * The CSV importer: per-row validation, three write-through caches over the service calls,
 * and the loop over the file. Text parsing is a parameter.
 */
module CsvImport {
  import opened Wrappers
  import opened Addresses
  import opened Ipam
  import opened CsvUpsert

  const MAX_ROWS: nat := 100_000
  const MAX_FIELD_BYTES: nat := 4096
  const MAX_ROW_BYTES: nat := 16384

  /** The library functions the importer calls on text. */
  datatype Parser = Parser(trim: string -> string, prefix: string -> Option<Cidr>, addr: string -> Option<IpAddr>,
                           bytes: string -> nat)

  datatype Row = Malformed | Fields(fields: seq<string>)

  datatype Problem = MalformedRow | ColumnCount | FieldTooLong | RowTooLong | SiteRequired | InvalidCidr | InvalidIp
    | OutsideSubnet | ReservedIp | ServiceFailed(error: Error)

  // ----- validation

  function TotalBytes(p: Parser, fields: seq<string>): nat
    decreases |fields|
  {
    if fields == [] then 0 else TotalBytes(p, fields[..|fields| - 1]) + p.bytes(fields[|fields| - 1])
  }

  lemma BytesOfFour(p: Parser, fields: seq<string>)
    requires |fields| == 4
    ensures TotalBytes(p, fields) == p.bytes(fields[0]) + p.bytes(fields[1]) + p.bytes(fields[2]) + p.bytes(fields[3])
  {
    var three, two, one := fields[..3], fields[..2], fields[..1];
    assert three[..2] == two && two[..1] == one && one[..0] == [];
    assert TotalBytes(p, one) == p.bytes(fields[0]);
    assert TotalBytes(p, two) == p.bytes(fields[0]) + p.bytes(fields[1]);
  }

  /** The shape and size checks made before a row is looked at. */
  ghost function CheckRow(p: Parser, row: Row): Option<Problem> {
    if row.Malformed? then Some(MalformedRow)
    else if |row.fields| != 4 then Some(ColumnCount)
    else if exists i :: 0 <= i < 4 && p.bytes(row.fields[i]) > MAX_FIELD_BYTES then Some(FieldTooLong)
    else if TotalBytes(p, row.fields) > MAX_ROW_BYTES then Some(RowTooLong)
    else None
  }

  /** The entry a row means, or the first problem found in it. */
  function ParseFields(p: Parser, fields: seq<string>): (r: Result<Entry, Problem>)
    requires |fields| == 4
  {
    var site := p.trim(fields[0]);
    if site == "" then Err(SiteRequired)
    else
      var prefix := p.prefix(p.trim(fields[1]));
      if prefix.None? then Err(InvalidCidr)
      else
        var addr := p.addr(p.trim(fields[2]));
        if addr.None? then Err(InvalidIp)
        else
          match ValidateIPInSubnet(Masked(prefix.value), addr.value)
          case NotInSubnet => Err(OutsideSubnet)
          case NetworkOrBroadcast => Err(ReservedIp)
          case Usable => Ok(Entry(site, Masked(prefix.value), addr.value, fields[3]))
  }

  lemma ParsedIsValid(p: Parser, fields: seq<string>)
    requires |fields| == 4 && ParseFields(p, fields).Ok?
    ensures ValidEntry(ParseFields(p, fields).value)
  {
    MaskedSameVerdicts(p.prefix(p.trim(fields[1])).value, p.addr(p.trim(fields[2])).value);
  }

  /** Everything that can be wrong with a row before a service is called. */
  ghost function ParseRow(p: Parser, row: Row): Result<Entry, Problem> {
    var checked := CheckRow(p, row);
    if checked.Some? then Err(checked.value) else ParseFields(p, row.fields)
  }

  // ----- the reason of each refusal

  /** Some field has more than 4096 bytes. */
  ghost predicate LongField(p: Parser, fields: seq<string>) {
    exists f :: f in fields && p.bytes(f) > 4096
  }

  /** A row of four fields within the limits: each of at most 4096 bytes and 16384 together. */
  ghost predicate WellSized(p: Parser, row: Row) {
    row.Fields? && |row.fields| == 4 && !LongField(p, row.fields)
    && p.bytes(row.fields[0]) + p.bytes(row.fields[1]) + p.bytes(row.fields[2]) + p.bytes(row.fields[3]) <= 16384
  }

  /** The row is well sized, names a site, and its two texts parse as this prefix and this address. */
  ghost predicate Reads(p: Parser, row: Row, prefix: Cidr, addr: IpAddr) {
    WellSized(p, row) && p.trim(row.fields[0]) != ""
    && p.prefix(p.trim(row.fields[1])) == Some(prefix) && p.addr(p.trim(row.fields[2])) == Some(addr)
  }

  /** Exactly when a row is refused for which reason; the reasons exclude each other. */
  ghost predicate RefusedFor(p: Parser, row: Row, x: Problem) {
    match x
    case MalformedRow => row.Malformed?
    case ColumnCount => row.Fields? && |row.fields| != 4
    case FieldTooLong => row.Fields? && |row.fields| == 4 && LongField(p, row.fields)
    case RowTooLong => row.Fields? && |row.fields| == 4 && !LongField(p, row.fields) && !WellSized(p, row)
    case SiteRequired => WellSized(p, row) && p.trim(row.fields[0]) == ""
    case InvalidCidr => WellSized(p, row) && p.trim(row.fields[0]) != "" && p.prefix(p.trim(row.fields[1])) == None
    case InvalidIp => WellSized(p, row) && p.trim(row.fields[0]) != "" && p.prefix(p.trim(row.fields[1])) != None
                      && p.addr(p.trim(row.fields[2])) == None
    case OutsideSubnet =>
      exists prefix, addr :: Reads(p, row, prefix, addr) && forall low: nat :: !SameBlock(prefix, addr, low)
    case ReservedIp =>
      exists prefix, addr, low: nat ::
        Reads(p, row, prefix, addr) && addr.family.V4? && prefix.bits != 31
        && SameBlock(prefix, addr, low) && AtAnEnd(prefix, addr, low)
    case ServiceFailed(_) => false
  }

  /** A row is refused before any call exactly for these reasons. */
  lemma RefusedExactly(p: Parser, row: Row, x: Problem)
    ensures ParseRow(p, row) == Err(x) <==> RefusedFor(p, row, x)
  {
    if row.Fields? && |row.fields| == 4 {
      BytesOfFour(p, row.fields);
      LongFieldAt(p, row.fields);
      if p.prefix(p.trim(row.fields[1])).Some? && p.addr(p.trim(row.fields[2])).Some? {
        var prefix, addr := p.prefix(p.trim(row.fields[1])).value, p.addr(p.trim(row.fields[2])).value;
        if WellSized(p, row) && p.trim(row.fields[0]) != "" { RefusedAddress(p, row, prefix, addr, x); }
      }
    }
  }

  lemma RefusedAddress(p: Parser, row: Row, prefix: Cidr, addr: IpAddr, x: Problem)
    requires Reads(p, row, prefix, addr)
    ensures ParseFields(p, row.fields) == Err(x) <==> RefusedFor(p, row, x)
  {
    MaskedSameVerdicts(prefix, addr);
    match x
    case OutsideSubnet => OutsideRefusal(p, row, prefix, addr);
    case ReservedIp => ReservedRefusal(p, row, prefix, addr);
    case _ =>
  }

  lemma OutsideRefusal(p: Parser, row: Row, prefix: Cidr, addr: IpAddr)
    requires Reads(p, row, prefix, addr)
    ensures RefusedFor(p, row, OutsideSubnet) <==> ValidateIPInSubnet(prefix, addr) == NotInSubnet
  {
    VerdictExactly(prefix, addr);
  }

  lemma ReservedRefusal(p: Parser, row: Row, prefix: Cidr, addr: IpAddr)
    requires Reads(p, row, prefix, addr)
    ensures RefusedFor(p, row, ReservedIp) <==> ValidateIPInSubnet(prefix, addr) == NetworkOrBroadcast
  {
    VerdictExactly(prefix, addr);
    if ValidateIPInSubnet(prefix, addr) == NetworkOrBroadcast {
      var low: nat :| SameBlock(prefix, addr, low) && AtAnEnd(prefix, addr, low);
      assert Reads(p, row, prefix, addr) && SameBlock(prefix, addr, low);
    }
  }

  lemma LongFieldAt(p: Parser, fields: seq<string>)
    requires |fields| == 4
    ensures LongField(p, fields) <==> exists i :: 0 <= i < 4 && p.bytes(fields[i]) > MAX_FIELD_BYTES
  {
    if f :| f in fields && p.bytes(f) > 4096 {
      var i :| 0 <= i < 4 && fields[i] == f;
    }
    if i :| 0 <= i < 4 && p.bytes(fields[i]) > MAX_FIELD_BYTES {
      assert fields[i] in fields;
    }
  }

  /** An accepted row means its trimmed site, the masked prefix, the address and the description as it stands. */
  lemma AcceptedMeans(p: Parser, row: Row, e: Entry)
    requires ParseRow(p, row) == Ok(e)
    ensures exists prefix ::
              && Reads(p, row, prefix, e.addr) && e.site == p.trim(row.fields[0]) && e.description == row.fields[3]
              && e.cidr.bits == prefix.bits && e.cidr.addr.family == prefix.addr.family
              && SameBlock(prefix, e.addr, e.cidr.addr.value)
  {
    BytesOfFour(p, row.fields);
    LongFieldAt(p, row.fields);
    var prefix := p.prefix(p.trim(row.fields[1])).value;
    VerdictExactly(prefix, e.addr);
    MaskedSameVerdicts(prefix, e.addr);
    AlignAligned(prefix.addr.value, Size(prefix));
    ContainsIsRange(prefix, e.addr);
    assert Reads(p, row, prefix, e.addr);
  }

  // ----- the services over one store

  datatype IpRecord = IpRecord(id: IpId, addr: IpAddr, hostname: string)

  /** The store behind the site and network services; nobody else writes to it. */
  class Store {
    var t: Tables

    constructor (t: Tables)
      ensures this.t == t
    {
      this.t := t;
    }

    /** One writing call: an outage changes nothing, otherwise it does what the service does. */
    method Execute(op: Op, down: bool) returns (r: Result<(), Error>)
      modifies this
      ensures match Call(old(t), op, down)
              case Ok(t') => r == Ok(()) && t == t'
              case Err(x) => r == Err(x) && t == old(t)
    {
      if down {
        return Err(DatabaseError);
      }
      match Exec(t, op)
      case Ok(t') =>
        t := t';
        return Ok(());
      case Err(x) =>
        return Err(x);
    }

    /** The IP rows of a subnet, each once. */
    method ListIps(subnet: SubnetId, down: bool) returns (r: Result<seq<IpRecord>, Error>)
      requires Inv(t) && subnet in t.subnets
      ensures down ==> r == Err(DatabaseError)
      ensures !down ==> r.Ok? && IsListOf(t, subnet, r.value)
    {
      if down {
        return Err(DatabaseError);
      }
      var ips: seq<IpRecord> := [];
      for i := 0 to t.nextIp
        invariant ListsBelow(t, subnet, ips, i)
      {
        ListsBelowStep(t, subnet, ips, i);
        if i in t.ips && t.ips[i].subnet == subnet {
          ips := ips + [IpRecord(i, t.ips[i].addr, t.ips[i].hostname)];
        }
      }
      return Ok(ips);
    }
  }

  ghost predicate RecordOf(t: Tables, subnet: SubnetId, e: IpRecord) {
    e.id in t.ips && t.ips[e.id] == Ip(e.addr, e.hostname, subnet)
  }

  ghost predicate ListsBelow(t: Tables, subnet: SubnetId, list: seq<IpRecord>, bound: nat) {
    && (forall j :: 0 <= j < |list| ==> RecordOf(t, subnet, list[j]) && list[j].id < bound)
    && (forall j, k :: 0 <= j < k < |list| ==> list[j].id != list[k].id)
    && (forall i :: i in t.ips && i < bound && t.ips[i].subnet == subnet ==>
          exists j :: 0 <= j < |list| && list[j].id == i)
  }

  lemma ListsBelowStep(t: Tables, subnet: SubnetId, list: seq<IpRecord>, i: IpId)
    requires ListsBelow(t, subnet, list, i)
    ensures if i in t.ips && t.ips[i].subnet == subnet
            then ListsBelow(t, subnet, list + [IpRecord(i, t.ips[i].addr, t.ips[i].hostname)], i + 1)
            else ListsBelow(t, subnet, list, i + 1)
  {
    if i in t.ips && t.ips[i].subnet == subnet {
      var list' := list + [IpRecord(i, t.ips[i].addr, t.ips[i].hostname)];
      forall x | x in t.ips && x < i + 1 && t.ips[x].subnet == subnet
        ensures exists j :: 0 <= j < |list'| && list'[j].id == x
      {
        if x == i {
          assert list'[|list|].id == x;
        } else {
          var j :| 0 <= j < |list| && list[j].id == x;
          assert list'[j].id == x;
        }
      }
    }
  }

  /** The list holds exactly the subnet's IP rows. */
  ghost predicate IsListOf(t: Tables, subnet: SubnetId, list: seq<IpRecord>) {
    ListsBelow(t, subnet, list, t.nextIp)
  }

  // ----- the caches

  type Key = (SiteId, Cidr)

  ghost predicate SitesCached(t: Tables, m: map<string, SiteId>) {
    && (forall n :: n in m ==> m[n] in t.sites && t.sites[m[n]] == n)
    && (forall s :: s in t.sites ==> t.sites[s] in m)
  }

  ghost predicate SubnetsCached(t: Tables, m: map<Key, SubnetId>) {
    && (forall k :: k in m ==> Latest(t, k.0, k.1, m[k]))
    && (forall n :: n in t.subnets && t.subnets[n].site.Some? ==> (t.subnets[n].site.value, t.subnets[n].cidr) in m)
  }

  ghost predicate IpsCached(t: Tables, m: map<SubnetId, seq<IpRecord>>) {
    forall n :: n in m ==> n in t.subnets && IsListOf(t, n, m[n])
  }

  class Caches {
    var siteByName: map<string, SiteId>
    var subnetByKey: map<Key, SubnetId>
    var ipsBySubnet: map<SubnetId, seq<IpRecord>>

    /** The caches agree with the store: all sites, all (site, CIDR) keys, every loaded list. */
    ghost predicate Agree(t: Tables)
      reads this
    {
      SitesCached(t, siteByName) && SubnetsCached(t, subnetByKey) && IpsCached(t, ipsBySubnet)
    }

    constructor (t: Tables)
      requires Inv(t)
      ensures Agree(t) && ipsBySubnet == map[]
    {
      var sites := LoadSites(t);
      var subnets := LoadSubnets(t);
      siteByName, subnetByKey, ipsBySubnet := sites, subnets, map[];
    }
  }

  method LoadSites(t: Tables) returns (m: map<string, SiteId>)
    requires Inv(t)
    ensures SitesCached(t, m)
  {
    m := map[];
    for s := 0 to t.nextSite
      invariant forall n :: n in m ==> m[n] in t.sites && t.sites[m[n]] == n
      invariant forall x :: x in t.sites && x < s ==> t.sites[x] in m
    {
      if s in t.sites {
        m := m[t.sites[s] := s];
      }
    }
  }

  ghost predicate LoadedBelow(t: Tables, m: map<Key, SubnetId>, bound: nat) {
    && (forall k :: k in m ==> m[k] < bound && LatestBelow(t, k.0, k.1, m[k], bound))
    && (forall n :: n in t.subnets && n < bound && t.subnets[n].site.Some? ==>
          (t.subnets[n].site.value, t.subnets[n].cidr) in m)
  }

  ghost predicate LatestBelow(t: Tables, site: SiteId, cidr: Cidr, n: SubnetId, bound: nat) {
    && n in t.subnets && t.subnets[n] == Subnet(cidr, Some(site))
    && forall m :: m in t.subnets && m < bound && t.subnets[m] == Subnet(cidr, Some(site)) ==> m <= n
  }

  lemma LoadStep(t: Tables, m: map<Key, SubnetId>, n: SubnetId)
    requires LoadedBelow(t, m, n)
    ensures var m' := if n in t.subnets && t.subnets[n].site.Some?
                      then m[(t.subnets[n].site.value, t.subnets[n].cidr) := n] else m;
            LoadedBelow(t, m', n + 1)
  {
    var m' := if n in t.subnets && t.subnets[n].site.Some?
              then m[(t.subnets[n].site.value, t.subnets[n].cidr) := n] else m;
    forall k | k in m'
      ensures m'[k] < n + 1 && LatestBelow(t, k.0, k.1, m'[k], n + 1)
    {
      if k in m {
        assert LatestBelow(t, k.0, k.1, m[k], n);
      }
    }
  }

  /** Subnets come in key order, so of several with one (site, CIDR) the last stays. */
  method LoadSubnets(t: Tables) returns (m: map<Key, SubnetId>)
    requires Inv(t)
    ensures SubnetsCached(t, m)
  {
    m := map[];
    for n := 0 to t.nextSubnet
      invariant LoadedBelow(t, m, n)
    {
      LoadStep(t, m, n);
      if n in t.subnets && t.subnets[n].site.Some? {
        m := m[(t.subnets[n].site.value, t.subnets[n].cidr) := n];
      }
    }
    forall k | k in m
      ensures Latest(t, k.0, k.1, m[k])
    {
      assert LatestBelow(t, k.0, k.1, m[k], t.nextSubnet);
    }
  }

  // ----- how the writes of a row move the caches

  lemma NewSiteCached(t: Tables, m: map<string, SiteId>, name: string)
    requires Inv(t) && SitesCached(t, m) && name !in m
    ensures Exec(t, CreateSite(name)).Ok?
    ensures var t' := After(t, CreateSite(name)); SitesCached(t', m[name := t.nextSite])
  {
    assert !NameTaken(t, name);
  }

  lemma NewSubnetCached(t: Tables, m: map<Key, SubnetId>, site: SiteId, cidr: Cidr)
    requires Inv(t) && SubnetsCached(t, m) && site in t.sites && IsMasked(cidr) && (site, cidr) !in m
    ensures Exec(t, CreateSubnet(cidr, Some(site))).Ok?
    ensures var t' := After(t, CreateSubnet(cidr, Some(site))); SubnetsCached(t', m[(site, cidr) := t.nextSubnet])
  {
    var t' := After(t, CreateSubnet(cidr, Some(site)));
    var m' := m[(site, cidr) := t.nextSubnet];
    forall k | k in m'
      ensures Latest(t', k.0, k.1, m'[k])
    {
      if k != (site, cidr) {
        assert Latest(t, k.0, k.1, m[k]);
      } else {
        assert forall n :: n in t'.subnets ==> n <= t.nextSubnet;
      }
    }
  }

  /** Lists of other subnets do not see a write to this subnet's rows. */
  lemma OtherListsStay(t: Tables, t': Tables, m: map<SubnetId, seq<IpRecord>>, n: SubnetId)
    requires Inv(t) && IpsCached(t, m) && t'.subnets == t.subnets && t.nextIp <= t'.nextIp
    requires forall i :: i in t.ips && t.ips[i].subnet != n ==> i in t'.ips && t'.ips[i] == t.ips[i]
    requires forall i :: i in t'.ips && t'.ips[i].subnet != n ==> i in t.ips
    requires forall i :: i in t.ips && i in t'.ips ==> t'.ips[i].subnet == t.ips[i].subnet
    ensures forall k :: k in m && k != n ==> IsListOf(t', k, m[k])
  {
    forall k | k in m && k != n
      ensures IsListOf(t', k, m[k])
    {
      assert IsListOf(t, k, m[k]);
      assert forall j :: 0 <= j < |m[k]| ==> RecordOf(t, k, m[k][j]);
    }
  }

  /** The list keeps its ids, so it still covers the subnet's rows. */
  lemma SameIdsCover(t: Tables, t': Tables, n: SubnetId, list: seq<IpRecord>, list': seq<IpRecord>)
    requires IsListOf(t, n, list) && |list'| == |list| && t'.nextIp == t.nextIp
    requires forall k :: 0 <= k < |list| ==> list'[k].id == list[k].id
    requires forall i :: i in t'.ips && t'.ips[i].subnet == n ==> i in t.ips && t.ips[i].subnet == n
    ensures forall i :: i in t'.ips && i < t'.nextIp && t'.ips[i].subnet == n ==>
              exists k :: 0 <= k < |list'| && list'[k].id == i
  {
    forall i | i in t'.ips && i < t'.nextIp && t'.ips[i].subnet == n
      ensures exists k :: 0 <= k < |list'| && list'[k].id == i
    {
      var k :| 0 <= k < |list| && list[k].id == i;
      assert list'[k].id == i;
    }
  }

  lemma UpdatedListOf(t: Tables, n: SubnetId, list: seq<IpRecord>, j: nat, hostname: string)
    requires Inv(t) && IsListOf(t, n, list) && j < |list|
    requires Exec(t, UpdateIpHostname(n, list[j].id, hostname)).Ok?
    ensures IsListOf(After(t, UpdateIpHostname(n, list[j].id, hostname)), n, list[j := list[j].(hostname := hostname)])
  {
    var t', list' := After(t, UpdateIpHostname(n, list[j].id, hostname)), list[j := list[j].(hostname := hostname)];
    forall k | 0 <= k < |list'|
      ensures RecordOf(t', n, list'[k]) && list'[k].id < t'.nextIp
    {
      assert RecordOf(t, n, list[k]);
      assert k != j ==> list[k].id != list[j].id;
    }
    SameIdsCover(t, t', n, list, list');
  }

  lemma ExtendedListOf(t: Tables, n: SubnetId, list: seq<IpRecord>, addr: IpAddr, hostname: string)
    requires Inv(t) && IsListOf(t, n, list) && Exec(t, CreateIp(n, addr, hostname)).Ok?
    ensures IsListOf(After(t, CreateIp(n, addr, hostname)), n, list + [IpRecord(t.nextIp, addr, hostname)])
  {
    var t', list' := After(t, CreateIp(n, addr, hostname)), list + [IpRecord(t.nextIp, addr, hostname)];
    forall k | 0 <= k < |list'|
      ensures RecordOf(t', n, list'[k]) && list'[k].id < t'.nextIp
    {
      assert k < |list| ==> RecordOf(t, n, list[k]);
    }
    forall i | i in t'.ips && i < t'.nextIp && t'.ips[i].subnet == n
      ensures exists k :: 0 <= k < |list'| && list'[k].id == i
    {
      if i == t.nextIp {
        assert list'[|list|].id == i;
      } else {
        var k :| 0 <= k < |list| && list[k].id == i;
        assert list'[k].id == i;
      }
    }
  }

  /** Creating a site or a subnet leaves every list and the other cache as they were. */
  lemma ListsStay(t: Tables, t': Tables, m: map<SubnetId, seq<IpRecord>>)
    requires IpsCached(t, m) && t'.ips == t.ips && t'.nextIp == t.nextIp
    requires forall n :: n in t.subnets ==> n in t'.subnets
    ensures IpsCached(t', m)
  {
    forall n | n in m
      ensures IsListOf(t', n, m[n])
    {
      assert IsListOf(t, n, m[n]);
    }
  }

  // ----- one row through the caches

  method CachedSite(store: Store, caches: Caches, name: string, down: bool) returns (r: Result<SiteId, Error>)
    requires Inv(store.t) && caches.Agree(store.t)
    modifies store, caches`siteByName
    ensures match EnsureSite(old(store.t), name, down)
            case Ok((t', s)) => r == Ok(s) && store.t == t' && Inv(t') && s in t'.sites
            case Err(x) => r == Err(x) && store.t == old(store.t)
    ensures caches.Agree(store.t)
  {
    if name in caches.siteByName {
      return Ok(caches.siteByName[name]);
    }
    assert SiteNamed(store.t, name).None?;
    EnsureSiteOk(store.t, name, down);
    NewSiteCached(store.t, caches.siteByName, name);
    var id := store.t.nextSite;
    var made := store.Execute(CreateSite(name), down);
    if made.Err? {
      return Err(made.error);
    }
    caches.siteByName := caches.siteByName[name := id];
    return Ok(id);
  }

  method CachedSubnet(store: Store, caches: Caches, site: SiteId, cidr: Cidr, down: bool)
    returns (r: Result<SubnetId, Error>)
    requires Inv(store.t) && caches.Agree(store.t) && site in store.t.sites && IsMasked(cidr)
    modifies store, caches`subnetByKey
    ensures match EnsureSubnet(old(store.t), site, cidr, down)
            case Ok((t', n)) => r == Ok(n) && store.t == t' && Inv(t') && n in t'.subnets && t'.subnets[n].cidr == cidr
            case Err(x) => r == Err(x) && store.t == old(store.t)
    ensures caches.Agree(store.t)
  {
    EnsureSubnetOk(store.t, site, cidr, down);
    if (site, cidr) in caches.subnetByKey {
      LatestUnique(store.t, site, cidr, caches.subnetByKey[(site, cidr)]);
      return Ok(caches.subnetByKey[(site, cidr)]);
    }
    assert LatestSubnet(store.t, site, cidr).None?;
    NewSubnetCached(store.t, caches.subnetByKey, site, cidr);
    ListsStay(store.t, After(store.t, CreateSubnet(cidr, Some(site))), caches.ipsBySubnet);
    var id := store.t.nextSubnet;
    var made := store.Execute(CreateSubnet(cidr, Some(site)), down);
    if made.Err? {
      return Err(made.error);
    }
    caches.subnetByKey := caches.subnetByKey[(site, cidr) := id];
    return Ok(id);
  }

  /** The position of the address in the list, or the list's length. */
  method FindAddress(list: seq<IpRecord>, addr: IpAddr) returns (j: nat)
    ensures j <= |list| && (j < |list| ==> list[j].addr == addr)
    ensures j == |list| ==> forall k :: 0 <= k < |list| ==> list[k].addr != addr
  {
    for i := 0 to |list|
      invariant forall k :: 0 <= k < i ==> list[k].addr != addr
    {
      if list[i].addr == addr {
        return i;
      }
    }
    return |list|;
  }

  lemma FoundInList(t: Tables, n: SubnetId, list: seq<IpRecord>, addr: IpAddr, j: nat)
    requires Inv(t) && IsListOf(t, n, list)
    requires j <= |list| && (j < |list| ==> list[j].addr == addr)
    requires j == |list| ==> forall k :: 0 <= k < |list| ==> list[k].addr != addr
    ensures IpAt(t, n, addr) == if j < |list| then Some(list[j].id) else None
    ensures j < |list| ==> list[j].id in t.ips && t.ips[list[j].id].hostname == list[j].hostname
  {
    if j < |list| {
      assert RecordOf(t, n, list[j]);
    } else {
      assert forall k :: 0 <= k < |list| ==> RecordOf(t, n, list[k]);
    }
  }

  /** The subnet's rows, from the cache if they were loaded before. */
  method LoadIps(store: Store, caches: Caches, subnet: SubnetId, down: bool) returns (r: Result<seq<IpRecord>, Error>)
    requires Inv(store.t) && caches.Agree(store.t) && subnet in store.t.subnets
    ensures if down && subnet !in caches.ipsBySubnet then r == Err(DatabaseError)
            else r.Ok? && IsListOf(store.t, subnet, r.value)
  {
    if subnet in caches.ipsBySubnet {
      return Ok(caches.ipsBySubnet[subnet]);
    }
    r := store.ListIps(subnet, down);
  }

  /** What the cache-free step does, told from the position of the address in the subnet's list. */
  lemma PutByPosition(t: Tables, subnet: SubnetId, addr: IpAddr, description: string, o: Outages, ips: seq<IpRecord>,
                      j: nat)
    requires Inv(t) && IsListOf(t, subnet, ips) && !o.listIps
    requires j <= |ips| && (j < |ips| ==> ips[j].addr == addr)
    requires j == |ips| ==> forall k :: 0 <= k < |ips| ==> ips[k].addr != addr
    ensures PutIp(t, subnet, addr, description, o) ==
            if j == |ips| then CreatedStep(t, subnet, addr, description, o.createIp)
            else if ips[j].hostname == description then Step(t, Ok(Unchanged))
            else RenamedStep(t, subnet, ips[j].id, description, o.updateIp)
  {
    FoundInList(t, subnet, ips, addr, j);
  }

  /** Keeps a loaded list for the rows to come. */
  method Remember(store: Store, caches: Caches, subnet: SubnetId, ips: seq<IpRecord>)
    requires caches.Agree(store.t) && subnet in store.t.subnets && IsListOf(store.t, subnet, ips)
    modifies caches`ipsBySubnet
    ensures caches.Agree(store.t)
  {
    caches.ipsBySubnet := caches.ipsBySubnet[subnet := ips];
  }

  /** Finds, updates or creates the IP row. */
  method CachedIp(store: Store, caches: Caches, subnet: SubnetId, addr: IpAddr, description: string, o: Outages)
    returns (r: Result<Outcome, Error>)
    requires Inv(store.t) && caches.Agree(store.t) && subnet in store.t.subnets
    modifies store, caches`ipsBySubnet
    ensures PutIp(old(store.t), subnet, addr, description,
                  o.(listIps := o.listIps && subnet !in old(caches.ipsBySubnet))) == Step(store.t, r)
    ensures caches.Agree(store.t)
  {
    var loaded := LoadIps(store, caches, subnet, o.listIps);
    if loaded.Err? {
      return Err(loaded.error);
    }
    var ips := loaded.value;
    var j := FindAddress(ips, addr);
    PutByPosition(store.t, subnet, addr, description, o.(listIps := false), ips, j);
    if j == |ips| {
      r := Create(store, caches, subnet, ips, addr, description, o.createIp);
    } else if ips[j].hostname != description {
      r := Rename(store, caches, subnet, ips, j, description, o.updateIp);
    } else {
      Remember(store, caches, subnet, ips);
      r := Ok(Unchanged);
    }
  }

  method Rename(store: Store, caches: Caches, subnet: SubnetId, ips: seq<IpRecord>, j: nat, description: string,
                down: bool)
    returns (r: Result<Outcome, Error>)
    requires Inv(store.t) && caches.Agree(store.t) && IsListOf(store.t, subnet, ips) && subnet in store.t.subnets
             && j < |ips|
    modifies store, caches`ipsBySubnet
    ensures Step(store.t, r) == RenamedStep(old(store.t), subnet, ips[j].id, description, down)
    ensures caches.Agree(store.t)
  {
    ghost var before := store.t;
    assert RecordOf(before, subnet, ips[j]);
    var updated := store.Execute(UpdateIpHostname(subnet, ips[j].id, description), down);
    if updated.Err? {
      return Err(updated.error);
    }
    UpdatedListOf(before, subnet, ips, j, description);
    OtherListsStay(before, store.t, caches.ipsBySubnet, subnet);
    caches.ipsBySubnet := caches.ipsBySubnet[subnet := ips[j := ips[j].(hostname := description)]];
    return Ok(Updated);
  }

  method Create(store: Store, caches: Caches, subnet: SubnetId, ips: seq<IpRecord>, addr: IpAddr,
                description: string, down: bool)
    returns (r: Result<Outcome, Error>)
    requires Inv(store.t) && caches.Agree(store.t) && IsListOf(store.t, subnet, ips)
    modifies store, caches`ipsBySubnet
    ensures Step(store.t, r) == CreatedStep(old(store.t), subnet, addr, description, down)
    ensures caches.Agree(store.t)
  {
    ghost var before := store.t;
    var id := store.t.nextIp;
    var created := store.Execute(CreateIp(subnet, addr, description), down);
    if created.Err? {
      return Err(created.error);
    }
    ExtendedListOf(before, subnet, ips, addr, description);
    OtherListsStay(before, store.t, caches.ipsBySubnet, subnet);
    caches.ipsBySubnet := caches.ipsBySubnet[subnet := ips + [IpRecord(id, addr, description)]];
    return Ok(Created);
  }

  // ----- the row

  /** The outages that matter: a list that is already loaded is not asked for again. */
  ghost predicate Weaker(effective: Outages, o: Outages) {
    effective == o || effective == o.(listIps := false)
  }

  /** What the row does to the tables, and what becomes of it. */
  datatype RowStep = RowStep(tables: Tables, outcome: Result<Outcome, Problem>)

  ghost function RowSpec(p: Parser, t: Tables, row: Row, o: Outages): RowStep {
    match ParseRow(p, row)
    case Err(x) => RowStep(t, Err(x))
    case Ok(e) =>
      var s := UpsertEntry(t, e, o);
      RowStep(s.tables, if s.outcome.Ok? then Ok(s.outcome.value) else Err(ServiceFailed(s.outcome.error)))
  }

  /** Once site and subnet are there, the upsert is its last step. */
  lemma UpsertIsPut(t: Tables, e: Entry, o: Outages, t1: Tables, site: SiteId, t2: Tables, subnet: SubnetId)
    requires EnsureSite(t, e.site, o.createSite) == Ok((t1, site))
             && EnsureSubnet(t1, site, e.cidr, o.createSubnet) == Ok((t2, subnet))
    ensures UpsertEntry(t, e, o) == PutIp(t2, subnet, e.addr, e.description, o)
  {
  }

  /** The store stays sound, whichever of the outages count. */
  lemma UpsertKeepsInv(t: Tables, e: Entry, o: Outages)
    requires Inv(t) && ValidEntry(e)
    ensures Inv(UpsertEntry(t, e, o).tables)
  {
    OnlyOutagesFail(t, e, o);
  }

  method ImportEntry(store: Store, caches: Caches, e: Entry, o: Outages)
    returns (r: Result<Outcome, Error>, ghost effective: Outages)
    requires Inv(store.t) && caches.Agree(store.t) && ValidEntry(e)
    modifies store, caches
    ensures Weaker(effective, o) && UpsertEntry(old(store.t), e, effective) == Step(store.t, r)
    ensures Inv(store.t) && caches.Agree(store.t)
  {
    effective := o;
    var site := CachedSite(store, caches, e.site, o.createSite);
    if site.Err? {
      return Err(site.error), effective;
    }
    ghost var t1 := store.t;
    var subnet := CachedSubnet(store, caches, site.value, e.cidr, o.createSubnet);
    UpsertKeepsInv(old(store.t), e, o);
    if subnet.Err? {
      return Err(subnet.error), effective;
    }
    ghost var t2 := store.t;
    effective := o.(listIps := o.listIps && subnet.value !in caches.ipsBySubnet);
    UpsertIsPut(old(store.t), e, effective, t1, site.value, t2, subnet.value);
    UpsertKeepsInv(old(store.t), e, effective);
    r := CachedIp(store, caches, subnet.value, e.addr, e.description, o);
  }

  /** Validates the row's fields and imports the entry they mean. */
  method ImportRow(store: Store, caches: Caches, p: Parser, fields: seq<string>, o: Outages)
    returns (r: Result<Outcome, Problem>, ghost effective: Outages)
    requires |fields| == 4 && Inv(store.t) && caches.Agree(store.t)
    modifies store, caches
    ensures Weaker(effective, o)
    ensures match ParseFields(p, fields)
            case Err(x) => r == Err(x) && store.t == old(store.t)
            case Ok(e) =>
              var s := UpsertEntry(old(store.t), e, effective);
              store.t == s.tables
                && r == if s.outcome.Ok? then Ok(s.outcome.value) else Err(ServiceFailed(s.outcome.error))
    ensures Inv(store.t) && caches.Agree(store.t)
  {
    effective := o;
    var parsed := ParseFields(p, fields);
    if parsed.Err? {
      return Err(parsed.error), effective;
    }
    ParsedIsValid(p, fields);
    var imported;
    imported, effective := ImportEntry(store, caches, parsed.value, o);
    if imported.Err? {
      return Err(ServiceFailed(imported.error)), effective;
    }
    return Ok(imported.value), effective;
  }

  method CheckLimits(p: Parser, row: Row) returns (problem: Option<Problem>)
    ensures problem == CheckRow(p, row)
  {
    if row.Malformed? {
      return Some(MalformedRow);
    }
    if |row.fields| != 4 {
      return Some(ColumnCount);
    }
    var total := 0;
    for i := 0 to 4
      invariant total == TotalBytes(p, row.fields[..i])
      invariant forall j :: 0 <= j < i ==> p.bytes(row.fields[j]) <= MAX_FIELD_BYTES
    {
      if p.bytes(row.fields[i]) > MAX_FIELD_BYTES {
        return Some(FieldTooLong);
      }
      total := total + p.bytes(row.fields[i]);
      assert row.fields[..i + 1][..i] == row.fields[..i];
    }
    assert row.fields[..4] == row.fields;
    return if total > MAX_ROW_BYTES then Some(RowTooLong) else None;
  }

  // ----- the file

  datatype RowError = RowError(row: nat, problem: Problem)

  datatype ImportResult = ImportResult(processed: nat, created: nat, updated: nat, failed: nat, errors: seq<RowError>)

  /** The tables after the rows, and the outcome of each. */
  ghost function RowsSpec(p: Parser, t: Tables, rows: seq<Row>, os: seq<Outages>)
    : (r: (Tables, seq<Result<Outcome, Problem>>))
    requires |os| == |rows|
    ensures |r.1| == |rows|
    decreases |rows|
  {
    if rows == [] then (t, [])
    else
      var k := |rows| - 1;
      var (t1, outcomes) := RowsSpec(p, t, rows[..k], os[..k]);
      var s := RowSpec(p, t1, rows[k], os[k]);
      (s.tables, outcomes + [s.outcome])
  }

  function CountOutcome(outcomes: seq<Result<Outcome, Problem>>, x: Outcome): nat
    decreases |outcomes|
  {
    if outcomes == [] then 0
    else CountOutcome(outcomes[..|outcomes| - 1], x) + if outcomes[|outcomes| - 1] == Ok(x) then 1 else 0
  }

  /** Rows are numbered from 2: the header is row 1. */
  function ErrorsOf(outcomes: seq<Result<Outcome, Problem>>): seq<RowError>
    decreases |outcomes|
  {
    if outcomes == [] then []
    else
      var k := |outcomes| - 1;
      ErrorsOf(outcomes[..k]) + if outcomes[k].Err? then [RowError(k + 2, outcomes[k].error)] else []
  }

  function Summary(outcomes: seq<Result<Outcome, Problem>>): ImportResult {
    ImportResult(|outcomes|, CountOutcome(outcomes, Created), CountOutcome(outcomes, Updated), |ErrorsOf(outcomes)|,
                 ErrorsOf(outcomes))
  }

  /** The counters account for every row, and the error rows strictly increase within 2..processed+1. */
  lemma {:induction false} SummaryAccounts(outcomes: seq<Result<Outcome, Problem>>)
    ensures var r := Summary(outcomes);
            && r.processed == r.created + r.updated + r.failed + CountOutcome(outcomes, Unchanged)
            && r.failed == |r.errors|
            && (forall i :: 0 <= i < |r.errors| ==> 2 <= r.errors[i].row <= r.processed + 1)
            && (forall i, j :: 0 <= i < j < |r.errors| ==> r.errors[i].row < r.errors[j].row)
    decreases |outcomes|
  {
    if outcomes != [] {
      var k := |outcomes| - 1;
      SummaryAccounts(outcomes[..k]);
      assert forall x :: CountOutcome(outcomes, x) ==
                           CountOutcome(outcomes[..k], x) + if outcomes[k] == Ok(x) then 1 else 0;
      if outcomes[k].Ok? {
        match outcomes[k].value
        case Created =>
        case Updated =>
        case Unchanged =>
      }
    }
  }

  datatype FileProblem = BadHeader | ServiceDown | TooManyRows | TooLarge

  const HEADER: seq<string> := ["site", "cidr", "ip", "description"]

  function Limited(rows: seq<Row>): seq<Row> {
    if |rows| > MAX_ROWS then rows[..MAX_ROWS] else rows
  }

  /**
   * Imports a file. Every row within the limit is the cache-free upsert of that row, whatever
   * the caches hold, with the outages it meets; the result counts the rows. A file that is too
   * long or too large is an error although its rows within the limit have been imported.
   */
  method ImportCSV(store: Store, p: Parser, header: Option<seq<string>>, rows: seq<Row>, oversize: bool,
                   listDown: bool, os: seq<Outages>)
    returns (r: Result<ImportResult, FileProblem>, ghost effective: seq<Outages>)
    requires Inv(store.t) && |os| == |rows|
    modifies store
    ensures Inv(store.t)
    ensures header != Some(["site", "cidr", "ip", "description"]) ==> r == Err(BadHeader) && store.t == old(store.t)
    ensures header == Some(HEADER) && listDown ==> r == Err(ServiceDown) && store.t == old(store.t)
    ensures header == Some(HEADER) && !listDown ==>
              FileImported(p, old(store.t), rows, os, oversize, effective, store.t, r)
    ensures r.Ok? ==> r.value.processed == |rows| <= 100_000
    ensures r.Ok? ==> r.value.created == |store.t.ips| - |old(store.t).ips|
  {
    effective := [];
    if header != Some(HEADER) {
      return Err(BadHeader), effective;
    }
    if listDown {
      return Err(ServiceDown), effective;
    }
    var caches := new Caches(store.t);
    ghost var before := store.t;
    var result;
    result, effective := ImportRows(store, caches, p, Limited(rows), os[..|Limited(rows)|]);
    CreatedIsGrowth(p, before, Limited(rows), effective);
    FileIsImported(p, before, rows, os, oversize, effective, store.t, result);
    if |rows| > MAX_ROWS {
      return Err(TooManyRows), effective;
    }
    return if oversize then Err(TooLarge) else Ok(result), effective;
  }

  /** The rows up to the 100000th led from start to t with these outages, and the file's result says so. */
  ghost predicate FileImported(p: Parser, start: Tables, rows: seq<Row>, os: seq<Outages>, oversize: bool,
                               effective: seq<Outages>, t: Tables, r: Result<ImportResult, FileProblem>)
    requires |os| == |rows|
  {
    var n := if |rows| > 100_000 then 100_000 else |rows|;
    && AllWeaker(effective, os[..n])
    && t == RowsSpec(p, start, rows[..n], effective).0
    && r == if |rows| > 100_000 then Err(TooManyRows)
            else if oversize then Err(TooLarge) else Ok(Summary(RowsSpec(p, start, rows[..n], effective).1))
  }

  lemma FileIsImported(p: Parser, start: Tables, rows: seq<Row>, os: seq<Outages>, oversize: bool,
                       effective: seq<Outages>, t: Tables, result: ImportResult)
    requires |os| == |rows| && AllWeaker(effective, os[..|Limited(rows)|])
    requires RowsSpec(p, start, Limited(rows), effective).0 == t
    requires result == Summary(RowsSpec(p, start, Limited(rows), effective).1)
    ensures FileImported(p, start, rows, os, oversize, effective, t,
                         if |rows| > 100_000 then Err(TooManyRows) else if oversize then Err(TooLarge) else Ok(result))
  {
    assert |rows| <= 100_000 ==> rows[..|rows|] == rows;
  }

  /** The first i rows have led from start to t with these outages and this result. */
  ghost predicate Imported(p: Parser, start: Tables, rows: seq<Row>, os: seq<Outages>, i: nat,
                           effective: seq<Outages>, t: Tables, result: ImportResult)
    requires i <= |rows| == |os|
  {
    && AllWeaker(effective, os[..i])
    && RowsSpec(p, start, rows[..i], effective).0 == t && result == Summary(RowsSpec(p, start, rows[..i], effective).1)
  }

  lemma ImportedStep(p: Parser, start: Tables, rows: seq<Row>, os: seq<Outages>, i: nat, effective: seq<Outages>,
                     t: Tables, result: ImportResult, e: Outages)
    requires i < |rows| == |os| && Imported(p, start, rows, os, i, effective, t, result) && Weaker(e, os[i])
    ensures var s := RowSpec(p, t, rows[i], e);
            Imported(p, start, rows, os, i + 1, effective + [e], s.tables, Tally(result, s.outcome))
  {
    WeakerSnoc(effective, os, i, e);
    RowsSpecStep(p, start, rows, effective, i, e);
  }

  ghost predicate AllWeaker(effective: seq<Outages>, os: seq<Outages>) {
    |effective| == |os| && forall j :: 0 <= j < |os| ==> Weaker(effective[j], os[j])
  }

  lemma WeakerSnoc(effective: seq<Outages>, os: seq<Outages>, i: nat, e: Outages)
    requires i < |os| && AllWeaker(effective, os[..i]) && Weaker(e, os[i])
    ensures AllWeaker(effective + [e], os[..i + 1])
  {
    forall j | 0 <= j < i
      ensures Weaker((effective + [e])[j], os[..i + 1][j])
    {
      assert Weaker(effective[j], os[..i][j]);
    }
  }

  /** The loop over the rows. */
  method ImportRows(store: Store, caches: Caches, p: Parser, rows: seq<Row>, os: seq<Outages>)
    returns (result: ImportResult, ghost effective: seq<Outages>)
    requires Inv(store.t) && caches.Agree(store.t) && |os| == |rows|
    modifies store, caches
    ensures Inv(store.t) && caches.Agree(store.t)
    ensures AllWeaker(effective, os)
    ensures RowsSpec(p, old(store.t), rows, effective).0 == store.t
    ensures result == Summary(RowsSpec(p, old(store.t), rows, effective).1)
  {
    effective := [];
    result := ImportResult(0, 0, 0, 0, []);
    ghost var start := store.t;
    assert rows[..0] == [];
    for i := 0 to |rows|
      invariant Inv(store.t) && caches.Agree(store.t)
      invariant Imported(p, start, rows, os, i, effective, store.t, result)
    {
      ghost var before := store.t;
      var outcome, e := ImportNext(store, caches, p, rows[i], os[i]);
      ImportedStep(p, start, rows, os, i, effective, before, result, e);
      effective := effective + [e];
      result := Tally(result, outcome);
    }
    assert rows[..|rows|] == rows && os[..|rows|] == os;
  }

  /** One row read from the file, checked and imported. */
  method ImportNext(store: Store, caches: Caches, p: Parser, row: Row, o: Outages)
    returns (r: Result<Outcome, Problem>, ghost effective: Outages)
    requires Inv(store.t) && caches.Agree(store.t)
    modifies store, caches
    ensures Weaker(effective, o) && RowSpec(p, old(store.t), row, effective) == RowStep(store.t, r)
    ensures Inv(store.t) && caches.Agree(store.t)
  {
    effective := o;
    var problem := CheckLimits(p, row);
    if problem.Some? {
      return Err(problem.value), effective;
    }
    r, effective := ImportRow(store, caches, p, row.fields, o);
  }

  /** The result after one more row. */
  function Tally(r: ImportResult, outcome: Result<Outcome, Problem>): ImportResult {
    var next := r.(processed := r.processed + 1);
    match outcome
    case Err(x) => next.(failed := r.failed + 1, errors := r.errors + [RowError(r.processed + 2, x)])
    case Ok(Created) => next.(created := r.created + 1)
    case Ok(Updated) => next.(updated := r.updated + 1)
    case Ok(Unchanged) => next
  }

  lemma TallyIsSummary(outcomes: seq<Result<Outcome, Problem>>, x: Result<Outcome, Problem>)
    ensures Tally(Summary(outcomes), x) == Summary(outcomes + [x])
  {
    assert (outcomes + [x])[..|outcomes|] == outcomes;
  }

  lemma RowsSpecStep(p: Parser, t: Tables, rows: seq<Row>, os: seq<Outages>, i: nat, o: Outages)
    requires i < |rows| && |os| == i
    ensures var before, after := RowsSpec(p, t, rows[..i], os), RowsSpec(p, t, rows[..i + 1], os + [o]);
            var s := RowSpec(p, before.0, rows[i], o);
            && after.0 == s.tables && after.1 == before.1 + [s.outcome]
            && Tally(Summary(before.1), s.outcome) == Summary(after.1)
  {
    assert rows[..i + 1][..i] == rows[..i];
    assert (os + [o])[..i] == os;
    var before := RowsSpec(p, t, rows[..i], os);
    TallyIsSummary(before.1, RowSpec(p, before.0, rows[i], o).outcome);
  }

  // ----- row isolation and the whole file

  /**
   * A row rejected by validation changes nothing. A row that fails later changes no IP row;
   * it fails only because a call was down, never as a conflict or as invalid input.
   */
  lemma RowIsolation(p: Parser, t: Tables, row: Row, o: Outages)
    requires Inv(t)
    ensures var s := RowSpec(p, t, row, o);
            && Inv(s.tables)
            && (ParseRow(p, row).Err? ==> s == RowStep(t, Err(ParseRow(p, row).error)))
            && (ParseRow(p, row).Ok? && s.outcome.Err? ==>
                  s.outcome == Err(ServiceFailed(DatabaseError)) && o != NO_OUTAGES && s.tables.ips == t.ips)
  {
    if ParseRow(p, row).Ok? {
      ParsedIsValid(p, row.fields);
      OnlyOutagesFail(t, ParseRow(p, row).value, o);
    }
  }

  // ----- what the result of a file tells

  /** The tables when row k is reached. */
  ghost function TablesBefore(p: Parser, t: Tables, rows: seq<Row>, os: seq<Outages>, k: nat): Tables
    requires |os| == |rows| && k <= |rows|
  {
    RowsSpec(p, t, rows[..k], os[..k]).0
  }

  lemma {:induction false} TablesBeforeInv(p: Parser, t: Tables, rows: seq<Row>, os: seq<Outages>)
    requires Inv(t) && |os| == |rows|
    ensures Inv(RowsSpec(p, t, rows, os).0)
    decreases |rows|
  {
    if rows != [] {
      var k := |rows| - 1;
      TablesBeforeInv(p, t, rows[..k], os[..k]);
      RowIsolation(p, RowsSpec(p, t, rows[..k], os[..k]).0, rows[k], os[k]);
    }
  }

  /** Each row is taken in turn: its outcome and the tables after it come from the tables before it. */
  lemma {:induction false} RowInTurn(p: Parser, t: Tables, rows: seq<Row>, os: seq<Outages>, k: nat)
    requires |os| == |rows| && k < |rows|
    ensures RowsSpec(p, t, rows, os).1[k] == RowSpec(p, TablesBefore(p, t, rows, os, k), rows[k], os[k]).outcome
    ensures TablesBefore(p, t, rows, os, k + 1) == RowSpec(p, TablesBefore(p, t, rows, os, k), rows[k], os[k]).tables
    decreases |rows|
  {
    var m := |rows| - 1;
    assert rows[..k + 1][..k] == rows[..k] && os[..k + 1][..k] == os[..k];
    if k < m {
      RowInTurn(p, t, rows[..m], os[..m], k);
      assert rows[..m][..k] == rows[..k] && os[..m][..k] == os[..k];
      assert RowsSpec(p, t, rows, os).1[k] == RowsSpec(p, t, rows[..m], os[..m]).1[k];
    } else {
      assert rows[..m + 1] == rows && os[..m + 1] == os;
    }
  }

  /** What the outcome of one row tells of the IP rows before and after it. */
  ghost predicate RowTells(p: Parser, before: Tables, after: Tables, row: Row, o: Outages,
                           outcome: Result<Outcome, Problem>) {
    match ParseRow(p, row)
    case Err(x) => outcome == Err(x) && after == before
    case Ok(e) =>
      && (outcome.Err? <==> Blocked(before, e, o)) && (outcome.Err? ==> outcome == Err(ServiceFailed(DatabaseError)))
      && Tells(before, after, e, if outcome.Ok? then Ok(outcome.value) else Err(DatabaseError))
      && MakesPlaces(before, after, e)
  }

  lemma RowSpecTells(p: Parser, t: Tables, row: Row, o: Outages)
    requires Inv(t)
    ensures var s := RowSpec(p, t, row, o); RowTells(p, t, s.tables, row, o, s.outcome)
  {
    if ParseRow(p, row).Ok? {
      var e := ParseRow(p, row).value;
      ParsedIsValid(p, row.fields);
      OnlyOutagesFail(t, e, o);
      OutcomeTells(t, e, o);
      FailsIffBlocked(t, e, o);
      PlacesMade(t, e, o);
    }
  }

  /**
   * Every outcome of a file tells what its row did: a refused row did nothing, a failed one had
   * a call down and left the IP rows alone, and otherwise the row was created, updated or left
   * as the outcome says.
   */
  lemma EveryRowTells(p: Parser, t: Tables, rows: seq<Row>, os: seq<Outages>, k: nat)
    requires Inv(t) && |os| == |rows| && k < |rows|
    ensures RowTells(p, TablesBefore(p, t, rows, os, k), TablesBefore(p, t, rows, os, k + 1), rows[k], os[k],
                     RowsSpec(p, t, rows, os).1[k])
  {
    TablesBeforeInv(p, t, rows[..k], os[..k]);
    RowInTurn(p, t, rows, os, k);
    RowSpecTells(p, TablesBefore(p, t, rows, os, k), rows[k], os[k]);
  }

  lemma EffectGrows(t: Tables, t': Tables, e: Entry, outcome: Result<Outcome, Error>)
    requires Tells(t, t', e, outcome)
    ensures |t'.ips| == |t.ips| + if outcome == Ok(Created) then 1 else 0
  {
    EffectsDiffer(t, t', e);
    if outcome == Ok(Created) {
      CreatesOne(t, t', e);
    } else if outcome == Ok(Updated) {
      SameSize(t.ips, t'.ips);
    } else {
      assert outcome == Ok(Unchanged) || outcome.Err? by {
        if outcome.Ok? { match outcome.value case Created => case Updated => case Unchanged => }
      }
    }
  }

  lemma CreatesOne(t: Tables, t': Tables, e: Entry)
    requires Creates(t, t', e)
    ensures |t'.ips| == |t.ips| + 1
  {
    var i: nat, n: nat :| i !in t.ips && t'.ips == t.ips[i := Ip(e.addr, e.description, n)] && IsRowOf(t', e, i);
    OneMoreKey(t.ips, t'.ips, i);
  }

  lemma OneMoreKey<K, V>(a: map<K, V>, b: map<K, V>, k: K)
    requires k !in a && b.Keys == a.Keys + {k}
    ensures |b| == |a| + 1
  {
    assert |a| == |a.Keys| && |b| == |b.Keys|;
  }

  lemma SameSize<K, V>(a: map<K, V>, b: map<K, V>)
    requires a.Keys == b.Keys
    ensures |a| == |b|
  {
    assert |a| == |a.Keys| && |b| == |b.Keys|;
  }

  /** The created count of a file is the number of IP rows it added. */
  lemma {:induction false} CreatedIsGrowth(p: Parser, t: Tables, rows: seq<Row>, os: seq<Outages>)
    requires Inv(t) && |os| == |rows|
    ensures var (t', outcomes) := RowsSpec(p, t, rows, os);
            CountOutcome(outcomes, Created) == |t'.ips| - |t.ips|
    decreases |rows|
  {
    if rows != [] {
      var k := |rows| - 1;
      CreatedIsGrowth(p, t, rows[..k], os[..k]);
      TablesBeforeInv(p, t, rows[..k], os[..k]);
      var before := RowsSpec(p, t, rows[..k], os[..k]);
      var s := RowSpec(p, before.0, rows[k], os[k]);
      RowSpecTells(p, before.0, rows[k], os[k]);
      if ParseRow(p, rows[k]).Ok? {
        EffectGrows(before.0, s.tables, ParseRow(p, rows[k]).value,
                    if s.outcome.Ok? then Ok(s.outcome.value) else Err(DatabaseError));
      }
      assert (before.1 + [s.outcome])[..k] == before.1;
    }
  }

  /** The positions of the rows with this outcome. */
  function RowsWith(outcomes: seq<Result<Outcome, Problem>>, x: Outcome): set<nat> {
    set k: nat | k < |outcomes| && outcomes[k] == Ok(x)
  }

  /** A counter is the number of rows with that outcome. */
  lemma {:induction false} CountIsRows(outcomes: seq<Result<Outcome, Problem>>, x: Outcome)
    ensures CountOutcome(outcomes, x) == |RowsWith(outcomes, x)|
    decreases |outcomes|
  {
    if outcomes == [] {
      assert RowsWith(outcomes, x) == {};
    } else {
      var m: nat := |outcomes| - 1;
      CountIsRows(outcomes[..m], x);
      RowsWithSnoc(outcomes, x);
    }
  }

  lemma RowsWithSnoc(outcomes: seq<Result<Outcome, Problem>>, x: Outcome)
    requires outcomes != []
    ensures var m: nat := |outcomes| - 1; var before := RowsWith(outcomes[..m], x);
            |RowsWith(outcomes, x)| == |before| + if outcomes[m] == Ok(x) then 1 else 0
  {
    var m: nat := |outcomes| - 1;
    var before := RowsWith(outcomes[..m], x);
    if outcomes[m] == Ok(x) {
      assert RowsWith(outcomes, x) == before + {m};
    } else {
      assert RowsWith(outcomes, x) == before;
    }
  }

  /** A row is listed among the errors exactly when it failed, under its number in the file and with its reason. */
  lemma {:induction false} ErrorsExactly(outcomes: seq<Result<Outcome, Problem>>, row: nat, x: Problem)
    ensures RowError(row, x) in ErrorsOf(outcomes) <==> 2 <= row < |outcomes| + 2 && outcomes[row - 2] == Err(x)
    decreases |outcomes|
  {
    if outcomes != [] {
      ErrorsExactly(outcomes[..|outcomes| - 1], row, x);
    }
  }
}
