/**
 * The cache-free meaning of a CSV row: make sure the site, the subnet and the IP row exist
 * and give the IP row the description. The importer is proved against this in CsvImport.
 */
module CsvUpsert {
  import opened Wrappers
  import opened Addresses
  import opened Ipam

  /** A row that passed validation; its prefix is masked. */
  datatype Entry = Entry(site: string, cidr: Cidr, addr: IpAddr, description: string)

  /** Which service calls of a row fail without effect. */
  datatype Outages = Outages(createSite: bool, createSubnet: bool, listIps: bool, updateIp: bool, createIp: bool)

  const NO_OUTAGES := Outages(false, false, false, false, false)

  datatype Outcome = Unchanged | Created | Updated

  datatype Step = Step(tables: Tables, outcome: Result<Outcome, Error>)

  ghost predicate ValidEntry(e: Entry) {
    IsMasked(e.cidr) && Accepts(e.cidr, e.addr)
  }

  // ----- finding what is there

  ghost function SiteNamed(t: Tables, name: string): Option<SiteId> {
    if s :| s in t.sites && t.sites[s] == name then Some(s) else None
  }

  /** Several subnets of a site may share a CIDR; the one created last counts. */
  ghost predicate Latest(t: Tables, site: SiteId, cidr: Cidr, n: SubnetId) {
    && n in t.subnets && t.subnets[n] == Subnet(cidr, Some(site))
    && forall m :: m in t.subnets && t.subnets[m] == Subnet(cidr, Some(site)) ==> m <= n
  }

  ghost function LatestSubnet(t: Tables, site: SiteId, cidr: Cidr): Option<SubnetId> {
    if n :| Latest(t, site, cidr, n) then Some(n) else None
  }

  ghost function IpAt(t: Tables, subnet: SubnetId, addr: IpAddr): Option<IpId> {
    if i :| i in t.ips && t.ips[i].subnet == subnet && t.ips[i].addr == addr then Some(i) else None
  }

  // ----- the upsert

  function Call(t: Tables, op: Op, down: bool): Result<Tables, Error> {
    if down then Err(DatabaseError) else Exec(t, op)
  }

  ghost function EnsureSite(t: Tables, name: string, down: bool): Result<(Tables, SiteId), Error> {
    var known := SiteNamed(t, name);
    if known.Some? then Ok((t, known.value))
    else match Call(t, CreateSite(name), down)
         case Ok(t') => Ok((t', t.nextSite))
         case Err(x) => Err(x)
  }

  ghost function EnsureSubnet(t: Tables, site: SiteId, cidr: Cidr, down: bool): Result<(Tables, SubnetId), Error> {
    var known := LatestSubnet(t, site, cidr);
    if known.Some? then Ok((t, known.value))
    else match Call(t, CreateSubnet(cidr, Some(site)), down)
         case Ok(t') => Ok((t', t.nextSubnet))
         case Err(x) => Err(x)
  }

  function RenamedStep(t: Tables, subnet: SubnetId, ip: IpId, description: string, down: bool): Step {
    match Call(t, UpdateIpHostname(subnet, ip, description), down)
    case Ok(t') => Step(t', Ok(Updated))
    case Err(x) => Step(t, Err(x))
  }

  function CreatedStep(t: Tables, subnet: SubnetId, addr: IpAddr, description: string, down: bool): Step {
    match Call(t, CreateIp(subnet, addr, description), down)
    case Ok(t') => Step(t', Ok(Created))
    case Err(x) => Step(t, Err(x))
  }

  ghost function PutIp(t: Tables, subnet: SubnetId, addr: IpAddr, description: string, o: Outages): Step {
    if o.listIps then Step(t, Err(DatabaseError))
    else
      var known := IpAt(t, subnet, addr);
      if known.None? then CreatedStep(t, subnet, addr, description, o.createIp)
      else if t.ips[known.value].hostname == description then Step(t, Ok(Unchanged))
      else RenamedStep(t, subnet, known.value, description, o.updateIp)
  }

  ghost function UpsertEntry(t: Tables, e: Entry, o: Outages): Step {
    match EnsureSite(t, e.site, o.createSite)
    case Err(x) => Step(t, Err(x))
    case Ok((t1, site)) =>
      match EnsureSubnet(t1, site, e.cidr, o.createSubnet)
      case Err(x) => Step(t1, Err(x))
      case Ok((t2, subnet)) => PutIp(t2, subnet, e.addr, e.description, o)
  }

  // ----- the upsert keeps the tables sound and fails only by outage

  lemma EnsureSiteOk(t: Tables, name: string, down: bool)
    requires Inv(t)
    ensures match EnsureSite(t, name, down)
            case Ok((t', s)) => Inv(t') && s in t'.sites && t'.sites[s] == name && SiteNamed(t', name) == Some(s)
                                && t'.subnets == t.subnets && t'.ips == t.ips
            case Err(x) => x == DatabaseError && down
  {
    if SiteNamed(t, name).None? {
      ExecKeepsInv(t, CreateSite(name));
      assert !NameTaken(t, name);
      var t' := After(t, CreateSite(name));
      assert t.nextSite in t'.sites && t'.sites[t.nextSite] == name;
    }
  }

  lemma EnsureSubnetOk(t: Tables, site: SiteId, cidr: Cidr, down: bool)
    requires Inv(t) && site in t.sites && IsMasked(cidr)
    ensures match EnsureSubnet(t, site, cidr, down)
            case Ok((t', n)) => Inv(t') && Latest(t', site, cidr, n) && LatestSubnet(t', site, cidr) == Some(n)
                                && t'.sites == t.sites && t'.ips == t.ips
            case Err(x) => x == DatabaseError && down
  {
    if LatestSubnet(t, site, cidr).None? {
      NoneLatest(t, site, cidr);
      ExecKeepsInv(t, CreateSubnet(cidr, Some(site)));
      assert Latest(After(t, CreateSubnet(cidr, Some(site))), site, cidr, t.nextSubnet);
    }
  }

  lemma LatestUnique(t: Tables, site: SiteId, cidr: Cidr, n: SubnetId)
    requires Latest(t, site, cidr, n)
    ensures LatestSubnet(t, site, cidr) == Some(n)
  {
  }

  /** If any subnet of the site has the CIDR, one of them is the latest. */
  lemma {:induction false} SomeLatest(t: Tables, site: SiteId, cidr: Cidr, n: SubnetId, bound: nat)
    requires n in t.subnets && t.subnets[n] == Subnet(cidr, Some(site))
    requires forall m :: m in t.subnets && t.subnets[m] == Subnet(cidr, Some(site)) ==> m < bound
    ensures LatestSubnet(t, site, cidr).Some?
    decreases bound - n
  {
    if m :| m in t.subnets && t.subnets[m] == Subnet(cidr, Some(site)) && m > n {
      SomeLatest(t, site, cidr, m, bound);
    } else {
      assert Latest(t, site, cidr, n);
    }
  }

  lemma NoneLatest(t: Tables, site: SiteId, cidr: Cidr)
    requires Inv(t) && LatestSubnet(t, site, cidr).None?
    ensures forall m :: m in t.subnets ==> t.subnets[m] != Subnet(cidr, Some(site))
  {
    if m :| m in t.subnets && t.subnets[m] == Subnet(cidr, Some(site)) {
      SomeLatest(t, site, cidr, m, t.nextSubnet);
    }
  }

  lemma PutIpOk(t: Tables, subnet: SubnetId, addr: IpAddr, description: string, o: Outages)
    requires Inv(t) && subnet in t.subnets && Accepts(t.subnets[subnet].cidr, addr)
    ensures var s := PutIp(t, subnet, addr, description, o);
            && Inv(s.tables) && s.tables.sites == t.sites && s.tables.subnets == t.subnets
            && (s.outcome.Err? ==>
                s.outcome == Err(DatabaseError) && s.tables == t && (o.listIps || o.updateIp || o.createIp))
  {
    var known := IpAt(t, subnet, addr);
    if known.Some? {
      ExecKeepsInv(t, UpdateIpHostname(subnet, known.value, description));
    } else {
      assert !AddressTaken(t, subnet, addr);
      ExecKeepsInv(t, CreateIp(subnet, addr, description));
    }
  }

  /**
   * A valid row fails only when one of its calls is down: no call is ever refused as a
   * conflict, as invalid or as not found. A failed row leaves every IP row as it was; it may
   * leave a site or a subnet behind.
   */
  lemma OnlyOutagesFail(t: Tables, e: Entry, o: Outages)
    requires Inv(t) && ValidEntry(e)
    ensures var s := UpsertEntry(t, e, o);
            && Inv(s.tables)
            && (s.outcome.Err? ==> s.outcome == Err(DatabaseError) && o != NO_OUTAGES && s.tables.ips == t.ips)
  {
    EnsureSiteOk(t, e.site, o.createSite);
    match EnsureSite(t, e.site, o.createSite)
    case Ok((t1, site)) =>
      EnsureSubnetOk(t1, site, e.cidr, o.createSubnet);
      match EnsureSubnet(t1, site, e.cidr, o.createSubnet) {
        case Ok((t2, subnet)) => PutIpOk(t2, subnet, e.addr, e.description, o);
        case Err(_) =>
      }
    case Err(_) =>
  }

  // ----- what a row comes to, said of the tables alone

  /** The IP row that the entry names: its address in the newest subnet of its CIDR in its site. */
  ghost predicate IsRowOf(t: Tables, e: Entry, i: IpId) {
    exists s, n :: s in t.sites && t.sites[s] == e.site && Newest(t, s, e.cidr, n) && Holds(t, i, n, e.addr)
  }

  ghost predicate Newest(t: Tables, s: SiteId, cidr: Cidr, n: SubnetId) {
    && n in t.subnets && t.subnets[n].cidr == cidr && t.subnets[n].site == Some(s)
    && forall m :: m in t.subnets && t.subnets[m].cidr == cidr && t.subnets[m].site == Some(s) ==> m <= n
  }

  predicate Holds(t: Tables, i: IpId, n: SubnetId, addr: IpAddr) {
    i in t.ips && t.ips[i].subnet == n && t.ips[i].addr == addr
  }

  ghost predicate HasSite(t: Tables, e: Entry) {
    exists s :: s in t.sites && t.sites[s] == e.site
  }

  ghost predicate HasSubnet(t: Tables, e: Entry) {
    exists s, n :: s in t.sites && t.sites[s] == e.site && n in t.subnets && t.subnets[n] == Subnet(e.cidr, Some(s))
  }

  /** A call that this row needs is down. */
  ghost predicate Blocked(t: Tables, e: Entry, o: Outages) {
    || (o.createSite && !HasSite(t, e))
    || (o.createSubnet && !HasSubnet(t, e))
    || o.listIps
    || (o.createIp && forall i :: !IsRowOf(t, e, i))
    || (o.updateIp && exists i :: IsRowOf(t, e, i) && t.ips[i].hostname != e.description)
  }

  /** Exactly one IP row is new: the one the entry names. */
  ghost predicate Creates(t: Tables, t': Tables, e: Entry) {
    exists i: nat, n: nat :: i !in t.ips && t'.ips == t.ips[i := Ip(e.addr, e.description, n)] && IsRowOf(t', e, i)
  }

  /** Exactly one IP row changed: the one the entry names got another description. */
  ghost predicate Updates(t: Tables, t': Tables, e: Entry) {
    exists i :: IsRowOf(t, e, i) && t.ips[i].hostname != e.description
                && t'.ips == t.ips[i := t.ips[i].(hostname := e.description)]
  }

  ghost predicate Agrees(t: Tables, t': Tables, e: Entry) {
    t'.ips == t.ips && exists i :: IsRowOf(t, e, i) && t.ips[i].hostname == e.description
  }

  /** The outcome names what happened to the IP rows. */
  ghost predicate Tells(t: Tables, t': Tables, e: Entry, outcome: Result<Outcome, Error>) {
    && (outcome == Ok(Created) <==> Creates(t, t', e))
    && (outcome == Ok(Updated) <==> Updates(t, t', e))
    && (outcome == Ok(Unchanged) ==> Agrees(t, t', e))
    && (outcome.Err? ==> t'.ips == t.ips)
  }

  /** t2 is t with the entry's site s and subnet n made sure of: what was there is used, else it is new. */
  ghost predicate Located(t: Tables, e: Entry, t2: Tables, s: SiteId, n: SubnetId) {
    && Inv(t2) && t2.ips == t.ips && (n in t.subnets ==> t2 == t)
    && s in t2.sites && t2.sites[s] == e.site && Newest(t2, s, e.cidr, n)
    && (forall q :: q in t.sites ==> q in t2.sites && t2.sites[q] == t.sites[q])
    && (n !in t.subnets ==> forall m :: m in t.subnets ==> t.subnets[m] != Subnet(e.cidr, Some(s)))
  }

  lemma UpsertInside(t: Tables, e: Entry, o: Outages) returns (t2: Tables, s: SiteId, n: SubnetId)
    requires Inv(t) && ValidEntry(e)
    requires EnsureSite(t, e.site, o.createSite).Ok?
    requires var (t1, s) := EnsureSite(t, e.site, o.createSite).value; EnsureSubnet(t1, s, e.cidr, o.createSubnet).Ok?
    ensures Located(t, e, t2, s, n) && UpsertEntry(t, e, o) == PutIp(t2, n, e.addr, e.description, o)
  {
    EnsureSiteOk(t, e.site, o.createSite);
    var found := EnsureSite(t, e.site, o.createSite).value;
    var t1 := found.0;
    s := found.1;
    EnsureSubnetOk(t1, s, e.cidr, o.createSubnet);
    var placed := EnsureSubnet(t1, s, e.cidr, o.createSubnet).value;
    t2, n := placed.0, placed.1;
    assert Latest(t2, s, e.cidr, n);
    if LatestSubnet(t1, s, e.cidr).None? {
      NoneLatest(t1, s, e.cidr);
    }
    if n in t.subnets {
      assert t2.subnets[n].site == Some(s) && t.subnets[n] == t2.subnets[n];
    }
  }

  /** In the entry's subnet its address decides the row. */
  lemma RowOfEntry(t: Tables, e: Entry, s: SiteId, n: SubnetId, i: IpId)
    requires Inv(t) && s in t.sites && t.sites[s] == e.site && Newest(t, s, e.cidr, n)
    ensures IsRowOf(t, e, i) <==> Holds(t, i, n, e.addr)
  {
    if IsRowOf(t, e, i) {
      var s', n' :| s' in t.sites && t.sites[s'] == e.site && Newest(t, s', e.cidr, n') && Holds(t, i, n', e.addr);
      assert s' == s && n' == n;
    }
  }

  /** Whatever the entry names it names in the subnet that it is put into. */
  lemma RowsBefore(t: Tables, e: Entry, t2: Tables, s: SiteId, n: SubnetId, i: IpId)
    requires Inv(t) && Located(t, e, t2, s, n)
    ensures IsRowOf(t, e, i) <==> Holds(t2, i, n, e.addr)
  {
    if n in t.subnets {
      RowOfEntry(t, e, s, n, i);
    } else {
      assert !Holds(t2, i, n, e.addr) by { assert IpsPlaced(t); }
    }
  }

  lemma CreatedTells(t: Tables, e: Entry, t2: Tables, s: SiteId, n: SubnetId)
    requires Inv(t) && ValidEntry(e) && Located(t, e, t2, s, n) && IpAt(t2, n, e.addr).None?
    ensures var r := CreatedStep(t2, n, e.addr, e.description, false);
            r.outcome == Ok(Created) && Creates(t, r.tables, e) && forall i :: !IsRowOf(t, e, i)
  {
    var r := CreatedStep(t2, n, e.addr, e.description, false);
    assert !AddressTaken(t2, n, e.addr);
    ExecKeepsInv(t2, CreateIp(n, e.addr, e.description));
    var i := t2.nextIp;
    assert i !in t.ips && r.tables.ips == t.ips[i := Ip(e.addr, e.description, n)];
    RowOfEntry(r.tables, e, s, n, i);
    forall j
      ensures !IsRowOf(t, e, j)
    {
      RowsBefore(t, e, t2, s, n, j);
    }
  }

  /** The three effects exclude each other. */
  lemma EffectsDiffer(t: Tables, t': Tables, e: Entry)
    ensures Creates(t, t', e) ==> t'.ips.Keys != t.ips.Keys
    ensures Updates(t, t', e) ==> t'.ips.Keys == t.ips.Keys && t'.ips != t.ips
  {
    if Creates(t, t', e) {
      var i: nat, n: nat :| i !in t.ips && t'.ips == t.ips[i := Ip(e.addr, e.description, n)] && IsRowOf(t', e, i);
      assert i in t'.ips;
    }
    if Updates(t, t', e) {
      var i :| IsRowOf(t, e, i) && t.ips[i].hostname != e.description
               && t'.ips == t.ips[i := t.ips[i].(hostname := e.description)];
      assert i in t.ips && t'.ips[i] != t.ips[i];
    }
  }

  lemma UpdatedTells(t: Tables, e: Entry, t2: Tables, s: SiteId, n: SubnetId, i: IpId)
    requires Inv(t) && Located(t, e, t2, s, n) && Holds(t2, i, n, e.addr)
    requires t2.ips[i].hostname != e.description
    ensures var r := RenamedStep(t2, n, i, e.description, false);
            r.outcome == Ok(Updated) && Updates(t, r.tables, e)
  {
    RowsBefore(t, e, t2, s, n, i);
    assert n in t2.subnets;
  }

  /** An outcome with its effect is told truly. */
  lemma EffectTells(t: Tables, t': Tables, e: Entry, outcome: Result<Outcome, Error>)
    requires match outcome
             case Ok(Created) => Creates(t, t', e)
             case Ok(Updated) => Updates(t, t', e)
             case Ok(Unchanged) => Agrees(t, t', e)
             case Err(_) => t'.ips == t.ips
    ensures Tells(t, t', e, outcome)
  {
    EffectsDiffer(t, t', e);
  }

  lemma PutTells(t: Tables, e: Entry, t2: Tables, s: SiteId, n: SubnetId, o: Outages)
    requires Inv(t) && ValidEntry(e) && Located(t, e, t2, s, n)
    ensures var r := PutIp(t2, n, e.addr, e.description, o); Tells(t, r.tables, e, r.outcome)
  {
    var r := PutIp(t2, n, e.addr, e.description, o);
    var known := IpAt(t2, n, e.addr);
    if r.outcome.Err? {
      PutIpOk(t2, n, e.addr, e.description, o);
    } else if known.None? {
      CreatedTells(t, e, t2, s, n);
    } else {
      RowsBefore(t, e, t2, s, n, known.value);
      if t2.ips[known.value].hostname != e.description {
        UpdatedTells(t, e, t2, s, n, known.value);
      }
    }
    EffectTells(t, r.tables, e, r.outcome);
  }

  /**
   * What a valid row comes to, from the tables before and after alone: Created exactly when the
   * row it names is new, Updated exactly when that row was there and got another description,
   * Unchanged when it was there with this description; an error leaves every IP row alone.
   */
  lemma OutcomeTells(t: Tables, e: Entry, o: Outages)
    requires Inv(t) && ValidEntry(e)
    ensures var s := UpsertEntry(t, e, o); Tells(t, s.tables, e, s.outcome)
  {
    EnsureSiteOk(t, e.site, o.createSite);
    match EnsureSite(t, e.site, o.createSite)
    case Err(_) =>
    case Ok((t1, site)) =>
      EnsureSubnetOk(t1, site, e.cidr, o.createSubnet);
      if EnsureSubnet(t1, site, e.cidr, o.createSubnet).Ok? {
        var t2, s, n := UpsertInside(t, e, o);
        PutTells(t, e, t2, s, n, o);
      }
  }

  /** t1 is t with the entry's site s made sure of. */
  ghost predicate SiteMade(t: Tables, e: Entry, t1: Tables, s: SiteId) {
    && Inv(t1) && t1.subnets == t.subnets && t1.ips == t.ips && s in t1.sites && t1.sites[s] == e.site
    && if HasSite(t, e) then t1.sites == t.sites else s !in t.sites && t1.sites == t.sites[s := e.site]
  }

  lemma SiteNeeded(t: Tables, e: Entry, down: bool)
    requires Inv(t)
    ensures match EnsureSite(t, e.site, down)
            case Ok((t1, s)) => SiteMade(t, e, t1, s)
            case Err(_) => true
    ensures EnsureSite(t, e.site, down).Err? <==> down && !HasSite(t, e)
  {
    EnsureSiteOk(t, e.site, down);
    if SiteNamed(t, e.site).None? {
      assert !NameTaken(t, e.site);
    }
  }

  predicate HasSubnetAt(t: Tables, s: SiteId, cidr: Cidr) {
    exists n :: n in t.subnets && t.subnets[n] == Subnet(cidr, Some(s))
  }

  lemma SubnetOfSite(t: Tables, e: Entry, t1: Tables, s: SiteId)
    requires Inv(t) && SiteMade(t, e, t1, s)
    ensures HasSubnet(t, e) <==> HasSubnetAt(t1, s, e.cidr)
  {
    if HasSubnet(t, e) {
      var q, n :| q in t.sites && t.sites[q] == e.site && n in t.subnets && t.subnets[n] == Subnet(e.cidr, Some(q));
      SameSite(t1, q, s);
    }
    if HasSubnetAt(t1, s, e.cidr) {
      var n :| n in t.subnets && t.subnets[n] == Subnet(e.cidr, Some(s));
      assert SubnetsOk(t);
      assert s in t.sites && t.sites[s] == e.site;
    }
  }

  lemma SameSite(t: Tables, q: SiteId, s: SiteId)
    requires SitesOk(t) && q in t.sites && s in t.sites && t.sites[q] == t.sites[s]
    ensures q == s
  {
  }

  lemma SubnetFound(t: Tables, s: SiteId, cidr: Cidr)
    requires Inv(t)
    ensures LatestSubnet(t, s, cidr).Some? <==> HasSubnetAt(t, s, cidr)
  {
    if LatestSubnet(t, s, cidr).None? {
      NoneLatest(t, s, cidr);
    }
  }

  lemma SubnetNeeded(t: Tables, e: Entry, t1: Tables, s: SiteId, down: bool)
    requires Inv(t) && ValidEntry(e) && SiteMade(t, e, t1, s)
    ensures EnsureSubnet(t1, s, e.cidr, down).Err? <==> down && !HasSubnet(t, e)
    ensures match EnsureSubnet(t1, s, e.cidr, down)
            case Ok((t2, n)) => t2.sites == t1.sites
              && t2.subnets == if HasSubnet(t, e) then t.subnets else t.subnets[n := Subnet(e.cidr, Some(s))]
            case Err(_) => true
  {
    SubnetOfSite(t, e, t1, s);
    SubnetFound(t1, s, e.cidr);
  }

  lemma SubnetFresh(t: Tables, s: SiteId, cidr: Cidr, down: bool)
    requires Inv(t)
    ensures match EnsureSubnet(t, s, cidr, down)
            case Ok((t2, n)) => !HasSubnetAt(t, s, cidr) ==> n !in t.subnets
            case Err(_) => true
  {
    SubnetFound(t, s, cidr);
  }

  /** A row makes a site or a subnet only if the one it names is missing, and then just that one. */
  ghost predicate MakesPlaces(t: Tables, t': Tables, e: Entry) {
    && (t'.sites == t.sites || (!HasSite(t, e) && exists s: nat :: s !in t.sites && t'.sites == t.sites[s := e.site]))
    && (t'.subnets == t.subnets
        || (!HasSubnet(t, e) && exists s: nat, n: nat :: s in t'.sites && t'.sites[s] == e.site && n !in t.subnets
                                                  && t'.subnets == t.subnets[n := Subnet(e.cidr, Some(s))]))
  }

  lemma PlacesMade(t: Tables, e: Entry, o: Outages)
    requires Inv(t) && ValidEntry(e)
    ensures MakesPlaces(t, UpsertEntry(t, e, o).tables, e)
  {
    EnsureSiteOk(t, e.site, o.createSite);
    SiteNeeded(t, e, o.createSite);
    match EnsureSite(t, e.site, o.createSite)
    case Err(_) =>
    case Ok((t1, s)) =>
      EnsureSubnetOk(t1, s, e.cidr, o.createSubnet);
      SubnetNeeded(t, e, t1, s, o.createSubnet);
      SubnetOfSite(t, e, t1, s);
      SubnetFresh(t1, s, e.cidr, o.createSubnet);
      match EnsureSubnet(t1, s, e.cidr, o.createSubnet) {
        case Err(_) =>
        case Ok((t2, n)) => PutIpOk(t2, n, e.addr, e.description, o);
      }
  }

  /** A valid row fails exactly when a call that it needs is down. */
  lemma FailsIffBlocked(t: Tables, e: Entry, o: Outages)
    requires Inv(t) && ValidEntry(e)
    ensures UpsertEntry(t, e, o).outcome.Err? <==> Blocked(t, e, o)
  {
    EnsureSiteOk(t, e.site, o.createSite);
    SiteNeeded(t, e, o.createSite);
    match EnsureSite(t, e.site, o.createSite)
    case Err(_) =>
    case Ok((t1, s)) =>
      EnsureSubnetOk(t1, s, e.cidr, o.createSubnet);
      SubnetNeeded(t, e, t1, s, o.createSubnet);
      if EnsureSubnet(t1, s, e.cidr, o.createSubnet).Ok? {
        var t2, s, n := UpsertInside(t, e, o);
        PutFailsIff(t, e, t2, s, n, o);
      }
  }

  lemma PutFailsIff(t: Tables, e: Entry, t2: Tables, s: SiteId, n: SubnetId, o: Outages)
    requires Inv(t) && ValidEntry(e) && Located(t, e, t2, s, n)
    ensures PutIp(t2, n, e.addr, e.description, o).outcome.Err? <==>
            || o.listIps
            || (o.createIp && forall i :: !IsRowOf(t, e, i))
            || (o.updateIp && exists i :: IsRowOf(t, e, i) && t.ips[i].hostname != e.description)
  {
    forall i {
      RowsBefore(t, e, t2, s, n, i);
    }
    var known := IpAt(t2, n, e.addr);
    if known.None? {
      CreatedTells(t, e, t2, s, n);
    } else {
      assert Holds(t2, known.value, n, e.addr);
      assert IsRowOf(t, e, known.value);
    }
  }
}
