/** Importing a file again: the second run changes nothing, when every service call succeeds. */
module CsvConvergence {
  import opened Wrappers
  import opened Addresses
  import opened Ipam
  import opened CsvUpsert

  /** One row with every call succeeding. */
  ghost function Upsert(t: Tables, e: Entry): Tables {
    UpsertEntry(t, e, NO_OUTAGES).tables
  }

  ghost function ImportEntries(t: Tables, es: seq<Entry>): Tables
    decreases |es|
  {
    if es == [] then t else Upsert(ImportEntries(t, es[..|es| - 1]), es[|es| - 1])
  }

  ghost predicate AllValid(es: seq<Entry>) {
    forall k :: 0 <= k < |es| ==> ValidEntry(es[k])
  }

  /** Two rows name the same address of the same subnet of the same site. */
  predicate SameKey(d: Entry, e: Entry) {
    d.site == e.site && d.cidr == e.cidr && d.addr == e.addr
  }

  // ----- a settled row: everything it names exists

  /** The site, subnet and IP row that the entry names. */
  ghost predicate Names(t: Tables, e: Entry, s: SiteId, n: SubnetId, i: IpId) {
    && s in t.sites && t.sites[s] == e.site
    && Latest(t, s, e.cidr, n)
    && i in t.ips && t.ips[i].subnet == n && t.ips[i].addr == e.addr
  }

  ghost predicate Settled(t: Tables, e: Entry) {
    exists s, n, i :: Names(t, e, s, n, i)
  }

  ghost function Target(t: Tables, e: Entry): IpId
    requires Settled(t, e)
  {
    var s, n, i :| Names(t, e, s, n, i);
    i
  }

  lemma NamesFound(t: Tables, e: Entry, s: SiteId, n: SubnetId, i: IpId)
    requires Inv(t) && Names(t, e, s, n, i)
    ensures SiteNamed(t, e.site) == Some(s) && LatestSubnet(t, s, e.cidr) == Some(n) && IpAt(t, n, e.addr) == Some(i)
    ensures Settled(t, e) && Target(t, e) == i
  {
    var s', n', i' :| Names(t, e, s', n', i') && Target(t, e) == i';
  }

  function WithHostname(t: Tables, i: IpId, hostname: string): Tables
    requires i in t.ips
  {
    t.(ips := t.ips[i := t.ips[i].(hostname := hostname)])
  }

  /** On a settled row the upsert only sets the description. */
  lemma UpsertSettled(t: Tables, e: Entry)
    requires Inv(t) && Settled(t, e)
    ensures Upsert(t, e) == WithHostname(t, Target(t, e), e.description)
    ensures UpsertEntry(t, e, NO_OUTAGES).outcome
            == Ok(if t.ips[Target(t, e)].hostname == e.description then Unchanged else Updated)
  {
    var s, n, i :| Names(t, e, s, n, i) && Target(t, e) == i;
    NamesFound(t, e, s, n, i);
    if t.ips[i].hostname == e.description {
      assert WithHostname(t, i, e.description).ips == t.ips;
    }
  }

  /** After a valid row its address is settled and carries the row's description. */
  lemma UpsertSettles(t: Tables, e: Entry)
    requires Inv(t) && ValidEntry(e)
    ensures Inv(Upsert(t, e)) && Settled(Upsert(t, e), e)
    ensures Upsert(t, e).ips[Target(Upsert(t, e), e)].hostname == e.description
  {
    OnlyOutagesFail(t, e, NO_OUTAGES);
    EnsureSiteOk(t, e.site, false);
    var (t1, s) := EnsureSite(t, e.site, false).value;
    EnsureSubnetOk(t1, s, e.cidr, false);
    var (t2, n) := EnsureSubnet(t1, s, e.cidr, false).value;
    PutIpOk(t2, n, e.addr, e.description, NO_OUTAGES);
    var t3 := Upsert(t, e);
    var i := PutIpRow(t2, n, e.addr, e.description);
    assert Names(t3, e, s, n, i);
    NamesFound(t3, e, s, n, i);
  }

  lemma PutIpRow(t: Tables, n: SubnetId, addr: IpAddr, description: string) returns (i: IpId)
    requires Inv(t) && n in t.subnets && Accepts(t.subnets[n].cidr, addr)
    ensures var t' := PutIp(t, n, addr, description, NO_OUTAGES).tables;
            i in t'.ips && t'.ips[i] == Ip(addr, description, n)
  {
    var known := IpAt(t, n, addr);
    i := if known.Some? then known.value else t.nextIp;
    if known.None? {
      assert !AddressTaken(t, n, addr);
    }
  }

  // ----- what another row leaves alone

  /** Growth: every row of the tables stays, except for hostnames. */
  ghost predicate Grows(t: Tables, t': Tables) {
    && (forall s :: s in t.sites ==> s in t'.sites && t'.sites[s] == t.sites[s])
    && (forall n :: n in t.subnets ==> n in t'.subnets && t'.subnets[n] == t.subnets[n])
    && (forall i :: i in t.ips ==>
          i in t'.ips && t'.ips[i].addr == t.ips[i].addr && t'.ips[i].subnet == t.ips[i].subnet)
    && (forall n, s, c :: Latest(t, s, c, n) ==> Latest(t', s, c, n))
  }

  lemma EnsureSiteGrows(t: Tables, name: string)
    requires Inv(t)
    ensures EnsureSite(t, name, false).Ok? && Grows(t, EnsureSite(t, name, false).value.0)
  {
    EnsureSiteOk(t, name, false);
  }

  lemma EnsureSubnetGrows(t: Tables, s: SiteId, cidr: Cidr)
    requires Inv(t) && s in t.sites && IsMasked(cidr)
    ensures EnsureSubnet(t, s, cidr, false).Ok? && Grows(t, EnsureSubnet(t, s, cidr, false).value.0)
  {
    EnsureSubnetOk(t, s, cidr, false);
    if LatestSubnet(t, s, cidr).None? {
      NoneLatest(t, s, cidr);
    }
  }

  lemma GrowsTransitive(a: Tables, b: Tables, c: Tables)
    requires Grows(a, b) && Grows(b, c)
    ensures Grows(a, c)
  {
  }

  lemma UpsertGrows(t: Tables, e: Entry)
    requires Inv(t) && ValidEntry(e)
    ensures Grows(t, Upsert(t, e))
  {
    EnsureSiteGrows(t, e.site);
    EnsureSiteOk(t, e.site, false);
    var (t1, s) := EnsureSite(t, e.site, false).value;
    EnsureSubnetGrows(t1, s, e.cidr);
    EnsureSubnetOk(t1, s, e.cidr, false);
    var (t2, n) := EnsureSubnet(t1, s, e.cidr, false).value;
    GrowsTransitive(t, t1, t2);
    PutIpGrows(t2, n, e.addr, e.description);
    GrowsTransitive(t, t2, Upsert(t, e));
  }

  /** Only the row's own IP row changes its description. */
  lemma UpsertTouchesTarget(t: Tables, e: Entry, i: IpId)
    requires Inv(t) && ValidEntry(e) && i in t.ips
    requires Settled(Upsert(t, e), e) && Inv(Upsert(t, e))
    ensures i in Upsert(t, e).ips
    ensures Upsert(t, e).ips[i] == t.ips[i] || i == Target(Upsert(t, e), e)
  {
    EnsureSiteOk(t, e.site, false);
    var (t1, s) := EnsureSite(t, e.site, false).value;
    EnsureSubnetOk(t1, s, e.cidr, false);
    var (t2, n) := EnsureSubnet(t1, s, e.cidr, false).value;
    PutIpTouches(t2, n, e.addr, e.description);
    PutIpOk(t2, n, e.addr, e.description, NO_OUTAGES);
    if Upsert(t, e).ips[i] != t.ips[i] {
      assert Names(Upsert(t, e), e, s, n, i);
      NamesFound(Upsert(t, e), e, s, n, i);
    }
  }

  lemma SameSubnetsGrow(t: Tables, t': Tables)
    requires t'.sites == t.sites && t'.subnets == t.subnets
    requires forall i :: i in t.ips ==>
               i in t'.ips && t'.ips[i].addr == t.ips[i].addr && t'.ips[i].subnet == t.ips[i].subnet
    ensures Grows(t, t')
  {
  }

  lemma PutIpTouches(t: Tables, n: SubnetId, addr: IpAddr, description: string)
    requires Inv(t) && n in t.subnets && Accepts(t.subnets[n].cidr, addr)
    ensures var t' := PutIp(t, n, addr, description, NO_OUTAGES).tables;
            forall i :: i in t.ips ==> i in t'.ips && (t'.ips[i] == t.ips[i] || t'.ips[i] == Ip(addr, description, n))
  {
    if IpAt(t, n, addr).None? {
      assert !AddressTaken(t, n, addr);
    }
  }

  lemma PutIpGrows(t: Tables, n: SubnetId, addr: IpAddr, description: string)
    requires Inv(t) && n in t.subnets && Accepts(t.subnets[n].cidr, addr)
    ensures Grows(t, PutIp(t, n, addr, description, NO_OUTAGES).tables)
  {
    PutIpOk(t, n, addr, description, NO_OUTAGES);
    PutIpKeepsPlaces(t, n, addr, description);
    SameSubnetsGrow(t, PutIp(t, n, addr, description, NO_OUTAGES).tables);
  }

  lemma PutIpKeepsPlaces(t: Tables, n: SubnetId, addr: IpAddr, description: string)
    requires Inv(t) && n in t.subnets && Accepts(t.subnets[n].cidr, addr)
    ensures var t' := PutIp(t, n, addr, description, NO_OUTAGES).tables;
            forall i :: i in t.ips ==>
              i in t'.ips && t'.ips[i].addr == t.ips[i].addr && t'.ips[i].subnet == t.ips[i].subnet
  {
    var known := IpAt(t, n, addr);
    var op := if known.Some? then UpdateIpHostname(n, known.value, description) else CreateIp(n, addr, description);
    forall i | i in t.ips
      ensures i in After(t, op).ips && After(t, op).ips[i].addr == t.ips[i].addr
              && After(t, op).ips[i].subnet == t.ips[i].subnet
    {
      RowsLeaveExactly(t, op, i);
      RowsAreStable(t, op, i);
    }
  }

  /**
   * A later row leaves a settled row settled on the same IP row, and only a row with the same
   * key sets its description.
   */
  lemma SettledStays(t: Tables, d: Entry, e: Entry)
    requires Inv(t) && ValidEntry(e) && Settled(t, d)
    ensures Settled(Upsert(t, e), d) && Target(Upsert(t, e), d) == Target(t, d)
    ensures var t' := Upsert(t, e);
            t'.ips[Target(t, d)].hostname == if SameKey(d, e) then e.description else t.ips[Target(t, d)].hostname
  {
    var t' := Upsert(t, e);
    UpsertSettles(t, e);
    UpsertGrows(t, e);
    UpsertTouchesTarget(t, e, Target(t, d));
    var s, n, i :| Names(t, d, s, n, i);
    NamesFound(t, d, s, n, i);
    assert Names(t', d, s, n, i);
    NamesFound(t', d, s, n, i);
    SameTarget(t', d, e);
  }

  /** Settled rows share an IP row exactly when they share their key. */
  lemma SameTarget(t: Tables, d: Entry, e: Entry)
    requires Inv(t) && Settled(t, d) && Settled(t, e)
    ensures Target(t, d) == Target(t, e) <==> SameKey(d, e)
  {
    var s, n, i :| Names(t, d, s, n, i) && Target(t, d) == i;
    var s', n', i' :| Names(t, e, s', n', i') && Target(t, e) == i';
    if SameKey(d, e) {
      NamesFound(t, d, s, n, i);
      NamesFound(t, e, s', n', i');
    }
  }

  // ----- the first run

  /** The description of the last row with this key, or the given one. */
  function LastDescription(es: seq<Entry>, d: Entry, otherwise: string): string
    decreases |es|
  {
    if es == [] then otherwise
    else if SameKey(d, es[|es| - 1]) then es[|es| - 1].description
    else LastDescription(es[..|es| - 1], d, otherwise)
  }

  /** The row's address exists and carries the last description given to it. */
  ghost predicate Described(t: Tables, es: seq<Entry>, d: Entry) {
    Settled(t, d) && t.ips[Target(t, d)].hostname == LastDescription(es, d, "")
  }

  lemma {:induction false} FirstRunInv(t: Tables, es: seq<Entry>)
    requires Inv(t) && AllValid(es)
    ensures Inv(ImportEntries(t, es))
    decreases |es|
  {
    if es != [] {
      FirstRunInv(t, es[..|es| - 1]);
      UpsertSettles(ImportEntries(t, es[..|es| - 1]), es[|es| - 1]);
    }
  }

  lemma DescribedStep(t: Tables, before: seq<Entry>, e: Entry, d: Entry)
    requires Inv(t) && ValidEntry(e) && (d == e || Described(t, before, d))
    ensures Described(Upsert(t, e), before + [e], d)
  {
    assert (before + [e])[..|before|] == before;
    UpsertSettles(t, e);
    if d != e {
      SettledStays(t, d, e);
    }
  }

  /** After a run every valid row is settled and its address carries its last description. */
  lemma ValidParts(es: seq<Entry>)
    requires AllValid(es) && es != []
    ensures AllValid(es[..|es| - 1]) && ValidEntry(es[|es| - 1])
  {
  }

  lemma {:induction false} FirstRun(t: Tables, es: seq<Entry>, k: nat)
    requires Inv(t) && AllValid(es) && k < |es|
    ensures Described(ImportEntries(t, es), es, es[k])
    decreases |es|
  {
    var before, last := es[..|es| - 1], es[|es| - 1];
    ValidParts(es);
    FirstRunInv(t, before);
    assert before + [last] == es;
    if k < |before| {
      FirstRun(t, before, k);
      assert before[k] == es[k];
      DescribedStep(ImportEntries(t, before), before, last, before[k]);
    } else {
      DescribedStep(ImportEntries(t, before), before, last, last);
    }
  }

  // ----- a run over settled rows

  ghost predicate AllSettled(t: Tables, es: seq<Entry>) {
    forall k :: 0 <= k < |es| ==> Settled(t, es[k])
  }

  /** A settled row stays on its IP row through a run; the run's last description for it stands. */
  lemma {:induction false} SettledThrough(t: Tables, es: seq<Entry>, d: Entry)
    requires Inv(t) && AllValid(es) && Settled(t, d)
    ensures var t' := ImportEntries(t, es);
            && Inv(t') && Settled(t', d) && Target(t', d) == Target(t, d)
            && t'.ips[Target(t, d)].hostname == LastDescription(es, d, t.ips[Target(t, d)].hostname)
    decreases |es|
  {
    if es != [] {
      var m := |es| - 1;
      SettledThrough(t, es[..m], d);
      UpsertSettles(ImportEntries(t, es[..m]), es[m]);
      SettledStays(ImportEntries(t, es[..m]), d, es[m]);
    }
  }

  /** The tables differ in descriptions only. */
  ghost predicate OnlyHostnames(t: Tables, t': Tables) {
    && t' == t.(ips := t'.ips) && t'.ips.Keys == t.ips.Keys
    && forall i :: i in t.ips ==> t'.ips[i] == t.ips[i].(hostname := t'.ips[i].hostname)
  }

  lemma OnlyHostnamesThrough(a: Tables, b: Tables, c: Tables)
    requires OnlyHostnames(a, b) && OnlyHostnames(b, c)
    ensures OnlyHostnames(a, c)
  {
  }

  lemma WithHostnameOnly(t: Tables, i: IpId, hostname: string)
    requires i in t.ips
    ensures OnlyHostnames(t, WithHostname(t, i, hostname))
  {
  }

  lemma {:induction false} SettledRun(t: Tables, es: seq<Entry>)
    requires Inv(t) && AllValid(es) && AllSettled(t, es)
    ensures OnlyHostnames(t, ImportEntries(t, es))
    decreases |es|
  {
    if es != [] {
      var before, e := es[..|es| - 1], es[|es| - 1];
      assert forall k :: 0 <= k < |before| ==> before[k] == es[k];
      SettledRun(t, before);
      SettledThrough(t, before, e);
      var t1 := ImportEntries(t, before);
      UpsertSettled(t1, e);
      WithHostnameOnly(t1, Target(t1, e), e.description);
      OnlyHostnamesThrough(t, t1, ImportEntries(t, es));
    }
  }

  /** An IP row that no row of the run names keeps its description. */
  lemma {:induction false} UntouchedThrough(t: Tables, es: seq<Entry>, i: IpId)
    requires Inv(t) && AllValid(es) && AllSettled(t, es) && i in t.ips
    requires forall k :: 0 <= k < |es| ==> Target(t, es[k]) != i
    ensures i in ImportEntries(t, es).ips && ImportEntries(t, es).ips[i] == t.ips[i]
    decreases |es|
  {
    if es != [] {
      var m := |es| - 1;
      var before, e := es[..m], es[m];
      assert forall k :: 0 <= k < m ==> before[k] == es[k];
      UntouchedThrough(t, before, i);
      SettledThrough(t, before, e);
      UpsertSettled(ImportEntries(t, before), e);
    }
  }

  lemma {:induction false} LastDescriptionOf(es: seq<Entry>, k: nat, x: string, y: string)
    requires k < |es|
    ensures LastDescription(es, es[k], x) == LastDescription(es, es[k], y)
    decreases |es|
  {
    if k < |es| - 1 && !SameKey(es[k], es[|es| - 1]) {
      assert es[..|es| - 1][k] == es[k];
      LastDescriptionOf(es[..|es| - 1], k, x, y);
    }
  }

  // ----- the main results

  /**
   * Importing the same rows twice leaves the tables as once, and each address carries the
   * description of its last valid row.
   */
  lemma ReimportConverges(t: Tables, es: seq<Entry>)
    requires Inv(t) && AllValid(es)
    ensures ImportEntries(ImportEntries(t, es), es) == ImportEntries(t, es)
    ensures forall k :: 0 <= k < |es| ==> Described(ImportEntries(t, es), es, es[k])
  {
    FirstRunInv(t, es);
    var once := ImportEntries(t, es);
    forall k: nat | k < |es|
      ensures Described(once, es, es[k])
    {
      FirstRun(t, es, k);
    }
    SettledRun(once, es);
    var twice := ImportEntries(once, es);
    forall i | i in once.ips
      ensures twice.ips[i] == once.ips[i]
    {
      if k: nat :| k < |es| && Target(once, es[k]) == i {
        SettledThrough(once, es, es[k]);
        assert Described(once, es, es[k]);
        LastDescriptionOf(es, k, "", once.ips[i].hostname);
      } else {
        UntouchedThrough(once, es, i);
      }
    }
    assert twice.ips == once.ips;
  }

  /** No two rows give one address different descriptions. */
  ghost predicate Consistent(es: seq<Entry>) {
    forall a, b :: 0 <= a < |es| && 0 <= b < |es| && SameKey(es[a], es[b]) ==> es[a].description == es[b].description
  }

  ghost function SecondOutcome(once: Tables, es: seq<Entry>, m: nat): Result<Outcome, Error>
    requires m < |es|
  {
    UpsertEntry(ImportEntries(once, es[..m]), es[m], NO_OUTAGES).outcome
  }

  lemma SecondRunRow(once: Tables, es: seq<Entry>, m: nat)
    requires Inv(once) && AllValid(es) && AllSettled(once, es) && m < |es|
    ensures SecondOutcome(once, es, m)
            == var prior := once.ips[Target(once, es[m])].hostname;
               Ok(if LastDescription(es[..m], es[m], prior) == es[m].description then Unchanged else Updated)
  {
    var before := es[..m];
    assert forall k :: 0 <= k < m ==> before[k] == es[k];
    SettledThrough(once, before, es[m]);
    UpsertSettled(ImportEntries(once, before), es[m]);
  }

  /**
   * The second run creates nothing and fails nothing, and it updates nothing exactly when no
   * address is given two descriptions.
   */
  lemma SecondRunOutcomes(t: Tables, es: seq<Entry>)
    requires Inv(t) && AllValid(es)
    ensures var once := ImportEntries(t, es);
            && (forall m: nat :: m < |es| ==>
                  SecondOutcome(once, es, m) == Ok(Unchanged) || SecondOutcome(once, es, m) == Ok(Updated))
            && ((forall m: nat :: m < |es| ==> SecondOutcome(once, es, m) == Ok(Unchanged)) <==> Consistent(es))
  {
    FirstRunInv(t, es);
    var once := ImportEntries(t, es);
    forall k: nat | k < |es|
      ensures Described(once, es, es[k])
    {
      FirstRun(t, es, k);
    }
    forall m: nat | m < |es|
      ensures SecondOutcome(once, es, m) == Ok(Unchanged) || SecondOutcome(once, es, m) == Ok(Updated)
      ensures Consistent(es) ==> SecondOutcome(once, es, m) == Ok(Unchanged)
    {
      SecondRunRow(once, es, m);
      if Consistent(es) {
        ConsistentLast(es, |es|, m, "");
        ConsistentLast(es, m, m, es[m].description);
        assert es[..|es|] == es;
        LastDescriptionOf(es, m, "", es[m].description);
      }
    }
    if forall m: nat :: m < |es| ==> SecondOutcome(once, es, m) == Ok(Unchanged) {
      forall a: nat, b: nat | a < |es| && b < |es| && SameKey(es[a], es[b])
        ensures es[a].description == es[b].description
      {
        QuietRow(once, es, a);
        QuietRow(once, es, b);
        SameTarget(once, es[a], es[b]);
      }
    }
  }

  /** With consistent rows every description along the way is the row's own. */
  lemma {:induction false} ConsistentLast(es: seq<Entry>, n: nat, m: nat, x: string)
    requires Consistent(es) && n <= |es| && m < |es|
    requires m < n || x == es[m].description
    ensures LastDescription(es[..n], es[m], x) == es[m].description
    decreases n
  {
    if n > 0 {
      assert es[..n][..n - 1] == es[..n - 1];
      if !SameKey(es[m], es[n - 1]) {
        ConsistentLast(es, n - 1, m, x);
      }
    }
  }

  /** If no row updates, the tables never move and each row's description is already stored. */
  lemma {:induction false} QuietPrefix(once: Tables, es: seq<Entry>, n: nat)
    requires Inv(once) && AllValid(es) && AllSettled(once, es) && n <= |es|
    requires forall m: nat :: m < |es| ==> SecondOutcome(once, es, m) == Ok(Unchanged)
    ensures ImportEntries(once, es[..n]) == once
    decreases n
  {
    if n > 0 {
      QuietPrefix(once, es, n - 1);
      assert es[..n][..n - 1] == es[..n - 1];
      assert SecondOutcome(once, es, n - 1) == Ok(Unchanged);
      UpsertSettled(once, es[n - 1]);
      assert WithHostname(once, Target(once, es[n - 1]), es[n - 1].description).ips == once.ips;
    }
  }

  lemma QuietRow(once: Tables, es: seq<Entry>, m: nat)
    requires Inv(once) && AllValid(es) && AllSettled(once, es) && m < |es|
    requires forall k: nat :: k < |es| ==> SecondOutcome(once, es, k) == Ok(Unchanged)
    ensures once.ips[Target(once, es[m])].hostname == es[m].description
  {
    QuietPrefix(once, es, m);
    assert SecondOutcome(once, es, m) == Ok(Unchanged);
    UpsertSettled(once, es[m]);
  }
}
