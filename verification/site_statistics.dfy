/** Per-site statistics in 64-bit arithmetic, and the per-subnet totals they add up. */
module SiteStatistics {
  import opened Wrappers
  import opened Addresses
  import opened Ipam
  import opened Sequences

  const TWO63: int := 0x8000_0000_0000_0000
  const TWO64: int := 0x1_0000_0000_0000_0000

  /** Two's complement wrap-around to a signed 64-bit integer. */
  function Wrap64(x: int): (r: int)
    ensures -TWO63 <= r < TWO63
    ensures r == x <==> -TWO63 <= x < TWO63
  {
    (x + TWO63) % TWO64 - TWO63
  }

  lemma WrapShift(x: int, q: int)
    ensures Wrap64(x + q * TWO64) == Wrap64(x)
  {
    var p := (x + TWO63) / TWO64;
    assert x + TWO63 == p * TWO64 + (x + TWO63) % TWO64;
  }

  /** Wrapping an operand first makes no difference. */
  lemma WrapAdd(x: int, y: int)
    ensures Wrap64(Wrap64(x) + y) == Wrap64(x + y)
  {
    var q := (x + TWO63) / TWO64;
    assert x == Wrap64(x) + q * TWO64;
    WrapShift(Wrap64(x) + y, q);
  }

  // ----- one site

  /** A row of the query; a site without subnets has one row without a prefix. */
  datatype Row = Row(site: SiteId, subnet: Option<SubnetId>, cidr: Option<Cidr>, used: nat)

  datatype SiteStat = SiteStat(site: SiteId, name: string, subnets: int, used: int, free: int, total: int)

  function AddSubnetStatistic(stat: SiteStat, row: Row): SiteStat {
    if row.cidr.None? then stat
    else
      var capacity := TotalIPs(SubnetCapacity(row.cidr.value), row.used);
      var used := Wrap64(stat.used + row.used);
      var free := Wrap64(stat.free + Wrap64(capacity - row.used));
      stat.(subnets := Wrap64(stat.subnets + 1), used := used, free := free, total := Wrap64(free + used))
  }

  // ----- the exact figures

  /** Exact figures of a group of subnets; total is the sum of the totals shown per subnet. */
  datatype Figures = Figures(subnets: nat, used: nat, total: int)

  const NOTHING := Figures(0, 0, 0)

  function Plus(a: Figures, b: Figures): Figures {
    Figures(a.subnets + b.subnets, a.used + b.used, a.total + b.total)
  }

  function FiguresOf(cidr: Cidr, used: nat): Figures {
    Figures(1, used, TotalIPs(SubnetCapacity(cidr), used))
  }

  function FiguresAt(t: Tables, n: SubnetId): Figures {
    if n in t.subnets then FiguresOf(t.subnets[n].cidr, Used(t, n)) else NOTHING
  }

  /** The shift of the capacity figure never leaves the 64-bit range. */
  lemma CapacityIsInt64(cidr: Cidr)
    ensures 0 <= SubnetCapacity(cidr) < TWO63
  {
    if cidr.addr.family.V4? {
      Pow2Mono(32 - cidr.bits, 32);
      if cidr.bits < 32 { Pow2Mono(1, 32 - cidr.bits); }
      Pow2Values();
    } else if HostBits(cidr) < 63 {
      Pow2Mono(HostBits(cidr), 62);
      Pow2Values();
    }
  }

  lemma Pow2Values()
    ensures Pow2(1) == 2 && Pow2(32) == 0x1_0000_0000 && Pow2(62) == 0x4000_0000_0000_0000
  {
    assert Pow2(8) == 256;
    Pow2Add(8, 8);
    Pow2Add(16, 16);
    assert Pow2(6) == 64;
    Pow2Add(8, 6);
    Pow2Add(16, 14);
    Pow2Add(32, 30);
  }

  ghost function Pick(ids: set<SubnetId>): (n: SubnetId)
    requires ids != {}
    ensures n in ids
  {
    var n :| n in ids;
    n
  }

  /** The sum of the figures of a set of subnets. */
  ghost function SumSet(f: SubnetId -> Figures, ids: set<SubnetId>): Figures
    decreases ids
  {
    if ids == {} then NOTHING
    else Plus(SumSet(f, ids - {Pick(ids)}), f(Pick(ids)))
  }

  function SubnetsOf(t: Tables, site: SiteId): set<SubnetId> {
    set n | n in t.subnets && t.subnets[n].site == Some(site)
  }

  function FiguresIn(t: Tables): SubnetId -> Figures {
    (n: SubnetId) => FiguresAt(t, n)
  }

  ghost function SiteFigures(t: Tables, site: SiteId): Figures {
    SumSet(FiguresIn(t), SubnetsOf(t, site))
  }

  lemma PlusSwap(a: Figures, b: Figures, c: Figures)
    ensures Plus(Plus(a, b), c) == Plus(Plus(a, c), b)
  {
  }

  /** Any element may be taken out first. */
  lemma {:induction false} SumSetWithout(f: SubnetId -> Figures, ids: set<SubnetId>, x: SubnetId)
    requires x in ids
    ensures SumSet(f, ids) == Plus(SumSet(f, ids - {x}), f(x))
    decreases ids
  {
    var n := Pick(ids);
    if n != x {
      var rest := ids - {n} - {x};
      SumSetWithout(f, ids - {n}, x);
      SumSetWithout(f, ids - {x}, n);
      assert ids - {x} - {n} == rest;
      PlusSwap(SumSet(f, rest), f(x), f(n));
    }
  }

  /** The IP rows in any of the subnets. */
  function IpsIn(t: Tables, ids: set<SubnetId>): set<IpId> {
    set i | i in t.ips && t.ips[i].subnet in ids
  }

  lemma IpsInWithout(t: Tables, ids: set<SubnetId>, n: SubnetId)
    requires n in ids
    ensures |IpsIn(t, ids)| == |IpsIn(t, ids - {n})| + Used(t, n)
  {
    assert IpsIn(t, ids) == IpsIn(t, ids - {n}) + IpsOf(t, n);
    assert IpsIn(t, ids - {n}) !! IpsOf(t, n);
  }

  lemma SumSetStep(f: SubnetId -> Figures, ids: set<SubnetId>, n: SubnetId)
    requires n in ids
    ensures SumSet(f, ids).subnets == SumSet(f, ids - {n}).subnets + f(n).subnets
    ensures SumSet(f, ids).used == SumSet(f, ids - {n}).used + f(n).used
  {
    SumSetWithout(f, ids, n);
  }

  /** Adding up counts the subnets. */
  lemma {:induction false} SumSetSubnets(f: SubnetId -> Figures, ids: set<SubnetId>)
    requires forall n :: n in ids ==> f(n).subnets == 1
    ensures SumSet(f, ids).subnets == |ids|
    decreases ids
  {
    if n :| n in ids {
      SumSetSubnets(f, ids - {n});
      SumSetStep(f, ids, n);
    }
  }

  /** And the IP rows in them. */
  lemma {:induction false} SumSetUsed(t: Tables, f: SubnetId -> Figures, ids: set<SubnetId>)
    requires forall n :: n in ids ==> f(n).used == Used(t, n)
    ensures SumSet(f, ids).used == |IpsIn(t, ids)|
    decreases ids
  {
    if n :| n in ids {
      SumSetUsed(t, f, ids - {n});
      SumSetStep(f, ids, n);
      IpsInWithout(t, ids, n);
    } else {
      assert IpsIn(t, ids) == {};
    }
  }

  /** The exact figures of a site: how many subnets it has, and how many IP rows these hold. */
  lemma SiteFiguresCount(t: Tables, site: SiteId)
    ensures SiteFigures(t, site).subnets == |set n | n in t.subnets && t.subnets[n].site == Some(site)|
    ensures SiteFigures(t, site).used ==
            |set i | i in t.ips && t.ips[i].subnet in t.subnets && t.subnets[t.ips[i].subnet].site == Some(site)|
  {
    SumSetSubnets(FiguresIn(t), SubnetsOf(t, site));
    SumSetUsed(t, FiguresIn(t), SubnetsOf(t, site));
    assert SubnetsOf(t, site) == set n | n in t.subnets && t.subnets[n].site == Some(site);
    assert IpsIn(t, SubnetsOf(t, site))
        == set i | i in t.ips && t.ips[i].subnet in t.subnets && t.subnets[t.ips[i].subnet].site == Some(site);
  }

  // ----- the query's rows, in any order

  ghost predicate RowOk(t: Tables, row: Row) {
    && row.subnet.Some? == row.cidr.Some?
    && (row.subnet.Some? ==>
          var n := row.subnet.value;
          n in t.subnets && t.subnets[n] == Subnet(row.cidr.value, Some(row.site)) && row.used == Used(t, n))
  }

  /** The rows list every subnet that has a site exactly once. */
  ghost predicate IsStatistics(t: Tables, rows: seq<Row>) {
    && (forall i :: 0 <= i < |rows| ==> RowOk(t, rows[i]))
    && (forall i, j :: 0 <= i < j < |rows| && rows[i].subnet.Some? ==> rows[i].subnet != rows[j].subnet)
    && (forall n :: n in t.subnets && t.subnets[n].site.Some? ==>
          exists i :: 0 <= i < |rows| && rows[i].subnet == Some(n))
  }

  function SumRows(rows: seq<Row>, site: SiteId): Figures
    decreases |rows|
  {
    if rows == [] then NOTHING
    else
      var row, before := rows[|rows| - 1], SumRows(rows[..|rows| - 1], site);
      if row.site == site && row.cidr.Some? then Plus(before, FiguresOf(row.cidr.value, row.used)) else before
  }

  /** The subnets of the site among the rows. */
  function Listed(rows: seq<Row>, site: SiteId): set<SubnetId> {
    set i | 0 <= i < |rows| && rows[i].site == site && rows[i].subnet.Some? :: rows[i].subnet.value
  }

  lemma FiguresOfRow(t: Tables, row: Row)
    requires RowOk(t, row) && row.subnet.Some?
    ensures row.cidr.Some? && FiguresIn(t)(row.subnet.value) == FiguresOf(row.cidr.value, row.used)
  {
  }

  /** A last row of the site adds its subnet's figures to both sums. */
  lemma LastRowAdds(t: Tables, rows: seq<Row>, site: SiteId)
    requires rows != [] && RowOk(t, rows[|rows| - 1]) && rows[|rows| - 1].site == site && rows[|rows| - 1].subnet.Some?
    requires rows[|rows| - 1].subnet.value !in Listed(rows[..|rows| - 1], site)
    ensures var n, k := rows[|rows| - 1].subnet.value, |rows| - 1;
            && SumRows(rows, site) == Plus(SumRows(rows[..k], site), FiguresIn(t)(n))
            && SumSet(FiguresIn(t), Listed(rows, site)) ==
                 Plus(SumSet(FiguresIn(t), Listed(rows[..k], site)), FiguresIn(t)(n))
  {
    FiguresOfRow(t, rows[|rows| - 1]);
    ListedLast(rows, site);
    SumSetWithout(FiguresIn(t), Listed(rows, site), rows[|rows| - 1].subnet.value);
  }

  /** Any other last row adds to neither. */
  lemma OtherRowAdds(t: Tables, rows: seq<Row>, site: SiteId)
    requires rows != [] && RowOk(t, rows[|rows| - 1])
    requires !(rows[|rows| - 1].site == site && rows[|rows| - 1].subnet.Some?)
    ensures SumRows(rows, site) == SumRows(rows[..|rows| - 1], site)
    ensures Listed(rows, site) == Listed(rows[..|rows| - 1], site)
  {
    ListedStep(rows, site);
  }

  lemma {:induction false} SumRowsIsSumSet(t: Tables, rows: seq<Row>, site: SiteId)
    requires forall i :: 0 <= i < |rows| ==> RowOk(t, rows[i])
    requires forall i, j :: 0 <= i < j < |rows| && rows[i].subnet.Some? ==> rows[i].subnet != rows[j].subnet
    ensures SumRows(rows, site) == SumSet(FiguresIn(t), Listed(rows, site))
    decreases |rows|
  {
    if rows == [] {
      assert Listed(rows, site) == {};
    } else {
      var k := |rows| - 1;
      SumRowsIsSumSet(t, rows[..k], site);
      if rows[k].site == site && rows[k].subnet.Some? {
        NotListedBefore(rows, site);
        LastRowAdds(t, rows, site);
      } else {
        OtherRowAdds(t, rows, site);
      }
    }
  }

  lemma NotListedBefore(rows: seq<Row>, site: SiteId)
    requires rows != [] && rows[|rows| - 1].subnet.Some?
    requires forall i, j :: 0 <= i < j < |rows| && rows[i].subnet.Some? ==> rows[i].subnet != rows[j].subnet
    ensures rows[|rows| - 1].subnet.value !in Listed(rows[..|rows| - 1], site)
  {
  }

  lemma ListedLast(rows: seq<Row>, site: SiteId)
    requires rows != [] && rows[|rows| - 1].site == site && rows[|rows| - 1].subnet.Some?
    requires rows[|rows| - 1].subnet.value !in Listed(rows[..|rows| - 1], site)
    ensures var n := rows[|rows| - 1].subnet.value;
            n in Listed(rows, site) && Listed(rows, site) - {n} == Listed(rows[..|rows| - 1], site)
  {
    ListedStep(rows, site);
  }

  lemma ListedStep(rows: seq<Row>, site: SiteId)
    requires rows != []
    ensures var k := |rows| - 1;
            Listed(rows, site) ==
              Listed(rows[..k], site)
              + if rows[k].site == site && rows[k].subnet.Some? then {rows[k].subnet.value} else {}
  {
    var k := |rows| - 1;
    forall n
      ensures n in Listed(rows, site)
              <==> n in Listed(rows[..k], site) || (rows[k].site == site && rows[k].subnet == Some(n))
    {
      if n in Listed(rows[..k], site) {
        var i :| 0 <= i < k && rows[..k][i].site == site && rows[..k][i].subnet == Some(n);
        assert rows[i].subnet == Some(n);
      }
      if n in Listed(rows, site) && rows[k].subnet != Some(n) {
        var i :| 0 <= i < |rows| && rows[i].site == site && rows[i].subnet == Some(n);
        assert rows[..k][i] == rows[i];
      }
    }
  }

  /** Whatever order the rows come in, they add up to the site's subnets. */
  lemma RowsAddUpSite(t: Tables, rows: seq<Row>, site: SiteId)
    requires IsStatistics(t, rows)
    ensures SumRows(rows, site) == SiteFigures(t, site)
  {
    SumRowsIsSumSet(t, rows, site);
    forall n | n in SubnetsOf(t, site)
      ensures n in Listed(rows, site)
    {
      var i :| 0 <= i < |rows| && rows[i].subnet == Some(n);
      assert RowOk(t, rows[i]);
    }
    assert Listed(rows, site) == SubnetsOf(t, site) by {
      assert forall i :: 0 <= i < |rows| ==> RowOk(t, rows[i]);
    }
  }

  // ----- the nested loop

  /** The figures as 64-bit integers; free addresses are total less used. */
  function Shown(site: SiteId, name: string, f: Figures): SiteStat {
    SiteStat(site, name, Wrap64(f.subnets), Wrap64(f.used), Wrap64(f.total - f.used), Wrap64(f.total))
  }

  /** One addition on wrapped figures, given the exact ones. */
  lemma AddWrapped(subnets: int, used: int, free: int, u: int, c: int)
    ensures Wrap64(Wrap64(subnets) + 1) == Wrap64(subnets + 1)
    ensures Wrap64(Wrap64(used) + u) == Wrap64(used + u)
    ensures Wrap64(Wrap64(free) + Wrap64(c - u)) == Wrap64(free + (c - u))
    ensures Wrap64(Wrap64(free + (c - u)) + Wrap64(used + u)) == Wrap64(used + free + c)
  {
    WrapAdd(subnets, 1);
    WrapAdd(used, u);
    WrapAdd(c - u, Wrap64(free));
    WrapAdd(free, c - u);
    WrapAdd(used + u, Wrap64(free + (c - u)));
    WrapAdd(free + (c - u), used + u);
  }

  /** The figures after one more subnet, field by field. */
  lemma ShownPlus(site: SiteId, name: string, f: Figures, u: nat, c: int)
    ensures Shown(site, name, Plus(f, Figures(1, u, c)))
            == SiteStat(site, name, Wrap64(f.subnets + 1), Wrap64(f.used + u), Wrap64(f.total - f.used + (c - u)),
                        Wrap64(f.total + c))
  {
    assert f.total + c - (f.used + u) == f.total - f.used + (c - u);
  }

  lemma AddKeepsShown(site: SiteId, name: string, f: Figures, row: Row)
    requires row.cidr.Some?
    ensures AddSubnetStatistic(Shown(site, name, f), row)
            == Shown(site, name, Plus(f, FiguresOf(row.cidr.value, row.used)))
  {
    var c := TotalIPs(SubnetCapacity(row.cidr.value), row.used);
    AddWrapped(f.subnets, f.used, f.total - f.used, row.used, c);
    ShownPlus(site, name, f, row.used, c);
    assert f.used + (f.total - f.used) + c == f.total + c;
  }

  /** Sums every site's subnets with 64-bit additions. */
  method Statistics(sites: seq<(SiteId, string)>, rows: seq<Row>) returns (r: seq<SiteStat>)
    ensures |r| == |sites|
    ensures forall i :: 0 <= i < |r| ==> r[i] == Shown(sites[i].0, sites[i].1, SumRows(rows, sites[i].0))
  {
    var statistics := new SiteStat[|sites|];
    for i := 0 to |sites|
      invariant forall k :: 0 <= k < i ==> statistics[k] == Shown(sites[k].0, sites[k].1, SumRows(rows, sites[k].0))
    {
      var (site, name) := sites[i];
      var stat := SiteStat(site, name, 0, 0, 0, 0);
      assert rows[..0] == [];
      for j := 0 to |rows|
        invariant stat == Shown(site, name, SumRows(rows[..j], site))
        invariant forall k :: 0 <= k < i ==> statistics[k] == Shown(sites[k].0, sites[k].1, SumRows(rows, sites[k].0))
      {
        assert rows[..j + 1][..j] == rows[..j];
        if rows[j].site == site {
          if rows[j].cidr.Some? { AddKeepsShown(site, name, SumRows(rows[..j], site), rows[j]); }
          stat := AddSubnetStatistic(stat, rows[j]);
        }
      }
      assert rows[..|rows|] == rows;
      assert stat == Shown(sites[i].0, sites[i].1, SumRows(rows, sites[i].0));
      statistics[i] := stat;
    }
    return statistics[..];
  }

  // ----- when the figures are right

  lemma {:induction false} UsedBelowTotal(f: SubnetId -> Figures, ids: set<SubnetId>)
    requires forall n :: f(n).used <= f(n).total
    ensures SumSet(f, ids).used <= SumSet(f, ids).total
    decreases ids
  {
    if ids != {} {
      UsedBelowTotal(f, ids - {Pick(ids)});
    }
  }

  /**
   * The statistics of a site are the exact sums of what is shown per subnet, with total =
   * used + free and no negative figure, exactly when the sums stay below 2^63. They do not
   * depend on the order of the rows.
   */
  lemma StatisticsAreExact(t: Tables, rows: seq<Row>, site: SiteId, name: string)
    requires IsStatistics(t, rows)
    ensures var stat, f := Shown(site, name, SumRows(rows, site)), SiteFigures(t, site);
            && stat == Shown(site, name, f) && stat.site == site && stat.name == name
            && (stat.subnets == f.subnets && stat.used == f.used && stat.free == f.total - f.used
                && stat.total == f.total
                <==> f.subnets < TWO63 && f.total < TWO63)
            && (f.total < TWO63 ==> 0 <= stat.used && 0 <= stat.free && stat.total == stat.used + stat.free)
            && f.subnets == |set n | n in t.subnets && t.subnets[n].site == Some(site)|
            && f.used == |set i | i in t.ips && t.ips[i].subnet in t.subnets
                            && t.subnets[t.ips[i].subnet].site == Some(site)|
  {
    SiteFiguresCount(t, site);
    RowsAddUpSite(t, rows, site);
    UsedBelowTotal(FiguresIn(t), SubnetsOf(t, site));
  }

  lemma TwoSubnets(cidr: Cidr)
    requires IsMasked(cidr)
    ensures var t := Run(EMPTY, [CreateSite("s"), CreateSubnet(cidr, Some(0)), CreateSubnet(cidr, Some(0))]);
            t.subnets == map[0 := Subnet(cidr, Some(0)), 1 := Subnet(cidr, Some(0))] && t.ips == map[]
  {
    var a, b := CreateSite("s"), CreateSubnet(cidr, Some(0));
    var ops := [a, b, b];
    assert Run(EMPTY, []) == EMPTY;
    assert [a][..0] == [];
    assert !NameTaken(EMPTY, "s");
    assert Run(EMPTY, [a]) == Tables(map[0 := "s"], map[], map[], 1, 0, 0);
    assert [a, b][..1] == [a];
    assert Run(EMPTY, [a, b]) == Tables(map[0 := "s"], map[0 := Subnet(cidr, Some(0))], map[], 1, 1, 0);
    assert ops[..2] == [a, b];
  }

  /** Two IPv6 /66 subnets overflow their site: the total comes out as -2^63. */
  lemma TwoWidePrefixesOverflow(cidr: Cidr, t: Tables, rows: seq<Row>)
    requires cidr.addr.family.V6? && cidr.bits == 66 && IsMasked(cidr)
    requires t == Run(EMPTY, [CreateSite("s"), CreateSubnet(cidr, Some(0)), CreateSubnet(cidr, Some(0))])
    requires IsStatistics(t, rows)
    ensures Shown(0, "s", SumRows(rows, 0)).total == -TWO63
  {
    var ops := [CreateSite("s"), CreateSubnet(cidr, Some(0)), CreateSubnet(cidr, Some(0))];
    TwoSubnets(cidr);
    EmptyPair(t, cidr);
    RowsAddUpSite(t, rows, 0);
    WideFigures(cidr);
  }

  lemma SumPair(f: SubnetId -> Figures, ids: set<SubnetId>, m: SubnetId, n: SubnetId)
    requires m in ids && n in ids && m != n && ids - {m} - {n} == {}
    ensures SumSet(f, ids) == Plus(f(n), f(m))
  {
    SumSetWithout(f, ids, m);
    SumSetWithout(f, ids - {m}, n);
    PlusNothing(f(n));
  }

  lemma PlusNothing(f: Figures)
    ensures Plus(NOTHING, f) == f
  {
  }

  lemma WideFigures(cidr: Cidr)
    requires cidr.addr.family.V6? && cidr.bits == 66
    ensures FiguresOf(cidr, 0) == Figures(1, 0, 0x4000_0000_0000_0000)
  {
    Pow2Values();
  }

  lemma EmptyPair(t: Tables, cidr: Cidr)
    requires t.subnets == map[0 := Subnet(cidr, Some(0)), 1 := Subnet(cidr, Some(0))] && t.ips == map[]
    ensures SiteFigures(t, 0) == Plus(FiguresOf(cidr, 0), FiguresOf(cidr, 0))
  {
    assert SubnetsOf(t, 0) - {0} - {1} == {};
    SumPair(FiguresIn(t), SubnetsOf(t, 0), 0, 1);
    assert IpsOf(t, 0) == {} && IpsOf(t, 1) == {};
  }

  // ----- the totals shown per subnet

  datatype SubnetView = SubnetView(id: SubnetId, cidr: Cidr, site: Option<SiteId>, used: nat, total: int)

  function EnrichSubnet(s: SubnetView): SubnetView {
    s.(total := TotalIPs(SubnetCapacity(s.cidr), s.used))
  }

  /** Only the total is new: the larger of the capacity and the used count. */
  predicate HasTotal(before: SubnetView, after: SubnetView) {
    && after.id == before.id && after.cidr == before.cidr && after.site == before.site && after.used == before.used
    && after.total >= SubnetCapacity(before.cidr) && after.total >= before.used
    && (after.total == SubnetCapacity(before.cidr) || after.total == before.used)
  }

  /** Fills in the totals of a list of subnets in place. */
  method EnrichSubnets(subnets: array<SubnetView>)
    modifies subnets
    ensures subnets[..] == Map(EnrichSubnet, old(subnets[..]))
    ensures forall k :: 0 <= k < subnets.Length ==> HasTotal(old(subnets[k]), subnets[k])
  {
    for i := 0 to subnets.Length
      invariant forall k :: 0 <= k < i ==> subnets[k] == EnrichSubnet(old(subnets[k]))
      invariant forall k :: i <= k < subnets.Length ==> subnets[k] == old(subnets[k])
    {
      subnets[i] := EnrichSubnet(subnets[i]);
    }
  }

  /** The list of all subnets as read from the tables. */
  ghost predicate IsListing(t: Tables, views: seq<SubnetView>) {
    && (forall i :: 0 <= i < |views| ==>
          views[i].id in t.subnets && t.subnets[views[i].id] == Subnet(views[i].cidr, views[i].site)
            && views[i].used == Used(t, views[i].id))
    && (forall i, j :: 0 <= i < j < |views| ==> views[i].id != views[j].id)
    && (forall n :: n in t.subnets ==> exists i :: 0 <= i < |views| && views[i].id == n)
  }

  function TotalShown(views: seq<SubnetView>, site: SiteId): int
    decreases |views|
  {
    if views == [] then 0
    else
      var last := views[|views| - 1];
      TotalShown(views[..|views| - 1], site) + if last.site == Some(site) then last.total else 0
  }

  function RowsOf(views: seq<SubnetView>): seq<Row> {
    seq(|views|, i requires 0 <= i < |views| =>
      if views[i].site.None? then Row(0, None, None, 0)
         else Row(views[i].site.value, Some(views[i].id), Some(views[i].cidr), views[i].used))
  }

  lemma {:induction false} TotalShownIsSumRows(views: seq<SubnetView>, site: SiteId)
    ensures TotalShown(Map(EnrichSubnet, views), site) == SumRows(RowsOf(views), site).total
    decreases |views|
  {
    if views != [] {
      var k := |views| - 1;
      TotalShownIsSumRows(views[..k], site);
      var enriched, rows := Map(EnrichSubnet, views), RowsOf(views);
      assert enriched[..k] == Map(EnrichSubnet, views[..k]) && enriched[k] == EnrichSubnet(views[k]);
      assert rows[..k] == RowsOf(views[..k]);
      if views[k].site == Some(site) {
        assert rows[k] == Row(site, Some(views[k].id), Some(views[k].cidr), views[k].used);
      } else {
        assert rows[k].cidr.None? || rows[k].site != site;
      }
    }
  }

  /** A site's total is the sum of the totals its subnets show, unless it overflows. */
  lemma SiteTotalIsShownTotals(t: Tables, views: seq<SubnetView>, rows: seq<Row>, site: SiteId, name: string)
    requires IsListing(t, views) && IsStatistics(t, rows)
    ensures Shown(site, name, SumRows(rows, site)).total == Wrap64(TotalShown(Map(EnrichSubnet, views), site))
  {
    TotalShownIsSumRows(views, site);
    ListingIsStatistics(t, views);
    RowsAddUpSite(t, RowsOf(views), site);
    RowsAddUpSite(t, rows, site);
  }

  lemma ListingIsStatistics(t: Tables, views: seq<SubnetView>)
    requires IsListing(t, views)
    ensures IsStatistics(t, RowsOf(views))
  {
    var rows := RowsOf(views);
    forall n | n in t.subnets && t.subnets[n].site.Some?
      ensures exists i :: 0 <= i < |rows| && rows[i].subnet == Some(n)
    {
      var i :| 0 <= i < |views| && views[i].id == n;
      assert rows[i].subnet == Some(n);
    }
  }
}
