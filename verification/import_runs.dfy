/** Whole imports inside runs of service calls: an import is a run of calls that change no CIDR. */
module ImportRuns {
  import opened Wrappers
  import opened Addresses
  import opened Ipam
  import opened CsvUpsert
  import opened CsvImport

  // ----- runs put end to end

  lemma {:induction false} RunConcat(t: Tables, a: seq<Op>, b: seq<Op>)
    ensures Run(t, a + b) == Run(Run(t, a), b)
    decreases |b|
  {
    if b == [] {
      assert a + b == a;
    } else {
      var k := |b| - 1;
      RunConcat(t, a, b[..k]);
      assert (a + b)[..|a + b| - 1] == a + b[..k];
    }
  }

  lemma StableConcat(t: Tables, a: seq<Op>, b: seq<Op>)
    requires CidrStable(t, a) && CidrStable(Run(t, a), b)
    ensures CidrStable(t, a + b)
  {
    var ops := a + b;
    forall k | 0 <= k < |ops|
      ensures KeepsCidr(Run(t, ops[..k]), ops[k])
    {
      StableAt(t, a, b, k);
    }
  }

  lemma StableAt(t: Tables, a: seq<Op>, b: seq<Op>, k: nat)
    requires CidrStable(t, a) && CidrStable(Run(t, a), b) && k < |a + b|
    ensures KeepsCidr(Run(t, (a + b)[..k]), (a + b)[k])
  {
    var ops := a + b;
    if k < |a| {
      assert ops[..k] == a[..k];
    } else {
      var j := k - |a|;
      assert ops[..k] == a + b[..j] && ops[k] == b[j];
      RunConcat(t, a, b[..j]);
      assert KeepsCidr(Run(Run(t, a), b[..j]), b[j]);
    }
  }

  /** Some run of calls that change no CIDR leads from t to t'. */
  ghost predicate Reaches(t: Tables, t': Tables) {
    exists ops :: CidrStable(t, ops) && Run(t, ops) == t'
  }

  lemma ReachesItself(t: Tables)
    ensures Reaches(t, t)
  {
    assert CidrStable(t, []) && Run(t, []) == t;
  }

  lemma ReachesThrough(a: Tables, b: Tables, c: Tables)
    requires Reaches(a, b) && Reaches(b, c)
    ensures Reaches(a, c)
  {
    var first :| CidrStable(a, first) && Run(a, first) == b;
    var second :| CidrStable(b, second) && Run(b, second) == c;
    StableConcat(a, first, second);
    RunConcat(a, first, second);
  }

  lemma ReachesByCall(t: Tables, op: Op)
    requires KeepsCidr(t, op)
    ensures Reaches(t, After(t, op))
  {
    var ops := [op];
    assert ops[..0] == [] && Run(t, []) == t;
    assert CidrStable(t, ops) && Run(t, ops) == After(t, op);
  }

  // ----- an import is such a run

  lemma SiteReaches(t: Tables, name: string, down: bool)
    requires EnsureSite(t, name, down).Ok?
    ensures Reaches(t, EnsureSite(t, name, down).value.0)
  {
    ReachesItself(t);
    ReachesByCall(t, CreateSite(name));
  }

  lemma SubnetReaches(t: Tables, site: SiteId, cidr: Cidr, down: bool)
    requires EnsureSubnet(t, site, cidr, down).Ok?
    ensures Reaches(t, EnsureSubnet(t, site, cidr, down).value.0)
  {
    ReachesItself(t);
    ReachesByCall(t, CreateSubnet(cidr, Some(site)));
  }

  lemma IpReaches(t: Tables, subnet: SubnetId, addr: IpAddr, description: string, o: Outages)
    ensures Reaches(t, PutIp(t, subnet, addr, description, o).tables)
  {
    ReachesItself(t);
    var known := IpAt(t, subnet, addr);
    if known.Some? {
      ReachesByCall(t, UpdateIpHostname(subnet, known.value, description));
    } else {
      ReachesByCall(t, CreateIp(subnet, addr, description));
    }
  }

  lemma UpsertReaches(t: Tables, e: Entry, o: Outages)
    ensures Reaches(t, UpsertEntry(t, e, o).tables)
  {
    ReachesItself(t);
    var made := EnsureSite(t, e.site, o.createSite);
    if made.Ok? {
      var (t1, site) := made.value;
      SiteReaches(t, e.site, o.createSite);
      var placed := EnsureSubnet(t1, site, e.cidr, o.createSubnet);
      if placed.Ok? {
        var (t2, subnet) := placed.value;
        SubnetReaches(t1, site, e.cidr, o.createSubnet);
        ReachesThrough(t, t1, t2);
        IpReaches(t2, subnet, e.addr, e.description, o);
        ReachesThrough(t, t2, UpsertEntry(t, e, o).tables);
      }
    }
  }

  lemma RowReaches(p: Parser, t: Tables, row: Row, o: Outages)
    ensures Reaches(t, RowSpec(p, t, row, o).tables)
  {
    ReachesItself(t);
    if ParseRow(p, row).Ok? {
      UpsertReaches(t, ParseRow(p, row).value, o);
    }
  }

  /** Whatever the rows and the outages, an import is a run of service calls that change no CIDR. */
  lemma {:induction false} ImportReaches(p: Parser, t: Tables, rows: seq<Row>, os: seq<Outages>)
    requires |os| == |rows|
    ensures Reaches(t, RowsSpec(p, t, rows, os).0)
    decreases |rows|
  {
    if rows == [] {
      ReachesItself(t);
    } else {
      var k := |rows| - 1;
      var t1 := RowsSpec(p, t, rows[..k], os[..k]).0;
      ImportReaches(p, t, rows[..k], os[..k]);
      RowReaches(p, t1, rows[k], os[k]);
      ReachesThrough(t, t1, RowsSpec(p, t, rows, os).0);
    }
  }

  // ----- runs that mix calls and imports

  /** A service call, or an import with the outages that its rows meet. */
  datatype Action = Call(op: Op) | Import(p: Parser, rows: seq<Row>, os: seq<Outages>)

  ghost function Perform(t: Tables, a: Action): Tables {
    match a
    case Call(op) => After(t, op)
    case Import(p, rows, os) => if |os| == |rows| then RowsSpec(p, t, rows, os).0 else t
  }

  ghost function RunActions(t: Tables, actions: seq<Action>): Tables
    decreases |actions|
  {
    if actions == [] then t else Perform(RunActions(t, actions[..|actions| - 1]), actions[|actions| - 1])
  }

  /** No service call of the run changes an existing subnet's CIDR. Imports never do. */
  ghost predicate ActionsStable(t: Tables, actions: seq<Action>) {
    forall k :: 0 <= k < |actions| && actions[k].Call? ==> KeepsCidr(RunActions(t, actions[..k]), actions[k].op)
  }

  lemma {:induction false} ActionsReach(t: Tables, actions: seq<Action>)
    requires ActionsStable(t, actions)
    ensures Reaches(t, RunActions(t, actions))
    decreases |actions|
  {
    if actions == [] {
      ReachesItself(t);
    } else {
      var k := |actions| - 1;
      var before, last := actions[..k], actions[k];
      forall j | 0 <= j < k && before[j].Call?
        ensures KeepsCidr(RunActions(t, before[..j]), before[j].op)
      {
        assert before[..j] == actions[..j];
      }
      ActionsReach(t, before);
      var t1 := RunActions(t, before);
      PerformReaches(t1, last);
      ReachesThrough(t, t1, Perform(t1, last));
    }
  }

  lemma PerformReaches(t: Tables, a: Action)
    requires a.Call? ==> KeepsCidr(t, a.op)
    ensures Reaches(t, Perform(t, a))
  {
    match a
    case Call(op) => ReachesByCall(t, op);
    case Import(p, rows, os) =>
      ReachesItself(t);
      if |os| == |rows| { ImportReaches(p, t, rows, os); }
  }

  /**
   * In every run of service calls and whole imports in which no call changes a CIDR, each
   * stored IP passes the allocation check of its subnet.
   */
  lemma MixedRunStaysContained(actions: seq<Action>)
    requires ActionsStable(EMPTY, actions)
    ensures Inv(RunActions(EMPTY, actions)) && Contained(RunActions(EMPTY, actions))
  {
    ActionsReach(EMPTY, actions);
    var ops :| CidrStable(EMPTY, ops) && Run(EMPTY, ops) == RunActions(EMPTY, actions);
    RunKeepsInv(EMPTY, ops);
    RunStaysContained(EMPTY, ops);
  }

  /** And the used count never exceeds the capacity, so the total shown is the capacity. */
  lemma MixedRunWithinCapacity(actions: seq<Action>, subnet: SubnetId)
    requires ActionsStable(EMPTY, actions)
    ensures var t := RunActions(EMPTY, actions);
            subnet in t.subnets
              && (t.subnets[subnet].cidr.addr.family.V6? ==> HostBits(t.subnets[subnet].cidr) < 63) ==>
              && Used(t, subnet) <= SubnetCapacity(t.subnets[subnet].cidr)
              && TotalIPs(SubnetCapacity(t.subnets[subnet].cidr), Used(t, subnet))
                 == SubnetCapacity(t.subnets[subnet].cidr)
  {
    var t := RunActions(EMPTY, actions);
    MixedRunStaysContained(actions);
    if subnet in t.subnets && (t.subnets[subnet].cidr.addr.family.V6? ==> HostBits(t.subnets[subnet].cidr) < 63) {
      UsedWithinCapacity(t, subnet);
    }
  }
}
