/** Inputs at which promises with a condition fail: each is reachable, and small. */
module Counterexamples {
  import opened Wrappers
  import opened Addresses
  import opened Ipam
  import opened Discovery
  import opened KubernetesClient
  import SubnetView
  import CsvUpsert
  import CsvImport
  import CsvConvergence
  import CsvFiles
  import Protocol
  import Runner
  import CanonicalListing
  import StorableCommits

  // ----- a CIDR update that leaves an address outside

  /** 10.0.0.0 under a mask. */
  function Net(bits: nat): Cidr
    requires bits <= 32
  {
    SubnetView.PrefixOf(SubnetView.Quad(10, 0, 0, 0), bits)
  }

  /** 10.0.0.d */
  function Host(d: SubnetView.Octet): IpAddr {
    SubnetView.PrefixOf(SubnetView.Quad(10, 0, 0, d), 32).addr
  }

  lemma NetSizes()
    ensures Size(Net(24)) == 256 && Size(Net(25)) == 128
  {
    assert Pow2(7) == 128 && Pow2(8) == 256;
  }

  lemma NetMasked()
    ensures IsMasked(Net(24)) && IsMasked(Net(25))
  {
    NetSizes();
  }

  lemma HostInNet(d: SubnetView.Octet)
    requires 0 < d < 255
    ensures Accepts(Net(24), Host(d))
  {
    NetSizes();
    ContainsIsRange(Net(24), Host(d));
  }

  lemma HostOutsideHalf(d: SubnetView.Octet)
    requires d >= 128
    ensures !Accepts(Net(25), Host(d))
  {
    NetSizes();
    ContainsIsRange(Net(25), Host(d));
  }

  const SETUP: seq<Op> := [CreateSite("s"), CreateSubnet(Net(24), Some(0)), CreateIp(0, Host(200), "h")]

  lemma AfterSetup()
    ensures Run(EMPTY, SETUP) == OneAddress(Net(24), Host(200))
  {
    var a, b, c := CreateSite("s"), CreateSubnet(Net(24), Some(0)), CreateIp(0, Host(200), "h");
    NetMasked();
    HostInNet(200);
    assert Run(EMPTY, []) == EMPTY;
    assert [a][..0] == [];
    assert !NameTaken(EMPTY, "s");
    var t1 := Tables(map[0 := "s"], map[], map[], 1, 0, 0);
    assert Run(EMPTY, [a]) == t1;
    assert [a, b][..1] == [a];
    var t2 := Tables(map[0 := "s"], map[0 := Subnet(Net(24), Some(0))], map[], 1, 1, 0);
    assert Run(EMPTY, [a, b]) == t2;
    assert SETUP[..2] == [a, b];
    assert !AddressTaken(t2, 0, Host(200));
  }

  function OneAddress(cidr: Cidr, a: IpAddr): Tables {
    Tables(map[0 := "s"], map[0 := Subnet(cidr, Some(0))], map[0 := Ip(a, "h", 0)], 1, 1, 1)
  }

  lemma OneAddressContained(cidr: Cidr, a: IpAddr)
    ensures Contained(OneAddress(cidr, a)) <==> Accepts(cidr, a)
  {
    assert 0 in OneAddress(cidr, a).ips;
  }

  lemma OneAddressUpdated(cidr: Cidr, cidr': Cidr, a: IpAddr)
    requires IsMasked(cidr')
    ensures Exec(OneAddress(cidr, a), UpdateSubnet(0, cidr', Some(0))) == Ok(OneAddress(cidr', a))
  {
    var subnets := map[0 := Subnet(cidr, Some(0))];
    assert subnets[0 := Subnet(cidr', Some(0))] == map[0 := Subnet(cidr', Some(0))];
  }

  /** 10.0.0.200 is created in 10.0.0.0/24; the update to 10.0.0.0/25 succeeds and leaves it outside. */
  lemma CidrUpdateLeavesAddressOutside()
    ensures var t, op := Run(EMPTY, SETUP), UpdateSubnet(0, Net(25), Some(0));
            Contained(t) && Exec(t, op).Ok? && !Contained(After(t, op))
  {
    AfterSetup();
    NetMasked();
    HostInNet(200);
    HostOutsideHalf(200);
    OneAddressUpdated(Net(24), Net(25), Host(200));
    OneAddressContained(Net(24), Host(200));
    OneAddressContained(Net(25), Host(200));
  }

  // ----- a hostname reported twice

  const TWICE := Object("u", "ns", "web", "LoadBalancer", "1", "", "", [], [],
                        [Ingress("", "lb.example", None), Ingress("", "lb.example", None)])

  lemma TwiceConverts(lib: Library)
    ensures SnapshotOf(lib, TWICE, "").Ok? && !Storable(SnapshotOf(lib, TWICE, "").value)
  {
    SnapshotExact(lib, TWICE, "", CLUSTER_IP, Host(1));
    assert TWICE.ingress[0].hostname == TWICE.ingress[1].hostname;
  }

  /**
   * A service with two ingress entries of one hostname is listed without complaint, but its
   * round can store nothing.
   */
  lemma DuplicateHostnameBlocksRound(lib: Library, ipam: Tables, cfg: SourceConfig)
    ensures CollectLists(lib, "", [Ok([TWICE])]).Ok? && !Runner.Committable(ipam, cfg, [Ok([TWICE])])
  {
    TwiceConverts(lib);
    var lists: seq<Listing> := [Ok([TWICE])];
    assert lists[..0] == [];
    assert CanonicalListing.AllObjects(lists) == [TWICE];
    CanonicalListing.ConvertsIff(lib, TWICE, "");
    CanonicalListing.CollectListsIsMap(lib, "", lists);
    assert TWICE.ingress[0].hostname == TWICE.ingress[1].hostname;
  }

  /** And over every interleaving no reconcile that contains it commits. */
  lemma DuplicateHostnameNeverCommits(lib: Library, s: Snapshot, hash: string -> int, steps: seq<Protocol.Step>, h: nat)
    requires SnapshotOf(lib, TWICE, "") == Ok(s)
    ensures var history := Protocol.Run(hash, steps).history;
            h < |history| && history[h].Reconcile? ==> s !in history[h].services
  {
    TwiceConverts(lib);
    StorableCommits.OnlyStorableCommits(hash, steps);
    var history := Protocol.Run(hash, steps).history;
    if h < |history| && history[h].Reconcile? {
      assert AllStorable(history[h].services);
    }
  }

  // ----- a file whose second import updates

  /** Reads the two texts of the file below. */
  const READER := CsvImport.Parser(s => s, s => if s == "10.0.0.0/24" then Some(Net(24)) else None,
                                   s => if s == "10.0.0.5" then Some(Host(5)) else None, s => |s|)

  function LineOf(description: string): CsvImport.Row {
    CsvImport.Fields(["s", "10.0.0.0/24", "10.0.0.5", description])
  }

  const TWO_LINES: seq<CsvImport.Row> := [LineOf("a"), LineOf("b")]

  lemma LineFits(description: string)
    requires |description| == 1
    ensures CsvImport.CheckRow(READER, LineOf(description)) == None
  {
    var fields := LineOf(description).fields;
    assert READER.bytes(fields[0]) == 1 && READER.bytes(fields[1]) == 11 && READER.bytes(fields[2]) == 8
           && READER.bytes(fields[3]) == 1;
    CsvImport.BytesOfFour(READER, fields);
  }

  lemma HostInMasked(d: SubnetView.Octet)
    requires 0 < d < 255
    ensures Accepts(Masked(Net(24)), Host(d))
  {
    HostInNet(d);
    MaskedSameVerdicts(Net(24), Host(d));
  }

  lemma ReaderReads()
    ensures READER.trim("s") == "s"
    ensures READER.prefix(READER.trim("10.0.0.0/24")) == Some(Net(24))
            && READER.addr(READER.trim("10.0.0.5")) == Some(Host(5))
  {
  }

  lemma LineParses(description: string)
    requires |description| == 1
    ensures CsvImport.ParseRow(READER, LineOf(description))
            == Ok(CsvUpsert.Entry("s", Masked(Net(24)), Host(5), description))
  {
    var p := READER;
    LineFits(description);
    HostInMasked(5);
    ReaderReads();
    FieldsMean(p, LineOf(description).fields, "s", Net(24), Host(5));
  }

  lemma FieldsMean(p: CsvImport.Parser, fields: seq<string>, site: string, prefix: Cidr, addr: IpAddr)
    requires |fields| == 4 && site != "" && p.trim(fields[0]) == site
    requires p.prefix(p.trim(fields[1])) == Some(prefix) && p.addr(p.trim(fields[2])) == Some(addr)
             && Accepts(Masked(prefix), addr)
    ensures CsvImport.ParseFields(p, fields) == Ok(CsvUpsert.Entry(site, Masked(prefix), addr, fields[3]))
  {
  }

  lemma TwoEntries()
    ensures CsvFiles.Entries(READER, TWO_LINES) ==
            [CsvUpsert.Entry("s", Masked(Net(24)), Host(5), "a"), CsvUpsert.Entry("s", Masked(Net(24)), Host(5), "b")]
  {
    LineParses("a");
    LineParses("b");
    assert TWO_LINES[..1] == [LineOf("a")] && [LineOf("a")][..0] == [];
    assert CsvFiles.Entries(READER, []) == [];
    assert CsvFiles.Entries(READER, [LineOf("a")]) == [CsvUpsert.Entry("s", Masked(Net(24)), Host(5), "a")];
  }

  /** One address with two descriptions: importing the file again still updates. */
  lemma SecondImportStillUpdates()
    ensures var once := CsvFiles.ImportRows(READER, EMPTY, TWO_LINES).0;
            CsvImport.Summary(CsvFiles.ImportRows(READER, once, TWO_LINES).1).updated > 0
  {
    TwoEntries();
    var es := CsvFiles.Entries(READER, TWO_LINES);
    assert CsvConvergence.SameKey(es[0], es[1]) && es[0].description != es[1].description;
    CsvFiles.FileReimportConverges(READER, EMPTY, TWO_LINES);
  }
}
