/**
 * Listing the cluster's services and turning each into a snapshot. The API's answers are
 * parameters; so are the library functions on text.
 */
module KubernetesClient {
  import opened Wrappers
  import opened Addresses
  import opened Discovery
  import opened TextOrder

  datatype Library = Library(parseAddr: string -> Option<IpAddr>, trimSpace: string -> string, itoa: int -> string)

  datatype ServicePort = ServicePort(name: string, protocol: string, port: int, targetPort: string, nodePort: int,
                                     appProtocol: Option<string>)

  datatype Ingress = Ingress(ip: string, hostname: string, ipMode: Option<string>)

  datatype Object = Object(
    uid: Uid, namespace: string, name: string, serviceType: string, resourceVersion: string, externalName: string,
    clusterIP: string, clusterIPs: seq<string>, ports: seq<ServicePort>, ingress: seq<Ingress>)

  datatype ClientError = ListFailed | NoUid | InvalidClusterIp | InvalidLoadBalancerIp

  // ----- one service

  function Lower(c: char): char {
    if 'A' <= c <= 'Z' then (c as int + 32) as char else c
  }

  /** The literal None, in any case. */
  predicate IsNone(raw: string) {
    |raw| == 4 && Lower(raw[0]) == 'n' && Lower(raw[1]) == 'o' && Lower(raw[2]) == 'n' && Lower(raw[3]) == 'e'
  }

  /** An IPv4-mapped IPv6 address counts as the IPv4 address. */
  function Unmap(a: IpAddr): IpAddr {
    if a.family.V6? && a.value / Pow2(32) == 0xffff then Addr(V4, a.value % Pow2(32)) else a
  }

  function OptionalPort(port: int): Option<int> {
    if port == 0 then None else Some(port)
  }

  function PortOf(lib: Library, p: ServicePort): Port {
    Port(p.name, p.protocol, p.port, if p.targetPort == "0" then lib.itoa(p.port) else p.targetPort,
         if p.appProtocol.Some? then p.appProtocol.value else "", OptionalPort(p.nodePort))
  }

  function PortsOf(lib: Library, ports: seq<ServicePort>): seq<Port> {
    seq(|ports|, i requires 0 <= i < |ports| => PortOf(lib, ports[i]))
  }

  predicate Has(addresses: seq<Address>, kind: string, addr: IpAddr) {
    exists i :: 0 <= i < |addresses| && addresses[i].kind == kind && addresses[i].addr == addr
  }

  function Add(addresses: seq<Address>, a: Address): seq<Address> {
    if Has(addresses, a.kind, a.addr) then addresses else addresses + [a]
  }

  function ClusterIPs(o: Object): seq<string> {
    if o.clusterIPs == [] && o.clusterIP != "" then [o.clusterIP] else o.clusterIPs
  }

  function ClusterAddresses(lib: Library, raws: seq<string>): Result<seq<Address>, ClientError>
    decreases |raws|
  {
    if raws == [] then Ok([])
    else
      var raw := raws[|raws| - 1];
      match ClusterAddresses(lib, raws[..|raws| - 1])
      case Err(x) => Err(x)
      case Ok(before) =>
        if raw == "" || IsNone(raw) then Ok(before)
        else if lib.parseAddr(raw).None? then Err(InvalidClusterIp)
        else Ok(Add(before, Address(CLUSTER_IP, Unmap(lib.parseAddr(raw).value), "")))
  }

  function ModeOf(entry: Ingress): string {
    if entry.ipMode.Some? then entry.ipMode.value else ""
  }

  function IngressAddresses(lib: Library, start: seq<Address>, ingress: seq<Ingress>): Result<seq<Address>, ClientError>
    decreases |ingress|
  {
    if ingress == [] then Ok(start)
    else
      var last := ingress[|ingress| - 1];
      match IngressAddresses(lib, start, ingress[..|ingress| - 1])
      case Err(x) => Err(x)
      case Ok(before) =>
        if last.ip == "" then Ok(before)
        else if lib.parseAddr(last.ip).None? then Err(InvalidLoadBalancerIp)
        else Ok(Add(before, Address(LOAD_BALANCER, Unmap(lib.parseAddr(last.ip).value), ModeOf(last))))
  }

  /** Every reported hostname, duplicates included. */
  function IngressHostnames(ingress: seq<Ingress>): seq<Hostname>
    decreases |ingress|
  {
    if ingress == [] then []
    else
      var last := ingress[|ingress| - 1];
      IngressHostnames(ingress[..|ingress| - 1])
        + if last.hostname != "" then [Hostname(LOAD_BALANCER, last.hostname)] else []
  }

  function TrimDots(s: string): (r: string)
    ensures r != "" ==> r[0] != '.' && r[|r| - 1] != '.'
    decreases |s|
  {
    if s == "" then s
    else if s[0] == '.' then TrimDots(s[1..])
    else if s[|s| - 1] == '.' then TrimDots(s[..|s| - 1])
    else s
  }

  function DnsName(lib: Library, name: string, namespace: string, clusterDomain: string): string {
    var relative, domain := name + "." + namespace + ".svc", TrimDots(lib.trimSpace(clusterDomain));
    if domain == "" then relative else relative + "." + domain
  }

  function InfoOf(lib: Library, o: Object, clusterDomain: string): Info {
    Info(o.namespace, o.name, o.serviceType, o.resourceVersion, o.externalName,
         DnsName(lib, o.name, o.namespace, clusterDomain))
  }

  function SnapshotOf(lib: Library, o: Object, clusterDomain: string): Result<Snapshot, ClientError> {
    if o.uid == "" then Err(NoUid)
    else
      match ClusterAddresses(lib, ClusterIPs(o))
      case Err(x) => Err(x)
      case Ok(cluster) =>
        match IngressAddresses(lib, cluster, o.ingress)
        case Err(x) => Err(x)
        case Ok(addresses) =>
          Ok(Snapshot(o.uid, InfoOf(lib, o, clusterDomain), PortsOf(lib, o.ports), addresses,
                      IngressHostnames(o.ingress)))
  }

  // ----- the loops

  /** Which (kind, address) pairs were seen, next to the addresses kept so far. */
  class Collector {
    var addresses: seq<Address>
    var seen: set<(string, IpAddr)>

    ghost predicate Valid()
      reads this
    {
      forall kind, addr :: (kind, addr) in seen <==> Has(addresses, kind, addr)
    }

    constructor ()
      ensures Valid() && addresses == []
    {
      addresses, seen := [], {};
    }

    method AppendAddress(a: Address)
      requires Valid()
      modifies this
      ensures Valid() && addresses == Add(old(addresses), a)
    {
      if (a.kind, a.addr) in seen {
        return;
      }
      ghost var before := addresses;
      seen := seen + {(a.kind, a.addr)};
      addresses := addresses + [a];
      forall kind, addr
        ensures (kind, addr) in seen <==> Has(addresses, kind, addr)
      {
        HasSnoc(before, a, kind, addr);
      }
    }

    method AppendClusterIPs(lib: Library, raws: seq<string>) returns (r: Result<(), ClientError>)
      requires Valid() && addresses == []
      modifies this
      ensures Valid()
      ensures match ClusterAddresses(lib, raws)
              case Ok(after) => r == Ok(()) && addresses == after
              case Err(x) => r == Err(x)
    {
      for i := 0 to |raws|
        invariant Valid() && ClusterAddresses(lib, raws[..i]) == Ok(addresses)
      {
        assert raws[..i + 1][..i] == raws[..i];
        var raw := raws[i];
        if raw != "" && !IsNone(raw) {
          var parsed := lib.parseAddr(raw);
          if parsed.None? {
            ClusterErrorStays(lib, raws, i + 1);
            return Err(InvalidClusterIp);
          }
          AppendAddress(Address(CLUSTER_IP, Unmap(parsed.value), ""));
        }
      }
      assert raws[..|raws|] == raws;
      return Ok(());
    }

    method AppendIngress(lib: Library, ingress: seq<Ingress>) returns (r: Result<seq<Hostname>, ClientError>)
      requires Valid()
      modifies this
      ensures Valid()
      ensures match IngressAddresses(lib, old(addresses), ingress)
              case Ok(after) => r == Ok(IngressHostnames(ingress)) && addresses == after
              case Err(x) => r == Err(x)
    {
      ghost var start := addresses;
      var hostnames: seq<Hostname> := [];
      for i := 0 to |ingress|
        invariant Valid() && IngressAddresses(lib, start, ingress[..i]) == Ok(addresses)
        invariant hostnames == IngressHostnames(ingress[..i])
      {
        assert ingress[..i + 1][..i] == ingress[..i];
        var entry := ingress[i];
        if entry.ip != "" {
          var parsed := lib.parseAddr(entry.ip);
          if parsed.None? {
            IngressErrorStays(lib, start, ingress, i + 1);
            return Err(InvalidLoadBalancerIp);
          }
          AppendAddress(Address(LOAD_BALANCER, Unmap(parsed.value), ModeOf(entry)));
        }
        if entry.hostname != "" {
          hostnames := hostnames + [Hostname(LOAD_BALANCER, entry.hostname)];
        }
      }
      assert ingress[..|ingress|] == ingress;
      return Ok(hostnames);
    }
  }

  lemma HasSnoc(addresses: seq<Address>, a: Address, kind: string, addr: IpAddr)
    ensures Has(addresses + [a], kind, addr) <==> Has(addresses, kind, addr) || (a.kind == kind && a.addr == addr)
  {
    var longer := addresses + [a];
    if Has(addresses, kind, addr) {
      var i :| 0 <= i < |addresses| && addresses[i].kind == kind && addresses[i].addr == addr;
      assert longer[i].kind == kind;
    }
    if a.kind == kind && a.addr == addr {
      assert longer[|addresses|].kind == kind;
    }
    if Has(longer, kind, addr) {
      var i :| 0 <= i < |longer| && longer[i].kind == kind && longer[i].addr == addr;
      if i < |addresses| { assert addresses[i].kind == kind; }
    }
  }

  lemma {:induction false} ClusterErrorStays(lib: Library, raws: seq<string>, n: nat)
    requires n <= |raws| && ClusterAddresses(lib, raws[..n]).Err?
    ensures ClusterAddresses(lib, raws) == ClusterAddresses(lib, raws[..n])
    decreases |raws|
  {
    if n == |raws| {
      assert raws[..n] == raws;
    } else {
      var shorter := raws[..|raws| - 1];
      assert shorter[..n] == raws[..n];
      ClusterErrorStays(lib, shorter, n);
    }
  }

  lemma {:induction false} IngressErrorStays(lib: Library, start: seq<Address>, ingress: seq<Ingress>, n: nat)
    requires n <= |ingress| && IngressAddresses(lib, start, ingress[..n]).Err?
    ensures IngressAddresses(lib, start, ingress) == IngressAddresses(lib, start, ingress[..n])
    decreases |ingress|
  {
    if n == |ingress| {
      assert ingress[..n] == ingress;
    } else {
      var shorter := ingress[..|ingress| - 1];
      assert shorter[..n] == ingress[..n];
      IngressErrorStays(lib, start, shorter, n);
    }
  }

  method ConvertPorts(lib: Library, ports: seq<ServicePort>) returns (r: seq<Port>)
    ensures r == PortsOf(lib, ports)
  {
    r := [];
    for i := 0 to |ports|
      invariant r == PortsOf(lib, ports[..i])
    {
      r := r + [PortOf(lib, ports[i])];
      assert PortsOf(lib, ports[..i + 1]) == PortsOf(lib, ports[..i]) + [PortOf(lib, ports[i])];
    }
    assert ports[..|ports|] == ports;
  }

  method ServiceToSnapshot(lib: Library, o: Object, clusterDomain: string) returns (r: Result<Snapshot, ClientError>)
    ensures r == SnapshotOf(lib, o, clusterDomain)
  {
    if o.uid == "" {
      return Err(NoUid);
    }
    var ports := ConvertPorts(lib, o.ports);
    var collector := new Collector();
    var cluster := collector.AppendClusterIPs(lib, ClusterIPs(o));
    if cluster.Err? {
      return Err(cluster.error);
    }
    var hostnames := collector.AppendIngress(lib, o.ingress);
    if hostnames.Err? {
      return Err(hostnames.error);
    }
    return Ok(Snapshot(o.uid, InfoOf(lib, o, clusterDomain), ports, collector.addresses, hostnames.value));
  }

  // ----- what a snapshot holds

  /** Empty, or the word none in any case. */
  predicate NoAddress(raw: string) {
    raw == "" || (|raw| == 4 && raw[0] in {'n', 'N'} && raw[1] in {'o', 'O'} && raw[2] in {'n', 'N'}
                  && raw[3] in {'e', 'E'})
  }

  /** What an address stands for: itself, or for ::ffff:a.b.c.d the IPv4 address a.b.c.d. */
  predicate StandsFor(a: IpAddr, addr: IpAddr) {
    if a.family.V6? && 0xffff_0000_0000 <= a.value < 0x1_0000_0000_0000
    then addr.family.V4? && addr.value == a.value - 0xffff_0000_0000
    else addr == a
  }

  lemma SkippedExactly(raw: string)
    ensures raw == "" || IsNone(raw) <==> NoAddress(raw)
  {
  }

  lemma UnmapExactly(a: IpAddr, addr: IpAddr)
    ensures Unmap(a) == addr <==> StandsFor(a, addr)
  {
    Pow2Of32();
  }

  lemma Pow2Of32()
    ensures Pow2(32) == 0x1_0000_0000
  {
    assert Pow2(8) == 0x100;
    Pow2Add(8, 8);
    Pow2Add(16, 16);
  }

  /** The cluster IP text names this address. */
  predicate Names(lib: Library, raw: string, addr: IpAddr) {
    !NoAddress(raw) && lib.parseAddr(raw).Some? && StandsFor(lib.parseAddr(raw).value, addr)
  }

  predicate BadClusterIp(lib: Library, raw: string) {
    !NoAddress(raw) && lib.parseAddr(raw).None?
  }

  predicate IngressNames(lib: Library, entry: Ingress, addr: IpAddr) {
    entry.ip != "" && lib.parseAddr(entry.ip).Some? && StandsFor(lib.parseAddr(entry.ip).value, addr)
  }

  predicate BadIngressIp(lib: Library, entry: Ingress) {
    entry.ip != "" && lib.parseAddr(entry.ip).None?
  }

  lemma AddKeepsStorable(addresses: seq<Address>, a: Address)
    requires AddressesStorable(addresses) && (a.kind == CLUSTER_IP || a.kind == LOAD_BALANCER)
    ensures AddressesStorable(Add(addresses, a))
  {
    if !Has(addresses, a.kind, a.addr) {
      var longer := addresses + [a];
      forall i, j | 0 <= i < j < |longer|
        ensures !(longer[i].kind == longer[j].kind && longer[i].addr == longer[j].addr)
      {
        assert longer[i] == addresses[i];
      }
    }
  }

  lemma HasAdd(addresses: seq<Address>, a: Address, kind: string, addr: IpAddr)
    ensures Has(Add(addresses, a), kind, addr) <==> Has(addresses, kind, addr) || (a.kind == kind && a.addr == addr)
  {
    HasSnoc(addresses, a, kind, addr);
  }

  /** The cluster IPs are converted unless one is bad. */
  lemma {:induction false} ClusterErrorIff(lib: Library, raws: seq<string>)
    ensures ClusterAddresses(lib, raws).Err? <==> exists i :: 0 <= i < |raws| && BadClusterIp(lib, raws[i])
    decreases |raws|
  {
    if raws != [] {
      ClusterErrorIff(lib, raws[..|raws| - 1]);
      SkippedExactly(raws[|raws| - 1]);
      SnocExists(raws, i => BadClusterIp(lib, i));
    }
  }

  /** Each address that the cluster IPs name is kept once, and no other. */
  lemma {:induction false} ClusterAddressesExact(lib: Library, raws: seq<string>, kind: string, addr: IpAddr)
    requires ClusterAddresses(lib, raws).Ok?
    ensures var kept := ClusterAddresses(lib, raws).value;
            && AddressesStorable(kept)
            && (Has(kept, kind, addr)
                <==> kind == CLUSTER_IP && exists i :: 0 <= i < |raws| && Names(lib, raws[i], addr))
    decreases |raws|
  {
    if raws != [] {
      var k := |raws| - 1;
      ClusterAddressesExact(lib, raws[..k], kind, addr);
      SnocExists(raws, i => Names(lib, i, addr));
      SkippedExactly(raws[k]);
      var before := ClusterAddresses(lib, raws[..k]).value;
      if raws[k] != "" && !IsNone(raws[k]) {
        var a := Address(CLUSTER_IP, Unmap(lib.parseAddr(raws[k]).value), "");
        AddKeepsStorable(before, a);
        HasAdd(before, a, kind, addr);
        UnmapExactly(lib.parseAddr(raws[k]).value, addr);
      }
    }
  }

  lemma {:induction false} IngressAddressesExact(lib: Library, start: seq<Address>, ingress: seq<Ingress>,
                                                 kind: string, addr: IpAddr)
    requires AddressesStorable(start)
    ensures var r := IngressAddresses(lib, start, ingress);
            && (r.Err? <==> exists i :: 0 <= i < |ingress| && BadIngressIp(lib, ingress[i]))
            && (r.Ok? ==>
                  && AddressesStorable(r.value)
                  && (Has(r.value, kind, addr) <==>
                      Has(start, kind, addr)
                      || (kind == LOAD_BALANCER
                          && exists i :: 0 <= i < |ingress| && IngressNames(lib, ingress[i], addr))))
    decreases |ingress|
  {
    if ingress != [] {
      var k := |ingress| - 1;
      IngressAddressesExact(lib, start, ingress[..k], kind, addr);
      SnocExists(ingress, i => BadIngressIp(lib, i));
      SnocExists(ingress, i => IngressNames(lib, i, addr));
      var before := IngressAddresses(lib, start, ingress[..k]);
      if before.Ok? && lib.parseAddr(ingress[k].ip).Some? {
        var a := Address(LOAD_BALANCER, Unmap(lib.parseAddr(ingress[k].ip).value), ModeOf(ingress[k]));
        AddKeepsStorable(before.value, a);
        HasAdd(before.value, a, kind, addr);
        UnmapExactly(lib.parseAddr(ingress[k].ip).value, addr);
      }
    }
  }

  /** Of several ingress entries with one address the first decides the mode that is kept. */
  lemma {:induction false} FirstModeKept(lib: Library, start: seq<Address>, ingress: seq<Ingress>, i: nat, addr: IpAddr)
    requires AddressesStorable(start) && IngressAddresses(lib, start, ingress).Ok? && i < |ingress|
    requires !Has(start, LOAD_BALANCER, addr) && IngressNames(lib, ingress[i], addr)
    requires forall j :: 0 <= j < i ==> !IngressNames(lib, ingress[j], addr)
    ensures var mode := if ingress[i].ipMode.Some? then ingress[i].ipMode.value else "";
            Address(LOAD_BALANCER, addr, mode) in IngressAddresses(lib, start, ingress).value
    decreases |ingress|
  {
    var k := |ingress| - 1;
    if i < k {
      assert forall j :: 0 <= j < k ==> ingress[..k][j] == ingress[j];
      FirstModeKept(lib, start, ingress[..k], i, addr);
    } else {
      IngressAddressesExact(lib, start, ingress[..k], LOAD_BALANCER, addr);
      UnmapExactly(lib.parseAddr(ingress[k].ip).value, addr);
      assert forall j :: 0 <= j < k ==> ingress[..k][j] == ingress[j];
    }
  }

  lemma SnocExists<T>(s: seq<T>, p: T -> bool)
    requires s != []
    ensures var k := |s| - 1;
            (exists i :: 0 <= i < |s| && p(s[i])) <==> (exists i :: 0 <= i < k && p(s[..k][i])) || p(s[k])
  {
    var k := |s| - 1;
    if i :| 0 <= i < |s| && p(s[i]) {
      if i < k { assert p(s[..k][i]); }
    }
    if i :| 0 <= i < k && p(s[..k][i]) {
      assert p(s[i]);
    }
  }

  predicate DistinctHostnames(ingress: seq<Ingress>) {
    forall i, j :: 0 <= i < j < |ingress| && ingress[i].hostname != "" ==> ingress[i].hostname != ingress[j].hostname
  }

  lemma {:induction false} HostnamesExact(ingress: seq<Ingress>, h: Hostname)
    ensures h in IngressHostnames(ingress) <==>
            h.kind == LOAD_BALANCER && h.hostname != ""
            && exists i :: 0 <= i < |ingress| && ingress[i].hostname == h.hostname
    decreases |ingress|
  {
    if ingress != [] {
      HostnamesExact(ingress[..|ingress| - 1], h);
      SnocExists(ingress, (i: Ingress) => i.hostname == h.hostname);
    }
  }

  /** The hostnames can be stored exactly when the cluster reports none twice. */
  lemma {:induction false} HostnamesStorableIff(ingress: seq<Ingress>)
    ensures HostnamesStorable(IngressHostnames(ingress)) <==> DistinctHostnames(ingress)
    decreases |ingress|
  {
    if ingress != [] {
      var k := |ingress| - 1;
      var before, last := IngressHostnames(ingress[..k]), ingress[k];
      HostnamesStorableIff(ingress[..k]);
      DistinctSnoc(ingress);
      if last.hostname != "" {
        var h := Hostname(LOAD_BALANCER, last.hostname);
        HostnamesExact(ingress[..k], h);
        HostnamesSnoc(before, h);
      } else {
        assert IngressHostnames(ingress) == before;
      }
    }
  }

  lemma DistinctSnoc(ingress: seq<Ingress>)
    requires ingress != []
    ensures var k := |ingress| - 1; var last := ingress[k].hostname;
            DistinctHostnames(ingress) <==>
            DistinctHostnames(ingress[..k])
              && (last == "" || !exists i :: 0 <= i < k && ingress[..k][i].hostname == last)
  {
    var k := |ingress| - 1;
    var before := ingress[..k];
    assert forall i :: 0 <= i < k ==> before[i] == ingress[i];
  }

  lemma HostnamesSnoc(hostnames: seq<Hostname>, h: Hostname)
    ensures HostnamesStorable(hostnames + [h])
            <==> HostnamesStorable(hostnames) && h.kind == LOAD_BALANCER && h !in hostnames
  {
    var longer := hostnames + [h];
    if HostnamesStorable(longer) {
      assert longer[|hostnames|] == h;
      assert forall i :: 0 <= i < |hostnames| ==> longer[i] == hostnames[i];
    }
  }

  /** The ingress entries that report the hostname. */
  function EntriesWith(ingress: seq<Ingress>, hostname: string): set<nat> {
    set i: nat | i < |ingress| && ingress[i].hostname == hostname
  }

  lemma EntriesSnoc(ingress: seq<Ingress>, hostname: string)
    requires ingress != []
    ensures var k: nat := |ingress| - 1;
            |EntriesWith(ingress, hostname)|
            == |EntriesWith(ingress[..k], hostname)| + if ingress[k].hostname == hostname then 1 else 0
  {
    var k: nat := |ingress| - 1;
    var before := EntriesWith(ingress[..k], hostname);
    var last: set<nat> := if ingress[k].hostname == hostname then {k} else {};
    assert EntriesWith(ingress, hostname) == before + last by {
      assert forall i: nat :: i < k ==> ingress[..k][i] == ingress[i];
    }
    assert k !in before;
  }

  /** A hostname is kept as often as it is reported. */
  lemma {:induction false} HostnameCount(ingress: seq<Ingress>, hostname: string)
    requires hostname != ""
    ensures multiset(IngressHostnames(ingress))[Hostname(LOAD_BALANCER, hostname)] == |EntriesWith(ingress, hostname)|
    decreases |ingress|
  {
    if ingress == [] {
      assert EntriesWith(ingress, hostname) == {};
    } else {
      HostnameCount(ingress[..|ingress| - 1], hostname);
      EntriesSnoc(ingress, hostname);
    }
  }

  // ----- the texts and the ports

  predicate Dots(s: string) {
    forall i :: 0 <= i < |s| ==> s[i] == '.'
  }

  /** r is s without the dots at its ends. */
  ghost predicate Trimmed(s: string, r: string) {
    && (r == "" || (r[0] != '.' && r[|r| - 1] != '.'))
    && exists a, b :: Dots(a) && Dots(b) && s == a + r + b
  }

  lemma {:induction false} TrimDotsExactly(s: string)
    ensures Trimmed(s, TrimDots(s))
    decreases |s|
  {
    var r := TrimDots(s);
    if s != "" && s[0] == '.' {
      TrimDotsExactly(s[1..]);
      var a, b :| Dots(a) && Dots(b) && s[1..] == a + r + b;
      assert Dots(['.'] + a) && s == ['.'] + a + r + b;
    } else if s != "" && s[|s| - 1] == '.' {
      TrimDotsExactly(s[..|s| - 1]);
      var a, b :| Dots(a) && Dots(b) && s[..|s| - 1] == a + r + b;
      assert Dots(b + ['.']) && s == a + r + (b + ['.']);
    } else {
      assert Dots("") && s == "" + r + "";
    }
  }

  /** name.namespace.svc, followed by a dot and the cluster domain without blanks and outer dots, if any is left. */
  ghost predicate IsDnsName(lib: Library, o: Object, clusterDomain: string, dnsName: string) {
    exists domain :: Trimmed(lib.trimSpace(clusterDomain), domain)
                     && dnsName == o.name + "." + o.namespace + ".svc" + if domain == "" then "" else "." + domain
  }

  /** The text fields are the object's own. */
  ghost predicate InfoMatches(lib: Library, o: Object, clusterDomain: string, info: Info) {
    && info.namespace == o.namespace && info.name == o.name && info.serviceType == o.serviceType
    && info.resourceVersion == o.resourceVersion && info.externalName == o.externalName
    && IsDnsName(lib, o, clusterDomain, info.dnsName)
  }

  /** A target port "0" reads as the port itself; a missing protocol is empty and a node port 0 is none. */
  predicate PortMatches(lib: Library, p: ServicePort, r: Port) {
    && r.name == p.name && r.protocol == p.protocol && r.port == p.port
    && r.targetPort == (if p.targetPort == "0" then lib.itoa(p.port) else p.targetPort)
    && (if p.appProtocol.Some? then r.appProtocol == p.appProtocol.value else r.appProtocol == "")
    && (if p.nodePort == 0 then r.nodePort.None? else r.nodePort == Some(p.nodePort))
  }

  predicate PortsMatch(lib: Library, ports: seq<ServicePort>, r: seq<Port>) {
    |r| == |ports| && forall i :: 0 <= i < |ports| ==> PortMatches(lib, ports[i], r[i])
  }

  lemma TextsMatch(lib: Library, o: Object, clusterDomain: string)
    ensures InfoMatches(lib, o, clusterDomain, InfoOf(lib, o, clusterDomain))
    ensures PortsMatch(lib, o.ports, PortsOf(lib, o.ports))
  {
    TrimDotsExactly(lib.trimSpace(clusterDomain));
    var domain := TrimDots(lib.trimSpace(clusterDomain));
    assert o.name + "." + o.namespace + ".svc" + "." + domain == o.name + "." + o.namespace + ".svc" + ("." + domain);
  }

  // ----- the whole snapshot

  /** The object's cluster IP texts: its list, or the single field if the list is empty. */
  predicate HasClusterIp(o: Object, raw: string) {
    if o.clusterIPs == [] then raw == o.clusterIP else raw in o.clusterIPs
  }

  ghost predicate HasBadClusterIp(lib: Library, o: Object) {
    exists raw :: HasClusterIp(o, raw) && BadClusterIp(lib, raw)
  }

  ghost predicate HasBadIngress(lib: Library, o: Object) {
    exists i :: 0 <= i < |o.ingress| && BadIngressIp(lib, o.ingress[i])
  }

  /** Why a service cannot be converted. */
  ghost predicate Inconvertible(lib: Library, o: Object) {
    o.uid == "" || HasBadClusterIp(lib, o) || HasBadIngress(lib, o)
  }

  /** The service is reported to carry the address in this role. */
  ghost predicate Reports(lib: Library, o: Object, kind: string, addr: IpAddr) {
    || (kind == "cluster_ip" && exists raw :: HasClusterIp(o, raw) && Names(lib, raw, addr))
    || (kind == "load_balancer" && exists i :: 0 <= i < |o.ingress| && IngressNames(lib, o.ingress[i], addr))
  }

  lemma ClusterTexts(o: Object, p: string -> bool)
    requires !p("")
    ensures (exists i :: 0 <= i < |ClusterIPs(o)| && p(ClusterIPs(o)[i]))
            <==> exists raw :: HasClusterIp(o, raw) && p(raw)
  {
    if raw :| HasClusterIp(o, raw) && p(raw) {
      var i :| 0 <= i < |ClusterIPs(o)| && ClusterIPs(o)[i] == raw;
    }
    if i :| 0 <= i < |ClusterIPs(o)| && p(ClusterIPs(o)[i]) {
      assert HasClusterIp(o, ClusterIPs(o)[i]);
    }
  }

  /** Exactly the reported hostnames, each as often as it is reported. */
  ghost predicate HostnamesMatch(o: Object, hostnames: seq<Hostname>) {
    && (forall h :: h in hostnames ==> h.kind == "load_balancer" && h.hostname != "")
    && (forall name :: name != "" ==>
          multiset(hostnames)[Hostname("load_balancer", name)] == |EntriesWith(o.ingress, name)|)
  }

  lemma HostnamesAreExact(o: Object)
    ensures HostnamesMatch(o, IngressHostnames(o.ingress))
  {
    forall h | h in IngressHostnames(o.ingress)
      ensures h.kind == "load_balancer" && h.hostname != ""
    {
      HostnamesExact(o.ingress, h);
    }
    forall name: string | name != ""
      ensures multiset(IngressHostnames(o.ingress))[Hostname("load_balancer", name)] == |EntriesWith(o.ingress, name)|
    {
      HostnameCount(o.ingress, name);
    }
  }

  /** The snapshot carries exactly what the object reports. */
  ghost predicate Carries(lib: Library, o: Object, clusterDomain: string, s: Snapshot, kind: string, addr: IpAddr) {
    && s.uid == o.uid && InfoMatches(lib, o, clusterDomain, s.info) && PortsMatch(lib, o.ports, s.ports)
    && AddressesStorable(s.addresses)
    && (Has(s.addresses, kind, addr) <==> Reports(lib, o, kind, addr))
    && (forall a :: a in s.addresses && a.kind == "cluster_ip" ==> a.ipMode == "")
    && HostnamesMatch(o, s.hostnames)
    && (Storable(s) <==> DistinctHostnames(o.ingress))
  }

  lemma {:induction false} ClusterModes(lib: Library, raws: seq<string>, a: Address)
    requires ClusterAddresses(lib, raws).Ok? && a in ClusterAddresses(lib, raws).value
    ensures a.ipMode == ""
    decreases |raws|
  {
    var before := ClusterAddresses(lib, raws[..|raws| - 1]).value;
    if a in before {
      ClusterModes(lib, raws[..|raws| - 1], a);
    }
  }

  lemma {:induction false} IngressModes(lib: Library, start: seq<Address>, ingress: seq<Ingress>, a: Address)
    requires IngressAddresses(lib, start, ingress).Ok? && a in IngressAddresses(lib, start, ingress).value
    ensures a in start || a.kind == LOAD_BALANCER
    decreases |ingress|
  {
    if ingress != [] {
      var before := IngressAddresses(lib, start, ingress[..|ingress| - 1]).value;
      if a in before {
        IngressModes(lib, start, ingress[..|ingress| - 1], a);
      }
    }
  }

  /**
   * A service converts exactly when it has a UID and no bad address, and each refusal has its
   * own condition. The snapshot then has the object's texts and ports, holds each reported
   * (kind, address) once, and can be stored exactly when no load-balancer hostname is reported
   * twice.
   */
  lemma SnapshotExact(lib: Library, o: Object, clusterDomain: string, kind: string, addr: IpAddr)
    ensures match SnapshotOf(lib, o, clusterDomain)
            case Ok(s) => !Inconvertible(lib, o) && Carries(lib, o, clusterDomain, s, kind, addr)
            case Err(x) =>
              || (x == NoUid && o.uid == "")
              || (x == InvalidClusterIp && o.uid != "" && HasBadClusterIp(lib, o))
              || (x == InvalidLoadBalancerIp && o.uid != "" && !HasBadClusterIp(lib, o) && HasBadIngress(lib, o))
  {
    ClusterErrorIff(lib, ClusterIPs(o));
    ClusterErrorKind(lib, ClusterIPs(o));
    ClusterTexts(o, raw => BadClusterIp(lib, raw));
    var cluster := ClusterAddresses(lib, ClusterIPs(o));
    if cluster.Ok? {
      ClusterAddressesExact(lib, ClusterIPs(o), kind, addr);
      IngressAddressesExact(lib, cluster.value, o.ingress, kind, addr);
      IngressErrorKind(lib, cluster.value, o.ingress);
      if o.uid != "" && IngressAddresses(lib, cluster.value, o.ingress).Ok? {
        SnapshotCarries(lib, o, clusterDomain, kind, addr);
      }
    }
  }

  lemma SnapshotCarries(lib: Library, o: Object, clusterDomain: string, kind: string, addr: IpAddr)
    requires SnapshotOf(lib, o, clusterDomain).Ok?
    ensures Carries(lib, o, clusterDomain, SnapshotOf(lib, o, clusterDomain).value, kind, addr)
  {
    var cluster := ClusterAddresses(lib, ClusterIPs(o)).value;
    ClusterTexts(o, raw => Names(lib, raw, addr));
    ClusterAddressesExact(lib, ClusterIPs(o), kind, addr);
    IngressAddressesExact(lib, cluster, o.ingress, kind, addr);
    HostnamesStorableIff(o.ingress);
    HostnamesAreExact(o);
    TextsMatch(lib, o, clusterDomain);
    forall a | a in IngressAddresses(lib, cluster, o.ingress).value && a.kind == "cluster_ip"
      ensures a.ipMode == ""
    {
      IngressModes(lib, cluster, o.ingress, a);
      ClusterModes(lib, ClusterIPs(o), a);
    }
  }

  lemma {:induction false} ClusterErrorKind(lib: Library, raws: seq<string>)
    ensures ClusterAddresses(lib, raws).Err? ==> ClusterAddresses(lib, raws) == Err(InvalidClusterIp)
    decreases |raws|
  {
    if raws != [] {
      ClusterErrorKind(lib, raws[..|raws| - 1]);
    }
  }

  lemma {:induction false} IngressErrorKind(lib: Library, start: seq<Address>, ingress: seq<Ingress>)
    ensures IngressAddresses(lib, start, ingress).Err? ==>
            IngressAddresses(lib, start, ingress) == Err(InvalidLoadBalancerIp)
    decreases |ingress|
  {
    if ingress != [] {
      IngressErrorKind(lib, start, ingress[..|ingress| - 1]);
    }
  }

  /** No converted port carries an explicit node port 0, so storage returns the same ports. */
  lemma PortsSurvive(lib: Library, ports: seq<ServicePort>)
    ensures DecodePorts(EncodePorts(PortsOf(lib, ports))) == PortsOf(lib, ports)
  {
    forall i | 0 <= i < |ports|
      ensures DecodePort(EncodePort(PortOf(lib, ports[i]))) == PortOf(lib, ports[i])
    {
      PortRoundTrip(PortOf(lib, ports[i]));
    }
  }

  // ----- the listing

  type Listing = Result<seq<Object>, string>

  function Collect(lib: Library, clusterDomain: string, objects: seq<Object>): Result<seq<Snapshot>, ClientError>
    decreases |objects|
  {
    if objects == [] then Ok([])
    else
      match Collect(lib, clusterDomain, objects[..|objects| - 1])
      case Err(x) => Err(x)
      case Ok(before) =>
        match SnapshotOf(lib, objects[|objects| - 1], clusterDomain)
        case Err(x) => Err(x)
        case Ok(s) => Ok(before + [s])
  }

  function CollectLists(lib: Library, clusterDomain: string, lists: seq<Listing>): Result<seq<Snapshot>, ClientError>
    decreases |lists|
  {
    if lists == [] then Ok([])
    else
      match CollectLists(lib, clusterDomain, lists[..|lists| - 1])
      case Err(x) => Err(x)
      case Ok(before) =>
        match lists[|lists| - 1]
        case Err(_) => Err(ListFailed)
        case Ok(objects) =>
          match Collect(lib, clusterDomain, objects)
          case Err(x) => Err(x)
          case Ok(more) => Ok(before + more)
  }

  function SortKey(s: Snapshot): Triple {
    (s.info.namespace, s.info.name, s.uid)
  }

  /** No snapshot comes after one that the comparison puts later. */
  ghost predicate Ordered(s: seq<Snapshot>) {
    forall i, j :: 0 <= i < j < |s| ==> !BeforeTriple(SortKey(s[j]), SortKey(s[i]))
  }

  method Insert(s: seq<Snapshot>, x: Snapshot) returns (r: seq<Snapshot>)
    requires Ordered(s)
    ensures Ordered(r) && multiset(r) == multiset(s) + multiset{x}
  {
    var k := |s|;
    while k > 0 && BeforeTriple(SortKey(x), SortKey(s[k - 1]))
      invariant 0 <= k <= |s|
      invariant forall i :: k <= i < |s| ==> BeforeTriple(SortKey(x), SortKey(s[i]))
    {
      k := k - 1;
    }
    r := s[..k] + [x] + s[k..];
    InsertOrdered(s, x, k);
    InsertPermutes(s, x, k);
  }

  lemma InsertPermutes<T>(s: seq<T>, x: T, k: nat)
    requires k <= |s|
    ensures multiset(s[..k] + [x] + s[k..]) == multiset(s) + multiset{x}
  {
    assert s == s[..k] + s[k..];
  }

  lemma InsertOrdered(s: seq<Snapshot>, x: Snapshot, k: nat)
    requires Ordered(s) && k <= |s|
    requires forall i :: k <= i < |s| ==> BeforeTriple(SortKey(x), SortKey(s[i]))
    requires k > 0 ==> !BeforeTriple(SortKey(x), SortKey(s[k - 1]))
    ensures Ordered(s[..k] + [x] + s[k..])
  {
    var r := s[..k] + [x] + s[k..];
    forall i, j | 0 <= i < j < |r|
      ensures !BeforeTriple(SortKey(r[j]), SortKey(r[i]))
    {
      if j == k {
        assert i < k && r[i] == s[i];
        NotAfter(SortKey(s[i]), SortKey(s[k - 1]), SortKey(x));
        assert i < k - 1 ==> !BeforeTriple(SortKey(s[k - 1]), SortKey(s[i]));
      } else if i == k {
        assert r[j] == s[j - 1];
        TripleOrder(SortKey(x), SortKey(s[j - 1]), SortKey(x));
      } else {
        var i', j' := if i < k then i else i - 1, if j < k then j else j - 1;
        assert r[i] == s[i'] && r[j] == s[j'];
      }
    }
  }

  /** If a does not come after b and b does not come after c, then a does not come after c. */
  lemma NotAfter(a: Triple, b: Triple, c: Triple)
    ensures !BeforeTriple(b, a) && !BeforeTriple(c, b) ==> !BeforeTriple(c, a)
    ensures !BeforeTriple(a, a)
  {
    TripleOrder(a, b, c);
    TripleOrder(c, a, b);
    TripleOrder(b, c, a);
    TripleOrder(a, b, a);
  }

  method SortSnapshots(s: seq<Snapshot>) returns (r: seq<Snapshot>)
    ensures Ordered(r) && multiset(r) == multiset(s)
  {
    r := [];
    for i := 0 to |s|
      invariant Ordered(r) && multiset(r) == multiset(s[..i])
    {
      r := Insert(r, s[i]);
      assert s[..i + 1] == s[..i] + [s[i]];
    }
    assert s[..|s|] == s;
  }

  /**
   * Lists the namespaces in turn. Any failed list or inconvertible service yields no snapshot
   * at all; otherwise the result holds every listed service once, in order.
   */
  method ListServices(lib: Library, clusterDomain: string, lists: seq<Listing>)
    returns (r: Result<seq<Snapshot>, ClientError>)
    ensures match CollectLists(lib, clusterDomain, lists)
            case Ok(all) => r.Ok? && Ordered(r.value) && multiset(r.value) == multiset(all)
            case Err(x) => r == Err(x)
  {
    var snapshots: seq<Snapshot> := [];
    for n := 0 to |lists|
      invariant CollectLists(lib, clusterDomain, lists[..n]) == Ok(snapshots)
    {
      var list := lists[n];
      if list.Err? {
        ListError(lib, clusterDomain, lists, n);
        return Err(ListFailed);
      }
      var objects := list.value;
      ghost var before := snapshots;
      for i := 0 to |objects|
        invariant Collect(lib, clusterDomain, objects[..i]).Ok?
        invariant snapshots == before + Collect(lib, clusterDomain, objects[..i]).value
      {
        var snapshot := ServiceToSnapshot(lib, objects[i], clusterDomain);
        if snapshot.Err? {
          ServiceError(lib, clusterDomain, lists, n, i);
          return Err(snapshot.error);
        }
        CollectNext(lib, clusterDomain, objects, i);
        snapshots := snapshots + [snapshot.value];
      }
      assert objects[..|objects|] == objects;
      CollectListsNext(lib, clusterDomain, lists, n);
    }
    assert lists[..|lists|] == lists;
    var sorted := SortSnapshots(snapshots);
    return Ok(sorted);
  }

  lemma CollectNext(lib: Library, clusterDomain: string, objects: seq<Object>, i: nat)
    requires i < |objects| && Collect(lib, clusterDomain, objects[..i]).Ok?
    ensures match SnapshotOf(lib, objects[i], clusterDomain)
            case Ok(s) => Collect(lib, clusterDomain, objects[..i + 1])
              == Ok(Collect(lib, clusterDomain, objects[..i]).value + [s])
            case Err(x) => Collect(lib, clusterDomain, objects[..i + 1]) == Err(x)
  {
    assert objects[..i + 1][..i] == objects[..i];
  }

  lemma CollectListsNext(lib: Library, clusterDomain: string, lists: seq<Listing>, n: nat)
    requires n < |lists| && CollectLists(lib, clusterDomain, lists[..n]).Ok? && lists[n].Ok?
    ensures match Collect(lib, clusterDomain, lists[n].value)
            case Ok(more) => CollectLists(lib, clusterDomain, lists[..n + 1])
              == Ok(CollectLists(lib, clusterDomain, lists[..n]).value + more)
            case Err(x) => CollectLists(lib, clusterDomain, lists[..n + 1]) == Err(x)
  {
    assert lists[..n + 1][..n] == lists[..n];
  }

  /** The first failed list ends the listing. */
  lemma ListError(lib: Library, clusterDomain: string, lists: seq<Listing>, n: nat)
    requires n < |lists| && CollectLists(lib, clusterDomain, lists[..n]).Ok? && lists[n].Err?
    ensures CollectLists(lib, clusterDomain, lists) == Err(ListFailed)
  {
    assert lists[..n + 1][..n] == lists[..n];
    ListErrorStays(lib, clusterDomain, lists, n + 1);
  }

  /** So does the first service that cannot be converted. */
  lemma ServiceError(lib: Library, clusterDomain: string, lists: seq<Listing>, n: nat, i: nat)
    requires n < |lists| && CollectLists(lib, clusterDomain, lists[..n]).Ok? && lists[n].Ok?
    requires i < |lists[n].value| && Collect(lib, clusterDomain, lists[n].value[..i]).Ok?
    requires SnapshotOf(lib, lists[n].value[i], clusterDomain).Err?
    ensures CollectLists(lib, clusterDomain, lists) == Err(SnapshotOf(lib, lists[n].value[i], clusterDomain).error)
  {
    CollectNext(lib, clusterDomain, lists[n].value, i);
    CollectErrorStays(lib, clusterDomain, lists[n].value, i + 1);
    CollectListsNext(lib, clusterDomain, lists, n);
    ListErrorStays(lib, clusterDomain, lists, n + 1);
  }

  lemma {:induction false} CollectErrorStays(lib: Library, clusterDomain: string, objects: seq<Object>, n: nat)
    requires n <= |objects| && Collect(lib, clusterDomain, objects[..n]).Err?
    ensures Collect(lib, clusterDomain, objects) == Collect(lib, clusterDomain, objects[..n])
    decreases |objects|
  {
    if n == |objects| {
      assert objects[..n] == objects;
    } else {
      var shorter := objects[..|objects| - 1];
      assert shorter[..n] == objects[..n];
      CollectErrorStays(lib, clusterDomain, shorter, n);
    }
  }

  lemma {:induction false} ListErrorStays(lib: Library, clusterDomain: string, lists: seq<Listing>, n: nat)
    requires n <= |lists| && CollectLists(lib, clusterDomain, lists[..n]).Err?
    ensures CollectLists(lib, clusterDomain, lists) == CollectLists(lib, clusterDomain, lists[..n])
    decreases |lists|
  {
    if n == |lists| {
      assert lists[..n] == lists;
    } else {
      var shorter := lists[..|lists| - 1];
      assert shorter[..n] == lists[..n];
      ListErrorStays(lib, clusterDomain, shorter, n);
    }
  }
}
