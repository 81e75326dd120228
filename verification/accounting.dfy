/** The reconcile's counters against an independent count of the snapshot's addresses. */
module Accounting {
  import opened Ipam
  import opened Discovery

  /** The IP rows that fit the address call for the outcome: none, exactly one, or several. */
  ghost predicate Calls(t: Tables, site: SiteId, a: Address, outcome: MatchStatus) {
    match outcome
    case Unmatched => forall i :: !Fits(t, site, a.addr, i)
    case Matched => exists i :: OnlyFit(t, site, a.addr, i)
    case Ambiguous => SeveralFit(t, site, a.addr)
  }

  lemma StatusIsCalled(t: Tables, site: SiteId, a: Address, outcome: MatchStatus)
    ensures AddressRowFor(t, site, a).status == outcome <==> Calls(t, site, a, outcome)
  {
    LookupExactly(t, site, a);
    var row := AddressRowFor(t, site, a);
    if row.status.Matched? {
      assert OnlyFit(t, site, a.addr, row.link.value);
    }
  }

  /** The places (service, address) of a snapshot whose fitting IP rows call for the outcome. */
  ghost function Places(view: View, site: SiteId, services: seq<Snapshot>, outcome: MatchStatus): set<(nat, nat)> {
    set i: nat, j: nat | i < |services| && j < |services[i].addresses|
                         && Calls(view(i, j), site, services[i].addresses[j], outcome) :: (i, j)
  }

  ghost function Flags(view: View, i: nat, site: SiteId, addresses: seq<Address>, outcome: MatchStatus): seq<bool> {
    seq(|addresses|, j requires 0 <= j < |addresses| => Calls(view(i, j), site, addresses[j], outcome))
  }

  function TrueAt(i: nat, flags: seq<bool>): set<(nat, nat)> {
    set j: nat | j < |flags| && flags[j] :: (i, j)
  }

  /** The places inside service i. */
  ghost function PlacesAt(view: View, site: SiteId, i: nat, addresses: seq<Address>,
                          outcome: MatchStatus): set<(nat, nat)> {
    TrueAt(i, Flags(view, i, site, addresses, outcome))
  }

  lemma TrueAtSnoc(i: nat, flags: seq<bool>, flag: bool)
    ensures |TrueAt(i, flags + [flag])| == |TrueAt(i, flags)| + if flag then 1 else 0
  {
    var k := |flags|;
    var last: set<(nat, nat)> := if flag then {(i, k)} else {};
    assert TrueAt(i, flags + [flag]) == TrueAt(i, flags) + last;
    assert (i, k) !in TrueAt(i, flags);
  }

  lemma {:induction false} StatusCountIsPlaces(view: View, site: SiteId, i: nat, addresses: seq<Address>,
                                               outcome: MatchStatus)
    ensures StatusCount(AddressRowsFor(view, i, site, addresses), outcome)
            == |PlacesAt(view, site, i, addresses, outcome)|
    decreases |addresses|
  {
    if addresses == [] {
      assert PlacesAt(view, site, i, addresses, outcome) == {};
    } else {
      var k := |addresses| - 1;
      StatusCountIsPlaces(view, site, i, addresses[..k], outcome);
      assert AddressRowsFor(view, i, site, addresses)[..k] == AddressRowsFor(view, i, site, addresses[..k]);
      StatusIsCalled(view(i, k), site, addresses[k], outcome);
      assert Flags(view, i, site, addresses, outcome)
             == Flags(view, i, site, addresses[..k], outcome) + [Calls(view(i, k), site, addresses[k], outcome)];
      TrueAtSnoc(i, Flags(view, i, site, addresses[..k], outcome), Calls(view(i, k), site, addresses[k], outcome));
    }
  }

  function CountOf(c: Counts, outcome: MatchStatus): nat {
    match outcome
    case Matched => c.matched
    case Unmatched => c.unmatched
    case Ambiguous => c.ambiguous
  }

  /** Each outcome counter is the number of addresses with exactly one, no or several candidates. */
  lemma {:induction false} CounterIsPlaces(view: View, site: SiteId, services: seq<Snapshot>, outcome: MatchStatus)
    ensures CountOf(FinalCounts(ResolveAll(view, site, services)), outcome) == |Places(view, site, services, outcome)|
    decreases |services|
  {
    var rs := ResolveAll(view, site, services);
    if services == [] {
      assert Places(view, site, services, outcome) == {};
    } else {
      var k := |services| - 1;
      var before := services[..k];
      CounterIsPlaces(view, site, before, outcome);
      assert rs[..k] == ResolveAll(view, site, before);
      StatusCountIsPlaces(view, site, k, services[k].addresses, outcome);
      PlacesSplit(view, site, services, outcome);
    }
  }

  lemma PlacesSplit(view: View, site: SiteId, services: seq<Snapshot>, outcome: MatchStatus)
    requires services != []
    ensures var k := |services| - 1; var before := Places(view, site, services[..k], outcome);
            var last := PlacesAt(view, site, k, services[k].addresses, outcome);
            && Places(view, site, services, outcome) == before + last
            && |Places(view, site, services, outcome)| == |before| + |last|
  {
    var k := |services| - 1;
    var before, last := Places(view, site, services[..k], outcome),
      PlacesAt(view, site, k, services[k].addresses, outcome);
    assert before + last == Places(view, site, services, outcome) by {
      forall p
        ensures p in before + last <==> p in Places(view, site, services, outcome)
      {
        if p.0 < k { assert services[..k][p.0] == services[p.0]; }
      }
    }
    assert before !! last;
  }

  function Unaddressed(services: seq<Snapshot>): set<nat> {
    set i: nat | i < |services| && services[i].addresses == []
  }

  lemma UnaddressedSplit(services: seq<Snapshot>)
    requires services != []
    ensures var k := |services| - 1;
            |Unaddressed(services)| == |Unaddressed(services[..k])| + if services[k].addresses == [] then 1 else 0
  {
    var k: nat := |services| - 1;
    var before := Unaddressed(services[..k]);
    var last: set<nat> := if services[k].addresses == [] then {k} else {};
    forall i: nat
      ensures i in Unaddressed(services) <==> i in before + last
    {
      if i < k { assert services[..k][i] == services[i]; }
    }
    assert Unaddressed(services) == before + last;
    assert k !in before;
  }

  /** The last counter is the number of services without an address. */
  lemma {:induction false} NoUsableIpIsUnaddressed(view: View, site: SiteId, services: seq<Snapshot>)
    ensures FinalCounts(ResolveAll(view, site, services)).noUsableIp == |Unaddressed(services)|
    decreases |services|
  {
    if services == [] {
      assert Unaddressed(services) == {};
    } else {
      var k := |services| - 1;
      NoUsableIpIsUnaddressed(view, site, services[..k]);
      assert ResolveAll(view, site, services)[..k] == ResolveAll(view, site, services[..k]);
      UnaddressedSplit(services);
    }
  }
}
