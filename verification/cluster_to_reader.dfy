/** From the cluster to the reader: what was listed and committed is what a subnet's page shows. */
module ClusterToReader {
  import opened Wrappers
  import opened Ipam
  import opened Discovery
  import opened Protocol
  import opened Sequences
  import opened DiscoveryConfig
  import opened CanonicalListing
  import opened SubnetServices
  import KubernetesClient
  import Integrity
  import Lifecycle

  /** Nothing the client converts carries an explicit node port 0. */
  lemma ListedPortsSurvive(lib: KubernetesClient.Library, clusterDomain: string,
                           lists: seq<KubernetesClient.Listing>, r: seq<Snapshot>, i: nat)
    requires IsResult(lib, clusterDomain, lists, r) && i < |r|
    ensures NoZeroNodePort(r[i].ports)
  {
    CollectListsIsMap(lib, clusterDomain, lists);
    var all := KubernetesClient.CollectLists(lib, clusterDomain, lists).value;
    MultisetMembers(r, all, r[i]);
    var k :| 0 <= k < |all| && all[k] == r[i];
    assert all[k] == Converted(lib, clusterDomain)(AllObjects(lists)[k]);
  }

  /**
   * A round that lists a valid set of namespaces and commits in a sound database is read back
   * in full: every listed service appears on every subnet of the source's site with all its
   * fields, ports, addresses and hostnames, and no other service of the source does.
   */
  lemma RoundIsReadBack(isLabel: string -> bool, lib: KubernetesClient.Library, lists: seq<KubernetesClient.Listing>,
                        db: Db, cfg: SourceConfig, r: seq<Snapshot>, view: View, t: Time, subnet: SubnetId,
                        rows: Results, read: seq<Observation>)
    requires NoDup(cfg.namespaces) && ValidNamespaces(isLabel, cfg.namespaces)
    requires CanonicalListing.Answers(cfg.namespaces, lists) && UidsAreUnique(AllObjects(lists))
    requires IsResult(lib, cfg.clusterDomain, lists, r)
    requires Integrity.DbOk(db) && subnet in db.ipam.subnets && db.ipam.subnets[subnet].site == Some(cfg.site)
    requires Answered(Committed(db, cfg, r, view, t), subnet, rows, read)
    ensures forall i :: 0 <= i < |r| ==> GivesBack(read, cfg.key, cfg.name, r[i], t)
    ensures forall j :: 0 <= j < |read| && read[j].key == cfg.key ==>
              exists i :: 0 <= i < |r| && r[i].uid == read[j].uid
  {
    ListedOnce(isLabel, cfg.namespaces, lists);
    ResultDistinct(lib, cfg.clusterDomain, lists, r);
    forall i: nat | i < |r|
      ensures GivesBack(read, cfg.key, cfg.name, r[i], t)
    {
      ListedPortsSurvive(lib, cfg.clusterDomain, lists, r, i);
      WriteThenRead(db, cfg, r, view, t, subnet, rows, read, i);
    }
    forall j: nat | j < |read| && read[j].key == cfg.key
      ensures exists i :: 0 <= i < |r| && r[i].uid == read[j].uid
    {
      WriteThenReadOnly(db, cfg, r, view, t, subnet, rows, read, j);
    }
  }

  // ----- over every reachable state

  /** The reported service at this position is the last report of its UID. */
  predicate LastReported(services: seq<Snapshot>, i: nat) {
    i < |services| && Lifecycle.LastSnapshot(services, services[i].uid) == i
  }

  /**
   * The read shows the services of the source's last committed round as reported, each once, and
   * no other of that source.
   */
  ghost predicate ShowsLastRound(history: seq<Event>, h: Option<nat>, k: string, read: seq<Observation>)
    requires h.Some? ==> h.value < |history| && history[h.value].Reconcile?
  {
    if h.None? then forall j :: 0 <= j < |read| ==> read[j].key != k
    else
      var e := history[h.value];
      && (forall i: nat :: LastReported(e.services, i) ==>
            (GivesBack(read, k, e.cfg.name, e.services[i], e.observedAt) <==> NoZeroNodePort(e.services[i].ports)))
      && (forall j :: 0 <= j < |read| && read[j].key == k ==> Lifecycle.LastSnapshot(e.services, read[j].uid) >= 0)
      && (forall i, j :: 0 <= i < j < |read| && read[i].key == read[j].key == k ==> read[i].uid != read[j].uid)
  }

  /** What the last round reported is stored, by the rule for the last round alone. */
  lemma RuleStores(db: Db, k: string, e: Event, rounds: seq<Lifecycle.Round>, i: nat)
    requires e.Reconcile? && k in db.sources && rounds != [] && rounds[|rounds| - 1] == Lifecycle.RoundOf(e)
             && LastReported(e.services, i)
    requires Lifecycle.SnapshotRule(db.sources[k].services, rounds, e.services[i].uid)
    ensures var services, u := db.sources[k].services, e.services[i].uid;
            u in services && services[u].active && services[u].observedAt == e.observedAt
              && Stores(db, k, e.services[i])
  {
    Lifecycle.LastSnapshotReported(e.services, e.services[i].uid);
  }

  lemma RuleReports(services: map<Uid, Service>, e: Event, rounds: seq<Lifecycle.Round>, u: Uid)
    requires e.Reconcile? && rounds != [] && rounds[|rounds| - 1] == Lifecycle.RoundOf(e)
    requires Lifecycle.SnapshotRule(services, rounds, u) && u in services && services[u].active
    ensures Lifecycle.LastSnapshot(e.services, u) >= 0
  {
    Lifecycle.LastSnapshotReported(e.services, u);
  }

  /** The service that the last round reported last under a UID is stored as reported. */
  ghost predicate StoredAsReported(s: State, k: string, e: Event, i: nat)
    requires e.Reconcile? && i < |e.services| && k in s.db.sources
  {
    var services, u := s.db.sources[k].services, e.services[i].uid;
    u in services && services[u].active && services[u].observedAt == e.observedAt && Stores(s.db, k, e.services[i])
  }

  lemma StoredByRule(s: State, k: string, h: nat, i: nat)
    requires k in s.db.sources && Lifecycle.LastRound(s.history, k) == Some(h) && LastReported(s.history[h].services, i)
    requires Lifecycle.SnapshotRule(s.db.sources[k].services, Lifecycle.Rounds(s.history, k),
                                    s.history[h].services[i].uid)
    ensures StoredAsReported(s, k, s.history[h], i)
  {
    Lifecycle.LastRoundIsLast(s.history, k);
    RuleStores(s.db, k, s.history[h], Lifecycle.Rounds(s.history, k), i);
  }

  lemma LastRoundStored(hash: string -> int, steps: seq<Step>, k: string, h: nat, i: nat)
    requires var s := Protocol.Run(hash, steps); k in s.db.sources && Lifecycle.LastRound(s.history, k) == Some(h)
    requires LastReported(Protocol.Run(hash, steps).history[h].services, i)
    ensures StoredAsReported(Protocol.Run(hash, steps), k, Protocol.Run(hash, steps).history[h], i)
  {
    var s := Protocol.Run(hash, steps);
    Lifecycle.LastCommittedSnapshotWins(hash, steps, k, s.history[h].services[i].uid);
    StoredByRule(s, k, h, i);
  }

  lemma LastRoundName(hash: string -> int, steps: seq<Step>, k: string, h: nat)
    requires var s := Protocol.Run(hash, steps); k in s.db.sources && Lifecycle.LastRound(s.history, k) == Some(h)
    ensures var s := Protocol.Run(hash, steps); s.db.sources[k].name == s.history[h].cfg.name
  {
    RunKeeps(hash, steps);
    Lifecycle.ReplayRow(Protocol.Run(hash, steps).history, k);
  }

  lemma ShownByRule(s: State, k: string, u: Uid)
    requires k in s.db.sources && u in s.db.sources[k].services && s.db.sources[k].services[u].active
    requires Lifecycle.SnapshotRule(s.db.sources[k].services, Lifecycle.Rounds(s.history, k), u)
    ensures ReportedLast(s, k, u)
  {
    Lifecycle.LastRoundIsLast(s.history, k);
    var h := Lifecycle.LastRound(s.history, k);
    if h.Some? {
      RuleReports(s.db.sources[k].services, s.history[h.value], Lifecycle.Rounds(s.history, k), u);
    }
  }

  /** The source's last committed round reported the UID. */
  ghost predicate ReportedLast(s: State, k: string, u: Uid) {
    var h := Lifecycle.LastRound(s.history, k);
    h.Some? && Lifecycle.LastSnapshot(s.history[h.value].services, u) >= 0
  }

  lemma ShownIsReported(hash: string -> int, steps: seq<Step>, k: string, u: Uid)
    requires var s := Protocol.Run(hash, steps);
             k in s.db.sources && u in s.db.sources[k].services && s.db.sources[k].services[u].active
    ensures ReportedLast(Protocol.Run(hash, steps), k, u)
  {
    Lifecycle.LastCommittedSnapshotWins(hash, steps, k, u);
    ShownByRule(Protocol.Run(hash, steps), k, u);
  }

  /**
   * End to end: after any interleaving of replicas, failures, crashes and address-management
   * calls, reading a subnet of the source's site shows exactly the services of the source's
   * last committed round, each once, with its fields and the same multisets of ports, addresses
   * and hostnames, and nothing of that source if no round was committed. (A service with an
   * explicit node port 0 is the one exception, and it always is.)
   */
  lemma ReachableReadBack(hash: string -> int, steps: seq<Step>, k: string, subnet: SubnetId, rows: Results,
                          read: seq<Observation>)
    requires Answered(Protocol.Run(hash, steps).db, subnet, rows, read)
    ensures var s := Protocol.Run(hash, steps);
            k in s.db.sources && subnet in s.db.ipam.subnets
              && s.db.ipam.subnets[subnet].site == Some(s.db.sources[k].site) ==>
              ShowsLastRound(s.history, Lifecycle.LastRound(s.history, k), k, read)
  {
    var s := Protocol.Run(hash, steps);
    var h := Lifecycle.LastRound(s.history, k);
    if k in s.db.sources && subnet in s.db.ipam.subnets
       && s.db.ipam.subnets[subnet].site == Some(s.db.sources[k].site) {
      forall j: nat | j < |read| && read[j].key == k
        ensures h.Some? && Lifecycle.LastSnapshot(s.history[h.value].services, read[j].uid) >= 0
      {
        ObservationReports(s.db, subnet, rows, read, j);
        ShownIsReported(hash, steps, k, read[j].uid);
      }
      forall i, j | 0 <= i < j < |read| && read[i].key == read[j].key == k
        ensures read[i].uid != read[j].uid
      {
        ReadsEachOnce(s.db, subnet, rows, read, i, j);
      }
      if h.Some? {
        forall i: nat | LastReported(s.history[h.value].services, i)
          ensures var e := s.history[h.value];
                  GivesBack(read, k, e.cfg.name, e.services[i], e.observedAt) <==> NoZeroNodePort(e.services[i].ports)
        {
          LastRoundStored(hash, steps, k, h.value, i);
          LastRoundName(hash, steps, k, h.value);
          StoredReadsBack(s.db, subnet, rows, read, k, s.history[h.value].services[i]);
        }
      }
    }
  }
}
