/** One round of the discovery runner: list, reconcile, and record what went wrong. */
module Runner {
  import opened Wrappers
  import opened Ipam
  import opened Discovery
  import opened DiscoveryRepository
  import opened KubernetesClient
  import opened CanonicalListing

  datatype RunError = ListError(cause: ClientError) | StoreError(problem: ReconcileError)

  /**
   * The outside world of one round: the API's answers, the clock, the locks, the context, the
   * tables each lookup sees.
   */
  datatype Round = Round(lists: seq<Listing>, startedAt: Time, observedAt: Time, reconcileLock: bool,
                         recordLock: bool, cancelled: bool, view: View)

  /** Everything the round's snapshot needs to be stored. */
  ghost predicate Committable(ipam: Tables, cfg: SourceConfig, lists: seq<Listing>) {
    && cfg.site in ipam.sites
    && forall i :: 0 <= i < |AllObjects(lists)| ==> DistinctHostnames(AllObjects(lists)[i].ingress)
  }

  /** What readers see of a source: its services, counters and last success. */
  predicate SameObservations(a: Source, b: Source) {
    a.services == b.services && a.counts == b.counts && a.lastSuccess == b.lastSuccess && a.site == b.site
  }

  /** The source became the reconcile of the whole snapshot, and no other changed. */
  ghost predicate Stores(before: map<string, Source>, after: map<string, Source>, cfg: SourceConfig, round: Round,
                         snapshot: seq<Snapshot>, counts: Counts) {
    var rs := ResolveAll(round.view, cfg.site, snapshot);
    var row := Reconciled(UpsertSource(before, cfg), rs, round.observedAt, cfg.retention);
    after == before[cfg.key := row] && counts == FinalCounts(rs)
  }

  ghost predicate Unobserved(before: map<string, Source>, after: map<string, Source>) {
    forall k :: k in before ==> k in after && SameObservations(after[k], before[k])
  }

  /** Every listed snapshot has its UID. */
  lemma ListedHaveUids(lib: Library, clusterDomain: string, lists: seq<Listing>, r: seq<Snapshot>)
    requires IsResult(lib, clusterDomain, lists, r)
    ensures forall i :: 0 <= i < |r| ==> r[i].uid != ""
  {
    CollectListsIsMap(lib, clusterDomain, lists);
    var objects, all := AllObjects(lists), CollectLists(lib, clusterDomain, lists).value;
    forall i | 0 <= i < |r|
      ensures r[i].uid != ""
    {
      assert r[i] in multiset(all);
      var j :| 0 <= j < |all| && all[j] == r[i];
      ConvertsIff(lib, objects[j], clusterDomain);
    }
  }

  class Runner {
    const repository: KubernetesDiscoveryRepository
    const cfg: SourceConfig
    const lib: Library
    const explain: RunError -> string

    constructor (repository: KubernetesDiscoveryRepository, cfg: SourceConfig, lib: Library,
                 explain: RunError -> string)
      ensures this.repository == repository && this.cfg == cfg && this.lib == lib && this.explain == explain
    {
      this.repository, this.cfg, this.lib, this.explain := repository, cfg, lib, explain;
    }

    method RecordFailure(round: Round, problem: RunError)
      modifies repository`sources
      ensures Failed(old(repository.sources), repository.sources, round, problem)
      ensures Unobserved(old(repository.sources), repository.sources)
    {
      if round.cancelled {
        return;
      }
      var recorded := repository.RecordFailure(round.recordLock, cfg, round.startedAt, explain(problem));
    }

    /**
     * A round changes the stored services only if every list answered, every service
     * converted, the lock was free, the site exists and no hostname is reported twice; then the
     * source becomes the reconcile of the whole snapshot. A busy lock changes nothing. Any
     * other failure is recorded with the time the round began and changes no observation.
     */
    method ReconcileOnce(round: Round) returns (r: Result<Counts, RunError>, ghost snapshot: seq<Snapshot>)
      modifies repository`sources
      ensures match CollectLists(lib, cfg.clusterDomain, round.lists)
              case Err(x) => r == Err(ListError(x))
                && Failed(old(repository.sources), repository.sources, round, ListError(x))
              case Ok(_) =>
                IsResult(lib, cfg.clusterDomain, round.lists, snapshot) &&
                if !round.reconcileLock then r == Err(StoreError(Busy)) && repository.sources == old(repository.sources)
                else if !Committable(repository.ipam, cfg, round.lists)
                then r == Err(StoreError(ConstraintViolated))
                  && Failed(old(repository.sources), repository.sources, round, StoreError(ConstraintViolated))
                else r.Ok? && Stores(old(repository.sources), repository.sources, cfg, round, snapshot, r.value)
      ensures r.Err? ==> Unobserved(old(repository.sources), repository.sources)
    {
      snapshot := [];
      var listed := ListServices(lib, cfg.clusterDomain, round.lists);
      if listed.Err? {
        RecordFailure(round, ListError(listed.error));
        return Err(ListError(listed.error)), snapshot;
      }
      snapshot := listed.value;
      ListedIsStorableIff(lib, cfg.clusterDomain, round.lists, snapshot);
      ListedHaveUids(lib, cfg.clusterDomain, round.lists, snapshot);
      var result := repository.Reconcile(round.reconcileLock, cfg, listed.value, round.observedAt, round.view);
      if result.Err? {
        if result.error != Busy {
          RecordFailure(round, StoreError(result.error));
        }
        return Err(StoreError(result.error)), snapshot;
      }
      return Ok(result.value), snapshot;
    }

    /** The failure is recorded if the context, the lock and the source or its site allow it; else nothing changes. */
    ghost predicate Failed(before: map<string, Source>, after: map<string, Source>, round: Round, problem: RunError)
      reads repository`ipam
    {
      if !round.cancelled && round.recordLock && (cfg.key in before || cfg.site in repository.ipam.sites)
      then FailureRecorded(before, after, cfg, round.startedAt, explain(problem))
      else after == before
    }
  }
}
