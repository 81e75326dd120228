/**
 * The history of one source over whole runs: which services are active, what they carry,
 * when a missing service went stale and when it is deleted.
 */
module Lifecycle {
  import opened Wrappers
  import opened Ipam
  import opened Sequences
  import opened Discovery
  import opened Protocol

  /** One committed reconcile of a source. */
  datatype Round = Round(services: seq<Snapshot>, observedAt: Time, retention: int)

  /** The committed reconciles of a source since its row was last created, in commit order. */
  function Rounds(history: seq<Event>, k: string): seq<Round>
    decreases |history|
  {
    if history == [] then []
    else
      var earlier := history[..|history| - 1];
      var prior := Rounds(earlier, k);
      match history[|history| - 1]
      case Managed(op) =>
        var db := Replay(EMPTY_DB, earlier);
        if k in db.sources && db.sources[k].site !in After(db.ipam, op).sites then [] else prior
      case Reconcile(cfg, services, _, t) => if cfg.key == k then prior + [Round(services, t, cfg.retention)] else prior
      case Failure(_, _, _) => prior
  }

  /** The event of the last committed reconcile of a source since its row was last created. */
  function LastRound(history: seq<Event>, k: string): (h: Option<nat>)
    ensures h.Some? ==> h.value < |history| && history[h.value].Reconcile? && history[h.value].cfg.key == k
    decreases |history|
  {
    if history == [] then None
    else
      var earlier := history[..|history| - 1];
      var prior := LastRound(earlier, k);
      match history[|history| - 1]
      case Managed(op) =>
        var db := Replay(EMPTY_DB, earlier);
        if k in db.sources && db.sources[k].site !in After(db.ipam, op).sites then None else prior
      case Reconcile(cfg, _, _, _) => if cfg.key == k then Some(|history| - 1) else prior
      case Failure(_, _, _) => prior
  }

  function RoundOf(e: Event): Round
    requires e.Reconcile?
  {
    Round(e.services, e.observedAt, e.cfg.retention)
  }

  lemma {:induction false} LastRoundIsLast(history: seq<Event>, k: string)
    ensures var h, rounds := LastRound(history, k), Rounds(history, k);
            && (h.None? <==> rounds == [])
            && (h.Some? ==> rounds[|rounds| - 1] == RoundOf(history[h.value]))
    decreases |history|
  {
    if history != [] {
      LastRoundIsLast(history[..|history| - 1], k);
    }
  }

  /** What the source row says of itself is what its last committed reconcile wrote. */
  ghost predicate RowOfRound(src: Source, history: seq<Event>, h: Option<nat>)
    requires h.Some? ==> h.value < |history| && history[h.value].Reconcile?
  {
    if h.None? then src.counts == NO_COUNTS && src.lastSuccess == None && src.services == map[]
    else
      var e := history[h.value];
      && src.name == e.cfg.name && src.site == e.cfg.site && src.clusterDomain == e.cfg.clusterDomain
         && src.namespaces == e.cfg.namespaces
      && src.counts == FinalCounts(e.resolved) && src.lastSuccess == Some(e.observedAt)
  }

  lemma {:induction false} PutAllKeepsRow(src: Source, rs: seq<Resolved>, t: Time)
    ensures var after := PutAll(src, rs, t);
            after.name == src.name && after.site == src.site && after.clusterDomain == src.clusterDomain
              && after.namespaces == src.namespaces
    decreases |rs|
  {
    if rs != [] {
      PutAllKeepsRow(src, rs[..|rs| - 1], t);
    }
  }

  lemma {:induction false} ReplayRow(history: seq<Event>, k: string)
    ensures var db := Replay(EMPTY_DB, history);
            if k in db.sources then RowOfRound(db.sources[k], history, LastRound(history, k))
               else LastRound(history, k).None?
    decreases |history|
  {
    if history != [] {
      var earlier, e := history[..|history| - 1], history[|history| - 1];
      ReplayRow(earlier, k);
      var db := Replay(EMPTY_DB, earlier);
      if e.Reconcile? && e.cfg.key == k {
        PutAllKeepsRow(UpsertSource(db.sources, e.cfg), e.resolved, e.observedAt);
      }
    }
  }

  // ----- stale times, and their closed form

  /** The stale time of every stored service; none for an active one. */
  function StaleTimes(src: Source): map<Uid, Option<Time>> {
    map u | u in src.services :: src.services[u].staleAt
  }

  /** What one round does to the stale times. */
  function NextStaleTimes(m: map<Uid, Option<Time>>, r: Round): map<Uid, Option<Time>> {
    map u | u in m.Keys + ReportedUids(r.services) && !Dropped(m, r, u) :: StaleAfter(m, r, u)
  }

  function StaleAfter(m: map<Uid, Option<Time>>, r: Round, u: Uid): Option<Time> {
    if u in ReportedUids(r.services) then None
    else if u in m && m[u].Some? then m[u]
    else Some(r.observedAt)
  }

  predicate Dropped(m: map<Uid, Option<Time>>, r: Round, u: Uid) {
    var stale := StaleAfter(m, r, u);
    stale.Some? && stale.value <= r.observedAt - r.retention
  }

  function StaleTimesAfter(rounds: seq<Round>): map<Uid, Option<Time>>
    decreases |rounds|
  {
    if rounds == [] then map[] else NextStaleTimes(StaleTimesAfter(rounds[..|rounds| - 1]), rounds[|rounds| - 1])
  }

  /** The last round that reported a UID, or -1. */
  function LastSeen(rounds: seq<Round>, u: Uid): int {
    LastWhere(rounds, (r: Round) => u in ReportedUids(r.services))
  }

  /** No round since the first miss came retention or later after that first miss. */
  ghost predicate Retained(rounds: seq<Round>, i: int)
    requires 0 <= i
  {
    forall j :: i < j < |rounds| ==> rounds[j].observedAt - rounds[j].retention < rounds[i + 1].observedAt
  }

  lemma RetainedSnoc(rounds: seq<Round>, i: nat)
    requires i < |rounds| - 1
    ensures var k := |rounds| - 1;
            Retained(rounds, i)
            <==> Retained(rounds[..k], i) && rounds[k].observedAt - rounds[k].retention < rounds[i + 1].observedAt
  {
    var k := |rounds| - 1;
    var before := rounds[..k];
    assert forall j :: 0 <= j < k ==> before[j] == rounds[j];
    if Retained(before, i) && rounds[k].observedAt - rounds[k].retention < rounds[i + 1].observedAt {
      forall j | i < j < |rounds|
        ensures rounds[j].observedAt - rounds[j].retention < rounds[i + 1].observedAt
      {
        if j < k { assert before[j] == rounds[j]; }
      }
    }
  }

  /**
   * A UID is stored exactly when some round reported it and no later round found it expired;
   * its stale time is the time of the first round that missed it.
   */
  lemma {:induction false} StaleTimesClosedForm(rounds: seq<Round>, u: Uid)
    ensures var i := LastSeen(rounds, u); var m := StaleTimesAfter(rounds);
            && (u in m <==> i >= 0 && Retained(rounds, i))
            && (u in m ==> m[u] == if i == |rounds| - 1 then None else Some(rounds[i + 1].observedAt))
    decreases |rounds|
  {
    if rounds != [] {
      var k := |rounds| - 1;
      var i := LastSeen(rounds[..k], u);
      StaleTimesClosedForm(rounds[..k], u);
      if u !in ReportedUids(rounds[k].services) && i >= 0 {
        RetainedSnoc(rounds, i);
        if i < k - 1 {
          assert rounds[..k][i + 1] == rounds[i + 1];
        }
      }
    }
  }

  // ----- what the stored rows say about the last round

  /** The position of a UID's last report in a snapshot, or -1. */
  function LastSnapshot(services: seq<Snapshot>, u: Uid): int {
    LastWhere(services, (s: Snapshot) => s.uid == u)
  }

  lemma LastSnapshotReported(services: seq<Snapshot>, u: Uid)
    ensures LastSnapshot(services, u) >= 0 <==> u in ReportedUids(services)
  {
    if u in ReportedUids(services) {
      var i :| 0 <= i < |services| && services[i].uid == u;
      assert !(LastSnapshot(services, u) < i);
    }
  }

  lemma LastReportIsLastSnapshot(services: seq<Snapshot>, resolved: seq<Resolved>, u: Uid)
    requires AllAnswer(services, resolved) && |services| == |resolved|
    ensures LastReport(resolved, u) == LastSnapshot(services, u)
    ensures LastReport(resolved, u) >= 0 ==>
            Answers(services[LastReport(resolved, u)], resolved[LastReport(resolved, u)])
  {
    var i, j := LastReport(resolved, u), LastSnapshot(services, u);
    if i >= 0 { assert Answers(services[i], resolved[i]); }
    if j >= 0 { assert Answers(services[j], resolved[j]); }
  }

  /** The active rows carry the last round's reports; every row's stale time follows the rounds. */
  ghost predicate Published(src: Source, rounds: seq<Round>) {
    && StaleTimes(src) == StaleTimesAfter(rounds)
    && (forall u :: u in src.services ==> (src.services[u].active <==> src.services[u].staleAt.None?))
    && (rounds != [] ==>
          forall u :: u in src.services && src.services[u].active ==> Carries(src.services[u], u, rounds[|rounds| - 1]))
  }

  ghost predicate Carries(s: Service, u: Uid, r: Round) {
    var i := LastSnapshot(r.services, u);
    i >= 0 && Answers(r.services[i], Resolved(u, s.content)) && s.observedAt == r.observedAt
  }

  /** Every committed reconcile stored an answer to its whole snapshot. */
  ghost predicate HistoryOk(history: seq<Event>) {
    forall i :: 0 <= i < |history| && history[i].Reconcile? ==>
      && AllAnswer(history[i].services, history[i].resolved)
      && |history[i].services| == |history[i].resolved|
      && ValidConfig(history[i].cfg)
  }

  /** What a round leaves of one UID, against the stale times it should leave. */
  ghost predicate RoundAt(after: map<Uid, Service>, m: map<Uid, Option<Time>>, r: Round, u: Uid) {
    && (u in after <==> u in m)
    && (u in after ==> after[u].staleAt == m[u])
    && (u in after ==> (after[u].active <==> after[u].staleAt.None?))
    && (u in after && after[u].active ==> Carries(after[u], u, r))
  }

  lemma RoundPublishedAt(src: Source, rounds: seq<Round>, services: seq<Snapshot>, resolved: seq<Resolved>, t: Time,
                         retention: int, u: Uid)
    requires Published(src, rounds)
    requires AllAnswer(services, resolved) && |services| == |resolved|
    ensures var r := Round(services, t, retention);
            RoundAt(Reconciled(src, resolved, t, retention).services, NextStaleTimes(StaleTimes(src), r), r, u)
  {
    AnswerUids(services, resolved);
    if u in Uids(resolved) {
      ReconciledIsSnapshot(src, resolved, t, retention, u);
      LastReportIsLastSnapshot(services, resolved, u);
    } else {
      ReconciledUnreported(src, resolved, t, retention, u);
    }
  }

  lemma RoundAssembled(after: Source, rounds: seq<Round>, r: Round, m: map<Uid, Option<Time>>)
    requires forall u :: RoundAt(after.services, m, r, u)
    requires m == NextStaleTimes(StaleTimesAfter(rounds), r)
    ensures Published(after, rounds + [r])
  {
    assert (rounds + [r])[..|rounds|] == rounds;
    forall u
      ensures u in StaleTimes(after) <==> u in m
      ensures u in m ==> StaleTimes(after)[u] == m[u]
    {
      assert RoundAt(after.services, m, r, u);
    }
    assert StaleTimes(after) == m;
    forall u | u in after.services
      ensures after.services[u].active <==> after.services[u].staleAt.None?
      ensures after.services[u].active ==> Carries(after.services[u], u, r)
    {
      assert RoundAt(after.services, m, r, u);
    }
  }

  lemma RoundPublished(src: Source, rounds: seq<Round>, services: seq<Snapshot>, resolved: seq<Resolved>, t: Time,
                       retention: int)
    requires Published(src, rounds)
    requires AllAnswer(services, resolved) && |services| == |resolved|
    ensures Published(Reconciled(src, resolved, t, retention), rounds + [Round(services, t, retention)])
  {
    var after, r := Reconciled(src, resolved, t, retention), Round(services, t, retention);
    var m := NextStaleTimes(StaleTimes(src), r);
    forall u
      ensures RoundAt(after.services, m, r, u)
    {
      RoundPublishedAt(src, rounds, services, resolved, t, retention, u);
    }
    RoundAssembled(after, rounds, r, m);
  }

  lemma LivePublished(src: Source, rounds: seq<Round>, live: set<IpId>)
    requires Published(src, rounds)
    ensures Published(LiveSource(src, live), rounds)
  {
    var src' := LiveSource(src, live);
    assert StaleTimes(src') == StaleTimes(src);
    if rounds != [] {
      forall u | u in src'.services && src'.services[u].active
        ensures Carries(src'.services[u], u, rounds[|rounds| - 1])
      {
        assert Carries(src.services[u], u, rounds[|rounds| - 1]);
      }
    }
  }

  lemma SameServicesPublished(src: Source, src': Source, rounds: seq<Round>)
    requires Published(src, rounds) && src'.services == src.services
    ensures Published(src', rounds)
  {
  }

  lemma {:induction false} ReplayPublished(history: seq<Event>, k: string)
    requires HistoryOk(history)
    ensures var db := Replay(EMPTY_DB, history);
            if k in db.sources then Published(db.sources[k], Rounds(history, k)) else Rounds(history, k) == []
    decreases |history|
  {
    if history != [] {
      var earlier, e := history[..|history| - 1], history[|history| - 1];
      ReplayPublished(earlier, k);
      var db := Replay(EMPTY_DB, earlier);
      var rounds := Rounds(earlier, k);
      match e
      case Managed(op) =>
        if k in db.sources {
          LivePublished(db.sources[k], rounds, After(db.ipam, op).ips.Keys);
        }
      case Reconcile(cfg, services, resolved, t) =>
        if cfg.key == k {
          var base := UpsertSource(db.sources, cfg);
          if k in db.sources {
            SameServicesPublished(db.sources[k], base, rounds);
          } else {
            assert Published(base, rounds);
          }
          RoundPublished(base, rounds, services, resolved, t, cfg.retention);
        }
      case Failure(cfg, _, _) =>
        if cfg.key == k {
          assert Published(EnsureSource(db.sources, cfg), rounds);
        }
    }
  }

  lemma {:induction false} RunHistoryOk(hash: string -> int, steps: seq<Step>)
    ensures HistoryOk(Protocol.Run(hash, steps).history)
    decreases |steps|
  {
    if steps != [] {
      var before, step := steps[..|steps| - 1], steps[|steps| - 1];
      RunHistoryOk(hash, before);
      RunKeeps(hash, before);
      var s := Protocol.Run(hash, before);
      if step.Commit? && At(s, step.r).Reconciling? {
        assert ReplicaOk(s, s.replicas[step.r]);
      }
    }
  }

  lemma ReachablePublished(hash: string -> int, steps: seq<Step>, k: string)
    requires k in Protocol.Run(hash, steps).db.sources
    ensures Published(Protocol.Run(hash, steps).db.sources[k], Rounds(Protocol.Run(hash, steps).history, k))
  {
    RunHistoryOk(hash, steps);
    RunKeeps(hash, steps);
    ReplayPublished(Protocol.Run(hash, steps).history, k);
  }

  /** What is active and what it carries, from the committed rounds alone. */
  ghost predicate SnapshotRule(services: map<Uid, Service>, rounds: seq<Round>, u: Uid) {
    && (rounds == [] ==> u !in services)
    && (rounds != [] ==>
          && (u in services && services[u].active <==> u in ReportedUids(rounds[|rounds| - 1].services))
          && (u in services && services[u].active ==> Carries(services[u], u, rounds[|rounds| - 1])))
  }

  /** What is stored and since when it is stale, from the committed rounds alone. */
  ghost predicate StaleRule(services: map<Uid, Service>, rounds: seq<Round>, u: Uid) {
    var i := LastSeen(rounds, u);
    && (u in services <==> i >= 0 && Retained(rounds, i))
    && (u in services ==>
          && (services[u].active <==> services[u].staleAt.None?)
          && services[u].staleAt == if i == |rounds| - 1 then None else Some(rounds[i + 1].observedAt))
  }

  lemma PublishedAt(src: Source, rounds: seq<Round>, u: Uid)
    requires Published(src, rounds)
    ensures SnapshotRule(src.services, rounds, u) && StaleRule(src.services, rounds, u)
  {
    StaleTimesClosedForm(rounds, u);
    assert u in src.services <==> u in StaleTimes(src);
    if rounds != [] {
      LastSnapshotReported(rounds[|rounds| - 1].services, u);
    }
  }

  // ----- the main results

  /**
   * In every reachable state the active services of a source are exactly those of its last
   * committed complete snapshot, each carrying that snapshot's fields, ports, addresses and
   * hostnames; a source no reconcile has committed for has no services.
   */
  lemma LastCommittedSnapshotWins(hash: string -> int, steps: seq<Step>, k: string, u: Uid)
    ensures var s := Protocol.Run(hash, steps);
            k in s.db.sources ==> SnapshotRule(s.db.sources[k].services, Rounds(s.history, k), u)
  {
    var s := Protocol.Run(hash, steps);
    if k in s.db.sources {
      ReachablePublished(hash, steps, k);
      PublishedAt(s.db.sources[k], Rounds(s.history, k), u);
    }
  }

  /**
   * The stale lifecycle over whole runs: a service is stored exactly when some round since the
   * source was created reported it and no later round's cut-off has reached the time of the
   * first round that missed it. It is active exactly when it has no stale time, and its stale
   * time is that first round's and is not refreshed while it stays missing.
   */
  lemma StaleLifecycle(hash: string -> int, steps: seq<Step>, k: string, u: Uid)
    ensures var s := Protocol.Run(hash, steps);
            k in s.db.sources ==> StaleRule(s.db.sources[k].services, Rounds(s.history, k), u)
  {
    var s := Protocol.Run(hash, steps);
    if k in s.db.sources {
      ReachablePublished(hash, steps, k);
      PublishedAt(s.db.sources[k], Rounds(s.history, k), u);
    }
  }

  /**
   * One committed reconcile: a UID it reports keeps its row identity if it had a row; a row is
   * deleted only once the round's time has reached its stale time plus the retention, and so
   * never by the reconcile that marks it; no such row remains afterwards.
   */
  lemma ReconcileDeletesOnlyExpired(src: Source, rs: seq<Resolved>, t: Time, retention: int, u: Uid)
    requires retention > 0 && u in src.services && (src.services[u].active <==> src.services[u].staleAt.None?)
    ensures var after := Reconciled(src, rs, t, retention).services;
            && (u in Uids(rs) ==> u in after && after[u].id == src.services[u].id)
            && (u !in after
                <==> u !in Uids(rs) && src.services[u].staleAt.Some? && src.services[u].staleAt.value + retention <= t)
            && (u in after && after[u].staleAt.Some? ==> t < after[u].staleAt.value + retention)
  {
    if u in Uids(rs) {
      ReconciledIsSnapshot(src, rs, t, retention, u);
    } else {
      ReconciledUnreported(src, rs, t, retention, u);
    }
  }
}
