/** Where committed events come from, and what the single steps of an attempt lead to. */
module Provenance {
  import opened Wrappers
  import opened Ipam
  import opened Discovery
  import opened Protocol
  import opened Lookups

  // ----- every committed event was asked for

  /** Before step n the replica listed this snapshot at these times. */
  ghost predicate ListedAt(x: Execution, n: nat, r: ReplicaId, cfg: SourceConfig, services: seq<Snapshot>,
                           started: Time, observed: Time) {
    n <= |x.steps| && exists l: nat :: l < n && x.steps[l] == List(r, cfg, Ok(services), started, observed)
  }

  /** Before step n the replica's listing, begun at this time, failed so, or its round did later. */
  ghost predicate FailedAt(x: Execution, n: nat, r: ReplicaId, cfg: SourceConfig, started: Time, message: string) {
    n <= |x.steps| && exists l: nat :: l < n && FailsFrom(x, n, r, cfg, started, message, l)
  }

  ghost predicate FailsFrom(x: Execution, n: nat, r: ReplicaId, cfg: SourceConfig, started: Time, message: string,
                            l: nat)
    requires n <= |x.steps|
  {
    && l < n && x.steps[l].List? && x.steps[l].r == r && x.steps[l].cfg == cfg && x.steps[l].startedAt == started
    && (x.steps[l].outcome == Err(message) || exists f: nat :: l < f < n && x.steps[f] == Fail(r, message))
  }

  ghost predicate Stems(x: Execution, n: nat, r: ReplicaId, p: Replica) {
    match p
    case Idle => true
    case Listed(cfg, services, started, observed) => ListedAt(x, n, r, cfg, services, started, observed) && Checked(cfg)
    case Reconciling(tx) => ListedAt(x, n, r, tx.cfg, tx.services, tx.startedAt, tx.observedAt) && Checked(tx.cfg)
    case MustRecord(cfg, started, message) => FailedAt(x, n, r, cfg, started, message) && Checked(cfg)
    case Recording(cfg, started, message, _) => FailedAt(x, n, r, cfg, started, message) && Checked(cfg)
  }

  /** The configuration names a source and keeps missing services for some time. */
  predicate Checked(cfg: SourceConfig) {
    cfg.key != "" && cfg.retention > 0
  }

  lemma StemsLater(x: Execution, n: nat, r: ReplicaId, p: Replica)
    requires n < |x.steps| && Stems(x, n, r, p)
    ensures Stems(x, n + 1, r, p)
  {
    match p
    case MustRecord(cfg, started, message) => FailedLater(x, n, r, cfg, started, message);
    case Recording(cfg, started, message, _) => FailedLater(x, n, r, cfg, started, message);
    case _ =>
  }

  lemma FailedLater(x: Execution, n: nat, r: ReplicaId, cfg: SourceConfig, started: Time, message: string)
    requires n < |x.steps| && FailedAt(x, n, r, cfg, started, message)
    ensures FailedAt(x, n + 1, r, cfg, started, message)
  {
    var l: nat :| l < n && FailsFrom(x, n, r, cfg, started, message, l);
    assert FailsFrom(x, n + 1, r, cfg, started, message, l);
  }

  /** A round that was listed and now fails, fails from its listing. */
  lemma NowFails(x: Execution, n: nat, r: ReplicaId, cfg: SourceConfig, services: seq<Snapshot>, started: Time,
                 observed: Time, message: string)
    requires n < |x.steps| && ListedAt(x, n, r, cfg, services, started, observed) && x.steps[n] == Fail(r, message)
    ensures FailedAt(x, n + 1, r, cfg, started, message)
  {
    var l: nat :| l < n && x.steps[l] == List(r, cfg, Ok(services), started, observed);
    assert FailsFrom(x, n + 1, r, cfg, started, message, l);
  }

  /** Address-management calls change no configuration, snapshot, time or message of a replica. */
  lemma ManagedStems(x: Execution, n: nat, r: ReplicaId, p: Replica, live: set<IpId>)
    requires Stems(x, n, r, p)
    ensures Stems(x, n, r, LiveReplica(p, live))
  {
  }

  lemma ListStems(x: Execution, n: nat)
    requires n < |x.steps| && x.steps[n].List? && Stems(x, n, x.steps[n].r, At(StateAt(x, n), x.steps[n].r))
    ensures Stems(x, n + 1, x.steps[n].r, At(StateAt(x, n + 1), x.steps[n].r))
  {
    NextState(x, n);
    var s, step := StateAt(x, n), x.steps[n];
    StemsLater(x, n, step.r, At(s, step.r));
    if step.outcome.Err? {
      assert FailsFrom(x, n + 1, step.r, step.cfg, step.startedAt, step.outcome.error, n);
    }
  }

  lemma FailStems(x: Execution, n: nat)
    requires n < |x.steps| && x.steps[n].Fail? && Stems(x, n, x.steps[n].r, At(StateAt(x, n), x.steps[n].r))
    ensures Stems(x, n + 1, x.steps[n].r, At(StateAt(x, n + 1), x.steps[n].r))
  {
    NextState(x, n);
    var r, message := x.steps[n].r, x.steps[n].message;
    match At(StateAt(x, n), r)
    case Listed(cfg, services, started, observed) => NowFails(x, n, r, cfg, services, started, observed, message);
    case Reconciling(tx) => NowFails(x, n, r, tx.cfg, tx.services, tx.startedAt, tx.observedAt, message);
    case _ =>
  }

  /** Every other step keeps what the attempt stems from, or ends it. */
  ghost predicate SameOrigin(p: Replica, q: Replica) {
    || q.Idle? || q == p
    || (p.Listed? && q.Reconciling? && q.tx.cfg == p.cfg && q.tx.services == p.services
        && q.tx.startedAt == p.startedAt && q.tx.observedAt == p.observedAt)
    || (p.Reconciling? && q.Reconciling? && q.tx.cfg == p.tx.cfg && q.tx.services == p.tx.services
        && q.tx.startedAt == p.tx.startedAt && q.tx.observedAt == p.tx.observedAt)
    || (p.MustRecord? && q.Recording? && q.cfg == p.cfg && q.startedAt == p.startedAt && q.message == p.message)
    || (p.Recording? && q.Recording? && q.cfg == p.cfg && q.startedAt == p.startedAt && q.message == p.message)
  }

  lemma PlainOrigin(hash: string -> int, s: State, step: Step)
    requires !step.Manage? && !step.List? && !step.Fail?
    ensures SameOrigin(At(s, step.r), At(Do(hash, s, step), step.r))
  {
  }

  lemma StepStems(x: Execution, n: nat, r: ReplicaId)
    requires n < |x.steps| && Stems(x, n, r, At(StateAt(x, n), r))
    ensures Stems(x, n + 1, r, At(StateAt(x, n + 1), r))
  {
    NextState(x, n);
    var s, step := StateAt(x, n), x.steps[n];
    if step.Manage? {
      ManagedStems(x, n, r, At(s, r), After(s.db.ipam, step.op).ips.Keys);
      StemsLater(x, n, r, At(StateAt(x, n + 1), r));
    } else if step.r != r {
      OthersStay(x.hash, s, step, r);
      StemsLater(x, n, r, At(s, r));
    } else if step.List? {
      ListStems(x, n);
    } else if step.Fail? {
      FailStems(x, n);
    } else {
      PlainOrigin(x.hash, s, step);
      StemsLater(x, n, r, At(s, r));
    }
  }

  lemma {:induction false} AllStem(x: Execution, n: nat, r: ReplicaId)
    requires n <= |x.steps|
    ensures Stems(x, n, r, At(StateAt(x, n), r))
    decreases n
  {
    if n == 0 {
      assert StateAt(x, 0) == START;
    } else {
      AllStem(x, n - 1, r);
      StepStems(x, n - 1, r);
    }
  }

  /** The committed event was asked for before step n. */
  ghost predicate AskedFor(x: Execution, n: nat, e: Event) {
    match e
    case Managed(op) => n <= |x.steps| && exists l: nat :: l < n && x.steps[l] == Manage(op)
    case Reconcile(cfg, services, _, observed) =>
      Checked(cfg) && exists r, started :: ListedAt(x, n, r, cfg, services, started, observed)
    case Failure(cfg, attempted, message) => Checked(cfg) && exists r :: FailedAt(x, n, r, cfg, attempted, message)
  }

  lemma AskedLater(x: Execution, n: nat, e: Event)
    requires n < |x.steps| && AskedFor(x, n, e)
    ensures AskedFor(x, n + 1, e)
  {
    if e.Failure? {
      var r :| FailedAt(x, n, r, e.cfg, e.attemptedAt, e.message);
      FailedLater(x, n, r, e.cfg, e.attemptedAt, e.message);
    }
    if e.Reconcile? {
      var r, started :| ListedAt(x, n, r, e.cfg, e.services, started, e.observedAt);
      assert ListedAt(x, n + 1, r, e.cfg, e.services, started, e.observedAt);
    }
  }

  /** What a step appends to the history, if anything. */
  lemma AppendedEvent(hash: string -> int, s: State, step: Step)
    ensures var s' := Do(hash, s, step);
            || s'.history == s.history
            || (step.Manage? && s'.history == s.history + [Managed(step.op)])
            || (step.Commit? && At(s, step.r).Reconciling?
                && var tx := At(s, step.r).tx;
                   s'.history == s.history + [Reconcile(tx.cfg, tx.services, tx.resolved, tx.observedAt)])
            || (step.Commit? && At(s, step.r).Recording?
                && var p := At(s, step.r); s'.history == s.history + [Failure(p.cfg, p.startedAt, p.message)])
  {
  }

  lemma NewEventAsked(x: Execution, n: nat, h: nat)
    requires n < |x.steps| && |StateAt(x, n).history| == h < |StateAt(x, n + 1).history|
    ensures AskedFor(x, n + 1, StateAt(x, n + 1).history[h])
  {
    NextState(x, n);
    var s, step := StateAt(x, n), x.steps[n];
    AppendedEvent(x.hash, s, step);
    if step.Commit? {
      AllStem(x, n, step.r);
      StemsLater(x, n, step.r, At(s, step.r));
    }
  }

  ghost predicate EventAsked(x: Execution, n: nat, h: nat)
    requires n <= |x.steps|
  {
    h < |StateAt(x, n).history| ==> AskedFor(x, n, StateAt(x, n).history[h])
  }

  /**
   * In every run each committed reconcile carries a snapshot that some replica listed, with the
   * configuration and the observation time of that listing; each failure record carries the
   * message of a listing or round that failed, with the time that round began; and each
   * address-management event is a call that was made.
   */
  lemma {:induction false} EveryEventWasAskedFor(x: Execution, n: nat, h: nat)
    requires n <= |x.steps|
    ensures EventAsked(x, n, h)
    decreases n
  {
    if n == 0 {
      assert StateAt(x, 0) == START;
    } else {
      EveryEventWasAskedFor(x, n - 1, h);
      if h < |StateAt(x, n - 1).history| {
        EventStays(x, n - 1, h);
        AskedLater(x, n - 1, StateAt(x, n - 1).history[h]);
      } else {
        NewEvent(x, n - 1);
        if h < |StateAt(x, n).history| {
          NewEventAsked(x, n - 1, h);
        }
      }
    }
  }

  // ----- what ends an attempt, and what it leaves to do

  /** Some open transaction holds the lock of the key, or of a key with the same hash. */
  ghost predicate IsLocked(hash: string -> int, s: State, key: string) {
    exists r :: r in s.replicas && HoldsLock(hash, s.replicas[r], key)
  }

  predicate HoldsLock(hash: string -> int, p: Replica, key: string) {
    (p.Reconciling? && hash(p.tx.cfg.key) == hash(key)) || (p.Recording? && hash(p.cfg.key) == hash(key))
  }

  /** Nothing is committed, and only this replica moves. */
  predicate OnlyMoves(s: State, s': State, r: ReplicaId) {
    s'.db == s.db && s'.history == s.history && s'.replicas == s.replicas[r := At(s', r)]
  }

  /** A failed listing owes a failure record with the time it began; a good one keeps its snapshot and both times. */
  lemma ListLeads(hash: string -> int, s: State, r: ReplicaId, cfg: SourceConfig,
                  outcome: Result<seq<Snapshot>, string>,
                  started: Time, observed: Time)
    requires At(s, r).Idle? && Checked(cfg)
    ensures var s' := Do(hash, s, List(r, cfg, outcome, started, observed));
            OnlyMoves(s, s', r)
            && At(s', r) == match outcome
                            case Ok(services) => Listed(cfg, services, started, observed)
                            case Err(message) => MustRecord(cfg, started, message)
  {
  }

  /** A round that finds the lock held is over and owes nothing, whether it came to write or to record. */
  lemma BusyOwesNothing(hash: string -> int, s: State, r: ReplicaId)
    requires At(s, r).Listed? || At(s, r).MustRecord?
    ensures var s', p := Do(hash, s, TryLock(r)), At(s, r);
            OnlyMoves(s, s', r) && (At(s', r).Idle? <==> IsLocked(hash, s, p.cfg.key))
            && (!IsLocked(hash, s, p.cfg.key) ==> HoldsLock(hash, At(s', r), p.cfg.key))
  {
    var p := At(s, r);
    assert LockHeld(hash, s, p.cfg.key) <==> IsLocked(hash, s, p.cfg.key);
  }

  /** A reconcile that fails is rolled back and owes a failure record; a failing record is given up. */
  lemma FailureIsOwed(hash: string -> int, s: State, r: ReplicaId, message: string)
    ensures var s', p := Do(hash, s, Fail(r, message)), At(s, r);
            OnlyMoves(s, s', r)
            && At(s', r) == match p
                            case Listed(cfg, _, started, _) => MustRecord(cfg, started, message)
                            case Reconciling(tx) => MustRecord(tx.cfg, tx.startedAt, message)
                            case _ => Idle
  {
  }

  /** A crash rolls back and releases the lock. */
  lemma CrashReleases(hash: string -> int, s: State, r: ReplicaId)
    ensures var s' := Do(hash, s, Crash(r)); OnlyMoves(s, s', r) && At(s', r).Idle?
  {
  }

  /**
   * An owed failure record is committed by lock, write and commit exactly when the lock is free
   * and the source or its site exists; otherwise these steps change nothing that is stored.
   */
  lemma OwedRecordIsCommitted(hash: string -> int, s: State, r: ReplicaId)
    requires Protocol.Inv(hash, s) && At(s, r).MustRecord?
    ensures var p, s' := At(s, r), Do(hash, Do(hash, Do(hash, s, TryLock(r)), WriteSource(r)), Commit(r));
            if !IsLocked(hash, s, p.cfg.key) && (p.cfg.key in s.db.sources || p.cfg.site in s.db.ipam.sites)
            then s'.history == s.history + [Failure(p.cfg, p.startedAt, p.message)] && At(s', r).Idle?
            else s'.history == s.history && s'.db == s.db
  {
    var p := At(s, r);
    BusyOwesNothing(hash, s, r);
    var s1 := Do(hash, s, TryLock(r));
    var s2 := Do(hash, s1, WriteSource(r));
    if !IsLocked(hash, s, p.cfg.key) {
      assert At(s1, r) == Recording(p.cfg, p.startedAt, p.message, None);
      if p.cfg.key in s.db.sources {
        assert SourceSites(s.db);
      }
    } else {
      assert s2 == s1;
    }
  }

  // ----- address-management calls between the steps

  /** The replica's transaction has written a row bound to the site, or overwrites one that is. */
  predicate KeepsSite(s: State, p: Replica, site: SiteId) {
    || (p.Reconciling? && !p.tx.pc.Locked?
        && (p.tx.row.site == site || (p.tx.cfg.key in s.db.sources && s.db.sources[p.tx.cfg.key].site == site)))
    || (p.Recording? && p.staged.Some?
        && (p.staged.value.site == site || (p.cfg.key in s.db.sources && s.db.sources[p.cfg.key].site == site)))
  }

  /** The row as it was, with its link gone if its IP row is. */
  predicate Unlinked(before: AddressRow, after: AddressRow, t: Tables) {
    after == before.(link := if before.link.Some? && before.link.value in t.ips then before.link else None)
  }

  predicate UnlinkedAll(before: seq<AddressRow>, after: seq<AddressRow>, t: Tables) {
    |after| == |before| && forall i :: 0 <= i < |before| ==> Unlinked(before[i], after[i], t)
  }

  /** The source as it was, except for links to IP rows that are gone. */
  ghost predicate OnlyUnlinked(before: Source, after: Source, t: Tables) {
    && after == before.(services := after.services) && after.services.Keys == before.services.Keys
    && forall u :: u in before.services ==>
         && after.services[u] == before.services[u].(content := after.services[u].content)
         && after.services[u].content == before.services[u].content.(addresses := after.services[u].content.addresses)
         && UnlinkedAll(before.services[u].content.addresses, after.services[u].content.addresses, t)
  }

  predicate PartUnlinked(before: Resolved, after: Resolved, t: Tables) {
    && after.uid == before.uid
    && after.content == before.content.(addresses := after.content.addresses)
    && UnlinkedAll(before.content.addresses, after.content.addresses, t)
  }

  /** A transaction stands where it stood; only links to IP rows that are gone leave its private rows. */
  ghost predicate Undisturbed(p: Replica, q: Replica, t: Tables) {
    match p
    case Reconciling(tx) =>
      if tx.pc.Locked? then q == p
      else
        && q.Reconciling? && q.tx == tx.(row := q.tx.row, resolved := q.tx.resolved, pc := q.tx.pc)
        && OnlyUnlinked(tx.row, q.tx.row, t)
        && |q.tx.resolved| == |tx.resolved|
        && (forall i :: 0 <= i < |tx.resolved| ==> PartUnlinked(tx.resolved[i], q.tx.resolved[i], t))
        && (if tx.pc.InService? then q.tx.pc.InService? && PartUnlinked(tx.pc.part, q.tx.pc.part, t)
            else q.tx.pc == tx.pc)
    case Recording(cfg, at, message, Some(row)) =>
      q.Recording? && q.staged.Some? && q == Recording(cfg, at, message, q.staged)
        && OnlyUnlinked(row, q.staged.value, t)
    case _ => q == p
  }

  lemma LiveUndisturbed(p: Replica, t: Tables)
    ensures Undisturbed(p, LiveReplica(p, t.ips.Keys), t)
  {
    match p
    case Reconciling(tx) => LiveOnlyUnlinks(tx.row, t);
    case Recording(_, _, _, Some(row)) => LiveOnlyUnlinks(row, t);
    case _ =>
  }

  /**
   * A call waits only to delete a site that an open transaction holds. Any other call takes
   * effect at once: a source goes exactly when its site does, and else loses only the links to
   * IP rows that are gone; an open transaction stands where it stood.
   */
  lemma ManageOutcome(hash: string -> int, s: State, op: Op)
    ensures var s', t := Do(hash, s, Manage(op)), After(s.db.ipam, op);
            if op.DeleteSite? && exists r :: r in s.replicas && KeepsSite(s, s.replicas[r], op.site) then s' == s
            else
              && s'.db.ipam == t && s'.history == s.history + [Managed(op)] && s'.replicas.Keys == s.replicas.Keys
              && (forall k :: k in s'.db.sources <==> k in s.db.sources && s.db.sources[k].site in t.sites)
              && (forall k :: k in s'.db.sources ==> OnlyUnlinked(s.db.sources[k], s'.db.sources[k], t))
              && (forall r :: r in s.replicas ==> Undisturbed(s.replicas[r], s'.replicas[r], t))
  {
    if op.DeleteSite? {
      BusyExactly(s, op.site);
    }
    forall k | k in s.db.sources && s.db.sources[k].site in After(s.db.ipam, op).sites
      ensures OnlyUnlinked(s.db.sources[k], LiveSource(s.db.sources[k], After(s.db.ipam, op).ips.Keys),
                           After(s.db.ipam, op))
    {
      LiveOnlyUnlinks(s.db.sources[k], After(s.db.ipam, op));
    }
    forall r | r in s.replicas
      ensures Undisturbed(s.replicas[r], LiveReplica(s.replicas[r], After(s.db.ipam, op).ips.Keys),
                          After(s.db.ipam, op))
    {
      LiveUndisturbed(s.replicas[r], After(s.db.ipam, op));
    }
  }

  lemma BusyExactly(s: State, site: SiteId)
    ensures SiteBusy(s, site) <==> exists r :: r in s.replicas && KeepsSite(s, s.replicas[r], site)
  {
    assert forall r :: r in s.replicas ==> (HoldsSite(s, s.replicas[r], site) <==> KeepsSite(s, s.replicas[r], site));
  }

  lemma LiveOnlyUnlinks(src: Source, t: Tables)
    ensures OnlyUnlinked(src, LiveSource(src, t.ips.Keys), t)
  {
  }
}
