/**
 * Any number of replicas reconciling any number of sources over one database, with
 * address-management calls in between.
 *
 * A transaction works statement by statement on a private copy of its source's rows and
 * publishes them at commit. The engine's part is assumed as step semantics: a write lock
 * taken by an uncommitted statement blocks a conflicting delete; the try-lock is held to the
 * end of the transaction; a crashed transaction is rolled back.
 */
module Protocol {
  import opened Wrappers
  import opened Ipam
  import opened Discovery

  type ReplicaId = nat

  datatype Db = Db(ipam: Tables, sources: map<string, Source>)

  // ----- committed events

  datatype Event =
    | Managed(op: Op)
    | Reconcile(cfg: SourceConfig, services: seq<Snapshot>, resolved: seq<Resolved>, observedAt: Time)
    | Failure(cfg: SourceConfig, attemptedAt: Time, message: string)

  /** Foreign-key actions of a committed address-management call on the discovery tables. */
  function Cascade(sources: map<string, Source>, t: Tables): map<string, Source> {
    map k | k in sources && sources[k].site in t.sites :: LiveSource(sources[k], t.ips.Keys)
  }

  function ManagedDb(db: Db, op: Op): Db {
    var t := After(db.ipam, op);
    Db(t, Cascade(db.sources, t))
  }

  /** One event as a single atomic step on the committed database. */
  function Apply(db: Db, e: Event): Db {
    match e
    case Managed(op) => ManagedDb(db, op)
    case Reconcile(cfg, _, resolved, t) =>
      db.(sources := db.sources[cfg.key := Reconciled(UpsertSource(db.sources, cfg), resolved, t, cfg.retention)])
    case Failure(cfg, at, message) =>
      db.(sources := db.sources[cfg.key := RecordFailure(EnsureSource(db.sources, cfg), at, message)])
  }

  function Replay(db: Db, history: seq<Event>): Db
    decreases |history|
  {
    if history == [] then db else Apply(Replay(db, history[..|history| - 1]), history[|history| - 1])
  }

  const EMPTY_DB := Db(EMPTY, map[])

  // ----- replicas

  /** Where a reconcile transaction stands in the statement sequence. */
  datatype Pc = Locked | Between | InService(part: Resolved) | Finished

  datatype Tx = Tx(
    cfg: SourceConfig, services: seq<Snapshot>, startedAt: Time, observedAt: Time,
    pc: Pc, row: Source, counts: Counts, resolved: seq<Resolved>)

  datatype Replica =
    | Idle
    | Listed(cfg: SourceConfig, services: seq<Snapshot>, startedAt: Time, observedAt: Time)
    | MustRecord(cfg: SourceConfig, startedAt: Time, message: string)
    | Reconciling(tx: Tx)
    | Recording(cfg: SourceConfig, startedAt: Time, message: string, staged: Option<Source>)

  datatype State = State(db: Db, replicas: map<ReplicaId, Replica>, history: seq<Event>)

  const START := State(EMPTY_DB, map[], [])

  function At(s: State, r: ReplicaId): Replica {
    if r in s.replicas then s.replicas[r] else Idle
  }

  function Become(s: State, r: ReplicaId, what: Replica): State {
    s.(replicas := s.replicas[r := what])
  }

  predicate InTx(p: Replica) {
    p.Reconciling? || p.Recording?
  }

  function KeyOf(p: Replica): string
    requires InTx(p)
  {
    if p.Reconciling? then p.tx.cfg.key else p.cfg.key
  }

  /** The advisory lock is on a hash of the key, so different keys may collide. */
  predicate LockHeld(hash: string -> int, s: State, key: string) {
    exists r :: r in s.replicas && InTx(s.replicas[r]) && hash(KeyOf(s.replicas[r])) == hash(key)
  }

  /** The transaction has written its source row and so holds locks on it and on the site. */
  predicate Writing(p: Replica) {
    (p.Reconciling? && !p.tx.pc.Locked?) || (p.Recording? && p.staged.Some?)
  }

  predicate HoldsSite(s: State, p: Replica, site: SiteId) {
    Writing(p) && ((p.Reconciling? && p.tx.row.site == site) || (p.Recording? && p.staged.value.site == site)
                   || (KeyOf(p) in s.db.sources && s.db.sources[KeyOf(p)].site == site))
  }

  predicate SiteBusy(s: State, site: SiteId) {
    exists r :: r in s.replicas && HoldsSite(s, s.replicas[r], site)
  }

  /** A transaction's private rows follow the deletion of IP rows as the committed rows do. */
  function LiveReplica(p: Replica, live: set<IpId>): Replica {
    match p
    case Reconciling(tx) =>
      if tx.pc.Locked? then p
      else Reconciling(tx.(row := LiveSource(tx.row, live), resolved := LiveAll(tx.resolved, live),
                           pc := if tx.pc.InService? then InService(LiveResolved(tx.pc.part, live)) else tx.pc))
    case Recording(cfg, at, m, Some(row)) => Recording(cfg, at, m, Some(LiveSource(row, live)))
    case _ => p
  }

  // ----- steps

  datatype Step =
    | Manage(op: Op)
    | List(r: ReplicaId, cfg: SourceConfig, outcome: Result<seq<Snapshot>, string>, startedAt: Time, observedAt: Time)
    | TryLock(r: ReplicaId)
    | WriteSource(r: ReplicaId)
    | WriteService(r: ReplicaId)
    | WriteAddress(r: ReplicaId)
    | WriteHostnames(r: ReplicaId)
    | Close(r: ReplicaId)
    | Commit(r: ReplicaId)
    | Fail(r: ReplicaId, message: string)
    | Crash(r: ReplicaId)

  /** The checks of the configuration that the protocol relies on. */
  predicate ValidConfig(cfg: SourceConfig) {
    cfg.key != "" && cfg.retention > 0
  }

  ghost function Do(hash: string -> int, s: State, step: Step): State {
    match step
    case Manage(op) =>
      if op.DeleteSite? && SiteBusy(s, op.site) then s else DoManage(s, op)
    case List(r, cfg, outcome, startedAt, observedAt) =>
      if !At(s, r).Idle? || !ValidConfig(cfg) then s
      else if outcome.Ok? then Become(s, r, Listed(cfg, outcome.value, startedAt, observedAt))
      else Become(s, r, MustRecord(cfg, startedAt, outcome.error))
    case TryLock(r) => DoTryLock(hash, s, r)
    case WriteSource(r) => DoWriteSource(s, r)
    case WriteService(r) => DoWriteService(s, r)
    case WriteAddress(r) => DoWriteAddress(s, r)
    case WriteHostnames(r) => DoWriteHostnames(s, r)
    case Close(r) => DoClose(s, r)
    case Commit(r) => DoCommit(s, r)
    case Fail(r, message) => DoFail(s, r, message)
    case Crash(r) => Become(s, r, Idle)
  }

  function DoManage(s: State, op: Op): State {
    var db := ManagedDb(s.db, op);
    State(db, map r | r in s.replicas :: LiveReplica(s.replicas[r], db.ipam.ips.Keys), s.history + [Managed(op)])
  }

  function DoTryLock(hash: string -> int, s: State, r: ReplicaId): State {
    match At(s, r)
    case Listed(cfg, services, startedAt, observedAt) =>
      if LockHeld(hash, s, cfg.key) then Become(s, r, Idle)
      else Become(s, r, Reconciling(Tx(cfg, services, startedAt, observedAt, Locked, NewSource(cfg), NO_COUNTS, [])))
    case MustRecord(cfg, startedAt, message) =>
      if LockHeld(hash, s, cfg.key) then Become(s, r, Idle)
      else Become(s, r, Recording(cfg, startedAt, message, None))
    case _ => s
  }

  /** The first statement of either transaction; its foreign key needs the site to exist. */
  function DoWriteSource(s: State, r: ReplicaId): State {
    match At(s, r)
    case Reconciling(tx) =>
      if tx.pc.Locked? && tx.cfg.site in s.db.ipam.sites then
        Become(s, r, Reconciling(tx.(pc := Between, row := UpsertSource(s.db.sources, tx.cfg))))
      else s
    case Recording(cfg, at, message, None) =>
      var row := EnsureSource(s.db.sources, cfg);
      if row.site in s.db.ipam.sites
         then Become(s, r, Recording(cfg, at, message, Some(RecordFailure(row, at, message))))
      else s
    case _ => s
  }

  predicate CanWriteService(p: Replica) {
    p.Reconciling? && p.tx.pc.Between? && |p.tx.resolved| < |p.tx.services| && p.tx.services[|p.tx.resolved|].uid != ""
  }

  /** Upserts the next service, replaces its ports and clears its addresses. */
  function DoWriteService(s: State, r: ReplicaId): State {
    var p := At(s, r);
    if !CanWriteService(p) then s
    else
      var tx := p.tx;
      var snap := tx.services[|tx.resolved|];
      var row := UpsertService(tx.row, snap.uid, snap.info, tx.observedAt);
      var c := Content(snap.info, EncodePorts(snap.ports), [], row.services[snap.uid].content.hostnames);
      Become(s, r, Reconciling(tx.(row := SetContent(row, snap.uid, c), pc := InService(Resolved(snap.uid, c)),
                                   counts := Begun(tx.counts, |snap.addresses|))))
  }

  predicate CanWriteAddress(p: Replica) {
    p.Reconciling? && p.tx.pc.InService? && |p.tx.resolved| < |p.tx.services|
    && p.tx.pc.part.uid in p.tx.row.services
    && |p.tx.pc.part.content.addresses| < |p.tx.services[|p.tx.resolved|].addresses|
    && AddressStorable(p.tx.pc.part.content.addresses,
                       p.tx.services[|p.tx.resolved|].addresses[|p.tx.pc.part.content.addresses|])
  }

  /** What storing one more address row does to a transaction inside a service. */
  function WithAddress(tx: Tx, row: AddressRow): Tx
    requires tx.pc.InService? && tx.pc.part.uid in tx.row.services
  {
    var part := tx.pc.part;
    tx.(row := InsertAddress(tx.row, part.uid, row),
        pc := InService(part.(content := part.content.(addresses := part.content.addresses + [row]))),
        counts := TallyRows(tx.counts, [row]))
  }

  /** Looks the next address up in the committed address tables of this moment and stores it. */
  ghost function DoWriteAddress(s: State, r: ReplicaId): State {
    var p := At(s, r);
    if !CanWriteAddress(p) then s
    else
      var reported := p.tx.services[|p.tx.resolved|].addresses[|p.tx.pc.part.content.addresses|];
      Become(s, r, Reconciling(WithAddress(p.tx, AddressRowFor(s.db.ipam, p.tx.cfg.site, reported))))
  }

  predicate CanWriteHostnames(p: Replica) {
    p.Reconciling? && p.tx.pc.InService? && |p.tx.resolved| < |p.tx.services|
    && p.tx.pc.part.uid in p.tx.row.services
    && |p.tx.pc.part.content.addresses| == |p.tx.services[|p.tx.resolved|].addresses|
    && HostnamesStorable(p.tx.services[|p.tx.resolved|].hostnames)
  }

  function DoWriteHostnames(s: State, r: ReplicaId): State {
    var p := At(s, r);
    if !CanWriteHostnames(p) then s
    else
      var tx, part := p.tx, p.tx.pc.part;
      var c := part.content.(hostnames := tx.services[|tx.resolved|].hostnames);
      Become(s, r, Reconciling(tx.(row := SetContent(tx.row, part.uid, c), pc := Between,
                                   resolved := tx.resolved + [Resolved(part.uid, c)])))
  }

  /** Marks the missing services, deletes the expired ones and records the success. */
  function DoClose(s: State, r: ReplicaId): State {
    match At(s, r)
    case Reconciling(tx) =>
      if tx.pc.Between? && |tx.resolved| == |tx.services| then
        var uids := set i | 0 <= i < |tx.services| :: tx.services[i].uid;
        Become(s, r, Reconciling(tx.(pc := Finished,
          row := Discovery.Finish(tx.row, uids, tx.observedAt, tx.cfg.retention,
                                  tx.counts.(services := |tx.services|)))))
      else s
    case _ => s
  }

  /** Publishes the private rows. */
  function DoCommit(s: State, r: ReplicaId): State {
    match At(s, r)
    case Reconciling(tx) =>
      if tx.pc.Finished? then
        State(s.db.(sources := s.db.sources[tx.cfg.key := tx.row]), s.replicas[r := Idle],
              s.history + [Reconcile(tx.cfg, tx.services, tx.resolved, tx.observedAt)])
      else s
    case Recording(cfg, at, message, Some(row)) =>
      State(s.db.(sources := s.db.sources[cfg.key := row]), s.replicas[r := Idle],
            s.history + [Failure(cfg, at, message)])
    case _ => s
  }

  /** Any error ends the transaction; a failed reconcile still has its failure to record. */
  function DoFail(s: State, r: ReplicaId, message: string): State {
    match At(s, r)
    case Listed(cfg, _, startedAt, _) => Become(s, r, MustRecord(cfg, startedAt, message))
    case Reconciling(tx) => Become(s, r, MustRecord(tx.cfg, tx.startedAt, message))
    case _ => Become(s, r, Idle)
  }

  ghost function Run(hash: string -> int, steps: seq<Step>): State
    decreases |steps|
  {
    if steps == [] then START else Do(hash, Run(hash, steps[..|steps| - 1]), steps[|steps| - 1])
  }

  // ----- the invariant

  /** No two open transactions hold the same lock. */
  ghost predicate Exclusive(hash: string -> int, s: State) {
    forall r, r' :: r in s.replicas && r' in s.replicas && r != r' && InTx(s.replicas[r]) && InTx(s.replicas[r'])
      ==> hash(KeyOf(s.replicas[r])) != hash(KeyOf(s.replicas[r']))
  }

  /** A resolved service carries what was reported; only the outcome of the lookups is its own. */
  ghost predicate Answers(snap: Snapshot, r: Resolved) {
    && r.uid == snap.uid && r.content.info == snap.info
    && r.content.ports == EncodePorts(snap.ports)
    && AddressesAnswer(snap.addresses, r.content.addresses)
    && |r.content.addresses| == |snap.addresses|
    && r.content.hostnames == snap.hostnames
  }

  ghost predicate AddressesAnswer(reported: seq<Address>, rows: seq<AddressRow>) {
    |rows| <= |reported|
    && forall i :: 0 <= i < |rows| ==>
      rows[i].kind == reported[i].kind && rows[i].addr == reported[i].addr
        && rows[i].ipMode == NullIfEmpty(reported[i].ipMode)
  }

  ghost predicate AllAnswer(services: seq<Snapshot>, resolved: seq<Resolved>) {
    |resolved| <= |services|
    && forall i :: 0 <= i < |resolved| ==> Answers(services[i], resolved[i])
  }

  /** The private rows are the committed rows with the transaction's statements applied. */
  ghost predicate TxOk(s: State, tx: Tx) {
    var base := UpsertSource(s.db.sources, tx.cfg);
    var done := PutAll(base, tx.resolved, tx.observedAt);
    && ValidConfig(tx.cfg)
    && AllAnswer(tx.services, tx.resolved)
    && match tx.pc
       case Locked => tx.resolved == [] && tx.counts == NO_COUNTS
       case Between => tx.row == done && tx.counts == Tally(tx.resolved) && tx.cfg.site in s.db.ipam.sites
       case InService(part) => PartOk(tx, done, part) && tx.cfg.site in s.db.ipam.sites
       case Finished =>
         && |tx.resolved| == |tx.services|
         && tx.row == Reconciled(base, tx.resolved, tx.observedAt, tx.cfg.retention)
         && tx.cfg.site in s.db.ipam.sites
  }

  ghost predicate PartOk(tx: Tx, done: Source, part: Resolved) {
    && |tx.resolved| < |tx.services|
    && part.uid == tx.services[|tx.resolved|].uid
    && part.content.info == tx.services[|tx.resolved|].info
    && part.content.ports == EncodePorts(tx.services[|tx.resolved|].ports)
    && AddressesAnswer(tx.services[|tx.resolved|].addresses, part.content.addresses)
    && tx.row == Put(done, part, tx.observedAt)
    && tx.counts == PartTally(tx, part)
  }

  /** The counters inside a service: the finished services, this one's no-address mark, its rows so far. */
  ghost function PartTally(tx: Tx, part: Resolved): Counts
    requires |tx.resolved| < |tx.services|
  {
    TallyRows(Begun(Tally(tx.resolved), |tx.services[|tx.resolved|].addresses|), part.content.addresses)
  }

  ghost predicate RecordingOk(s: State, p: Replica)
    requires p.Recording?
  {
    && ValidConfig(p.cfg)
    && (p.staged.Some? ==>
          && p.staged.value == RecordFailure(EnsureSource(s.db.sources, p.cfg), p.startedAt, p.message)
          && p.staged.value.site in s.db.ipam.sites)
  }

  ghost predicate ReplicaOk(s: State, p: Replica) {
    match p
    case Idle => true
    case Listed(cfg, _, _, _) => ValidConfig(cfg)
    case MustRecord(cfg, _, _) => ValidConfig(cfg)
    case Reconciling(tx) => TxOk(s, tx)
    case Recording(_, _, _, _) => RecordingOk(s, p)
  }

  ghost predicate ReplicasOk(s: State) {
    forall r :: r in s.replicas ==> ReplicaOk(s, s.replicas[r])
  }

  ghost predicate SourceSites(db: Db) {
    forall k :: k in db.sources ==> db.sources[k].site in db.ipam.sites
  }

  ghost predicate Inv(hash: string -> int, s: State) {
    && Exclusive(hash, s)
    && ReplicasOk(s)
    && Ipam.Inv(s.db.ipam)
    && SourceSites(s.db)
    && s.db == Replay(EMPTY_DB, s.history)
  }

  // ----- each step keeps the invariant

  /** A step that changes one replica only. */
  lemma BecomeKeeps(hash: string -> int, s: State, r: ReplicaId, p: Replica)
    requires Inv(hash, s) && ReplicaOk(s, p)
    requires InTx(p) ==> (InTx(At(s, r)) && KeyOf(At(s, r)) == KeyOf(p)) || !LockHeld(hash, s, KeyOf(p))
    ensures Inv(hash, Become(s, r, p))
  {
    var s' := Become(s, r, p);
    forall q | q in s'.replicas
      ensures ReplicaOk(s', s'.replicas[q])
    {
      assert ReplicaOk(s, if q == r then p else s.replicas[q]);
    }
    forall q, q' | q in s'.replicas && q' in s'.replicas && q != q' && InTx(s'.replicas[q]) && InTx(s'.replicas[q'])
      ensures hash(KeyOf(s'.replicas[q])) != hash(KeyOf(s'.replicas[q']))
    {
      if q == r {
        assert q' in s.replicas && InTx(s.replicas[q']);
      } else if q' == r {
        assert q in s.replicas && InTx(s.replicas[q]);
      }
    }
  }

  lemma TryLockKeeps(hash: string -> int, s: State, r: ReplicaId)
    requires Inv(hash, s)
    ensures Inv(hash, DoTryLock(hash, s, r))
  {
    match At(s, r)
    case Listed(cfg, services, startedAt, observedAt) =>
      assert ReplicaOk(s, s.replicas[r]);
      if LockHeld(hash, s, cfg.key) {
        BecomeKeeps(hash, s, r, Idle);
      } else {
        BecomeKeeps(hash, s, r,
                    Reconciling(Tx(cfg, services, startedAt, observedAt, Locked, NewSource(cfg), NO_COUNTS, [])));
      }
    case MustRecord(cfg, startedAt, message) =>
      assert ReplicaOk(s, s.replicas[r]);
      if LockHeld(hash, s, cfg.key) {
        BecomeKeeps(hash, s, r, Idle);
      } else {
        BecomeKeeps(hash, s, r, Recording(cfg, startedAt, message, None));
      }
    case _ =>
  }

  lemma WriteSourceKeeps(hash: string -> int, s: State, r: ReplicaId)
    requires Inv(hash, s)
    ensures Inv(hash, DoWriteSource(s, r))
  {
    var s' := DoWriteSource(s, r);
    if s' != s {
      assert ReplicaOk(s, s.replicas[r]);
      BecomeKeeps(hash, s, r, s'.replicas[r]);
    }
  }

  /** A begun service is its upsert with the reported ports and no address yet. */
  lemma ServiceBegun(tx: Tx, tx': Tx, done: Source)
    requires |tx.resolved| < |tx.services| && tx.row == done && tx.counts == Tally(tx.resolved)
    requires var snap := tx.services[|tx.resolved|];
             var row := UpsertService(tx.row, snap.uid, snap.info, tx.observedAt);
             var c := Content(snap.info, EncodePorts(snap.ports), [], row.services[snap.uid].content.hostnames);
             tx' == tx.(row := SetContent(row, snap.uid, c), pc := InService(Resolved(snap.uid, c)),
                        counts := Begun(tx.counts, |snap.addresses|))
    ensures PartOk(tx', done, tx'.pc.part)
  {
  }

  lemma WriteServiceKeeps(hash: string -> int, s: State, r: ReplicaId)
    requires Inv(hash, s)
    ensures Inv(hash, DoWriteService(s, r))
  {
    var s', p := DoWriteService(s, r), At(s, r);
    if CanWriteService(p) {
      assert ReplicaOk(s, s.replicas[r]);
      ServiceBegun(p.tx, s'.replicas[r].tx,
                   PutAll(UpsertSource(s.db.sources, p.tx.cfg), p.tx.resolved, p.tx.observedAt));
      BecomeKeeps(hash, s, r, s'.replicas[r]);
    }
  }

  lemma AddressKeepsPart(done: Source, tx: Tx, row: AddressRow)
    requires tx.pc.InService? && tx.pc.part.uid in tx.row.services && PartOk(tx, done, tx.pc.part)
    requires var n := |tx.pc.part.content.addresses|; var reported := tx.services[|tx.resolved|].addresses;
             n < |reported| && row.kind == reported[n].kind && row.addr == reported[n].addr
               && row.ipMode == NullIfEmpty(reported[n].ipMode)
    ensures PartOk(WithAddress(tx, row), done, WithAddress(tx, row).pc.part)
  {
    PutInsertAddress(done, tx.pc.part, row, tx.observedAt);
    TallySnoc(Begun(Tally(tx.resolved), |tx.services[|tx.resolved|].addresses|), tx.pc.part.content.addresses, row);
  }

  lemma WriteAddressKeeps(hash: string -> int, s: State, r: ReplicaId)
    requires Inv(hash, s)
    ensures Inv(hash, DoWriteAddress(s, r))
  {
    var s', p := DoWriteAddress(s, r), At(s, r);
    if CanWriteAddress(p) {
      assert ReplicaOk(s, s.replicas[r]);
      var tx := p.tx;
      var row := AddressRowFor(s.db.ipam, tx.cfg.site,
                               tx.services[|tx.resolved|].addresses[|tx.pc.part.content.addresses|]);
      AddressKeepsPart(PutAll(UpsertSource(s.db.sources, tx.cfg), tx.resolved, tx.observedAt), tx, row);
      BecomeKeeps(hash, s, r, Reconciling(WithAddress(tx, row)));
    }
  }

  lemma WriteHostnamesKeeps(hash: string -> int, s: State, r: ReplicaId)
    requires Inv(hash, s)
    ensures Inv(hash, DoWriteHostnames(s, r))
  {
    var s', p := DoWriteHostnames(s, r), At(s, r);
    if CanWriteHostnames(p) {
      assert ReplicaOk(s, s.replicas[r]);
      var tx, tx', part := p.tx, s'.replicas[r].tx, p.tx.pc.part;
      var done := PutAll(UpsertSource(s.db.sources, tx.cfg), tx.resolved, tx.observedAt);
      var c := part.content.(hostnames := tx.services[|tx.resolved|].hostnames);
      PutSetContent(done, part, c, tx.observedAt);
      assert tx'.resolved[..|tx'.resolved| - 1] == tx.resolved;
      BecomeKeeps(hash, s, r, s'.replicas[r]);
    }
  }

  lemma CloseKeeps(hash: string -> int, s: State, r: ReplicaId)
    requires Inv(hash, s)
    ensures Inv(hash, DoClose(s, r))
  {
    var s', p := DoClose(s, r), At(s, r);
    if p.Reconciling? && p.tx.pc.Between? && |p.tx.resolved| == |p.tx.services| {
      assert ReplicaOk(s, s.replicas[r]);
      var tx := p.tx;
      assert (set i | 0 <= i < |tx.services| :: tx.services[i].uid) == Uids(tx.resolved) by {
        AnswerUids(tx.services, tx.resolved);
      }
      BecomeKeeps(hash, s, r, s'.replicas[r]);
    }
  }

  function ReportedUids(services: seq<Snapshot>): set<Uid> {
    set i | 0 <= i < |services| :: services[i].uid
  }

  lemma AnswerUids(services: seq<Snapshot>, resolved: seq<Resolved>)
    requires AllAnswer(services, resolved) && |services| == |resolved|
    ensures ReportedUids(services) == Uids(resolved)
  {
    forall u
      ensures u in ReportedUids(services) <==> u in Uids(resolved)
    {
      if u in ReportedUids(services) {
        var i :| 0 <= i < |services| && services[i].uid == u;
        assert resolved[i].uid == u;
      }
      if u in Uids(resolved) {
        var i :| 0 <= i < |resolved| && resolved[i].uid == u;
        assert services[i].uid == u;
      }
    }
  }

  /** Committing the private rows is the reconcile as one atomic step. */
  lemma CommitIsAtomic(hash: string -> int, s: State, r: ReplicaId)
    requires Inv(hash, s) && DoCommit(s, r) != s
    ensures DoCommit(s, r).history == s.history + [DoCommit(s, r).history[|s.history|]]
    ensures DoCommit(s, r).db == Apply(s.db, DoCommit(s, r).history[|s.history|])
    ensures SourceSites(DoCommit(s, r).db)
  {
    assert ReplicaOk(s, s.replicas[r]);
    if At(s, r).Reconciling? {
      RowSite(s, At(s, r).tx);
    }
  }

  lemma CommitKeepsReplicas(hash: string -> int, s: State, r: ReplicaId)
    requires Inv(hash, s) && DoCommit(s, r) != s
    ensures ReplicasOk(DoCommit(s, r)) && Exclusive(hash, DoCommit(s, r))
  {
    var s', p := DoCommit(s, r), At(s, r);
    forall q | q in s'.replicas
      ensures ReplicaOk(s', s'.replicas[q])
    {
      if q != r {
        assert ReplicaOk(s, s.replicas[q]);
        assert InTx(s.replicas[q]) ==> hash(KeyOf(s.replicas[q])) != hash(KeyOf(p));
        OtherSourceKeeps(s, s', s.replicas[q], KeyOf(p));
      }
    }
  }

  lemma CommitKeeps(hash: string -> int, s: State, r: ReplicaId)
    requires Inv(hash, s)
    ensures Inv(hash, DoCommit(s, r))
  {
    var s' := DoCommit(s, r);
    if s' != s {
      CommitIsAtomic(hash, s, r);
      CommitKeepsReplicas(hash, s, r);
      assert s'.history[..|s.history|] == s.history;
    }
  }

  /** A transaction does not see the commit of another source. */
  lemma OtherSourceKeeps(s: State, s': State, p: Replica, key: string)
    requires ReplicaOk(s, p) && (InTx(p) ==> KeyOf(p) != key)
    requires s'.db.ipam == s.db.ipam
    requires key in s'.db.sources && s'.db.sources == s.db.sources[key := s'.db.sources[key]]
    ensures ReplicaOk(s', p)
  {
    match p
    case Reconciling(tx) =>
      assert UpsertSource(s'.db.sources, tx.cfg) == UpsertSource(s.db.sources, tx.cfg);
    case Recording(cfg, _, _, _) =>
      assert EnsureSource(s'.db.sources, cfg) == EnsureSource(s.db.sources, cfg);
    case _ =>
  }

  lemma FailKeeps(hash: string -> int, s: State, r: ReplicaId, message: string)
    requires Inv(hash, s)
    ensures Inv(hash, DoFail(s, r, message))
  {
    if r in s.replicas {
      assert ReplicaOk(s, s.replicas[r]);
    }
    BecomeKeeps(hash, s, r, DoFail(s, r, message).replicas[r]);
  }

  lemma ManageKeeps(hash: string -> int, s: State, op: Op)
    requires Inv(hash, s) && (op.DeleteSite? ==> !SiteBusy(s, op.site))
    ensures Inv(hash, DoManage(s, op))
  {
    var s' := DoManage(s, op);
    ExecKeepsInv(s.db.ipam, op);
    assert s'.history[..|s.history|] == s.history;
    forall q | q in s'.replicas
      ensures ReplicaOk(s', s'.replicas[q])
    {
      var p := s.replicas[q];
      assert ReplicaOk(s, p);
      match p
      case Reconciling(tx) => ManageKeepsTx(s, op, q);
      case Recording(_, _, _, _) => ManageKeepsRecording(s, op, q);
      case _ =>
    }
    forall q, q' | q in s'.replicas && q' in s'.replicas && q != q' && InTx(s'.replicas[q]) && InTx(s'.replicas[q'])
      ensures hash(KeyOf(s'.replicas[q])) != hash(KeyOf(s'.replicas[q']))
    {
      assert InTx(s.replicas[q]) && InTx(s.replicas[q']);
    }
  }

  /** The site a writing transaction holds outlives any admitted call. */
  lemma HeldSiteStays(s: State, op: Op, q: ReplicaId, site: SiteId)
    requires op.DeleteSite? ==> !SiteBusy(s, op.site)
    requires q in s.replicas && HoldsSite(s, s.replicas[q], site) && site in s.db.ipam.sites
    ensures site in After(s.db.ipam, op).sites
  {
  }

  /** Foreign-key actions commute with the first statement of a transaction that holds its sites. */
  lemma CascadeUpsert(s: State, op: Op, cfg: SourceConfig)
    requires cfg.key in s.db.sources ==> s.db.sources[cfg.key].site in After(s.db.ipam, op).sites
    ensures var db := ManagedDb(s.db, op);
            && UpsertSource(db.sources, cfg) == LiveSource(UpsertSource(s.db.sources, cfg), db.ipam.ips.Keys)
            && EnsureSource(db.sources, cfg) == LiveSource(EnsureSource(s.db.sources, cfg), db.ipam.ips.Keys)
  {
    if cfg.key !in s.db.sources {
      assert LiveSource(NewSource(cfg), After(s.db.ipam, op).ips.Keys) == NewSource(cfg);
    }
  }

  lemma ManageKeepsRecording(s: State, op: Op, q: ReplicaId)
    requires SourceSites(s.db) && (op.DeleteSite? ==> !SiteBusy(s, op.site))
    requires q in s.replicas && s.replicas[q].Recording? && RecordingOk(s, s.replicas[q])
    ensures ReplicaOk(DoManage(s, op), DoManage(s, op).replicas[q])
  {
    var p := s.replicas[q];
    if p.staged.Some? {
      HeldSiteStays(s, op, q, p.staged.value.site);
      if p.cfg.key in s.db.sources {
        HeldSiteStays(s, op, q, s.db.sources[p.cfg.key].site);
      }
      CascadeUpsert(s, op, p.cfg);
    }
  }

  lemma LiveAnswers(services: seq<Snapshot>, resolved: seq<Resolved>, live: set<IpId>)
    requires AllAnswer(services, resolved)
    ensures AllAnswer(services, LiveAll(resolved, live))
  {
    forall i | 0 <= i < |resolved|
      ensures Answers(services[i], LiveAll(resolved, live)[i])
    {
      assert Answers(services[i], resolved[i]);
    }
  }

  /** Foreign-key actions commute with every statement a transaction has made so far. */
  lemma LiveTx(s: State, s': State, tx: Tx, live: set<IpId>)
    requires TxOk(s, tx) && !tx.pc.Locked?
    requires UpsertSource(s'.db.sources, tx.cfg) == LiveSource(UpsertSource(s.db.sources, tx.cfg), live)
    requires tx.cfg.site in s'.db.ipam.sites
    ensures TxOk(s', LiveReplica(Reconciling(tx), live).tx)
  {
    match tx.pc
    case Between => LiveBetweenTx(s, s', tx, live);
    case InService(part) => LiveServiceTx(s, s', tx, live);
    case Finished => LiveFinishedTx(s, s', tx, live);
    case _ =>
  }

  /** The committed rows of the source follow the deletions, and its site is still there. */
  ghost predicate Follows(s: State, s': State, tx: Tx, live: set<IpId>) {
    UpsertSource(s'.db.sources, tx.cfg) == LiveSource(UpsertSource(s.db.sources, tx.cfg), live)
      && tx.cfg.site in s'.db.ipam.sites
  }

  lemma LiveBetweenTx(s: State, s': State, tx: Tx, live: set<IpId>)
    requires TxOk(s, tx) && tx.pc.Between? && Follows(s, s', tx, live)
    ensures TxOk(s', LiveReplica(Reconciling(tx), live).tx)
  {
    LiveAnswers(tx.services, tx.resolved, live);
    LiveBetween(UpsertSource(s.db.sources, tx.cfg), tx, live);
  }

  lemma LiveServiceTx(s: State, s': State, tx: Tx, live: set<IpId>)
    requires TxOk(s, tx) && tx.pc.InService? && Follows(s, s', tx, live)
    ensures TxOk(s', LiveReplica(Reconciling(tx), live).tx)
  {
    LiveAnswers(tx.services, tx.resolved, live);
    LivePart(UpsertSource(s.db.sources, tx.cfg), tx, tx.pc.part, live);
  }

  lemma LiveFinishedTx(s: State, s': State, tx: Tx, live: set<IpId>)
    requires TxOk(s, tx) && tx.pc.Finished? && Follows(s, s', tx, live)
    ensures TxOk(s', LiveReplica(Reconciling(tx), live).tx)
  {
    LiveAnswers(tx.services, tx.resolved, live);
    LiveReconciled(UpsertSource(s.db.sources, tx.cfg), tx.resolved, tx.observedAt, tx.cfg.retention, live);
  }

  lemma LiveBetween(base: Source, tx: Tx, live: set<IpId>)
    requires tx.row == PutAll(base, tx.resolved, tx.observedAt) && tx.counts == Tally(tx.resolved)
    ensures LiveSource(tx.row, live) == PutAll(LiveSource(base, live), LiveAll(tx.resolved, live), tx.observedAt)
    ensures tx.counts == Tally(LiveAll(tx.resolved, live))
  {
    LivePutAll(base, tx.resolved, tx.observedAt, live);
    LiveTally(tx.resolved, live);
  }

  lemma ManageKeepsTx(s: State, op: Op, q: ReplicaId)
    requires SourceSites(s.db) && (op.DeleteSite? ==> !SiteBusy(s, op.site))
    requires q in s.replicas && s.replicas[q].Reconciling? && TxOk(s, s.replicas[q].tx)
    ensures ReplicaOk(DoManage(s, op), DoManage(s, op).replicas[q])
  {
    var tx := s.replicas[q].tx;
    if !tx.pc.Locked? {
      RowSite(s, tx);
      HeldSiteStays(s, op, q, tx.cfg.site);
      if tx.cfg.key in s.db.sources {
        HeldSiteStays(s, op, q, s.db.sources[tx.cfg.key].site);
      }
      CascadeUpsert(s, op, tx.cfg);
      LiveTx(s, DoManage(s, op), tx, After(s.db.ipam, op).ips.Keys);
    }
  }

  lemma RowSite(s: State, tx: Tx)
    requires TxOk(s, tx) && !tx.pc.Locked?
    ensures tx.row.site == tx.cfg.site
  {
    PutAllSite(UpsertSource(s.db.sources, tx.cfg), tx.resolved, tx.observedAt);
  }

  lemma LivePart(base: Source, tx: Tx, part: Resolved, live: set<IpId>)
    requires tx.pc == InService(part) && PartOk(tx, PutAll(base, tx.resolved, tx.observedAt), part)
    ensures var tx' := LiveReplica(Reconciling(tx), live).tx;
            PartOk(tx', PutAll(LiveSource(base, live), tx'.resolved, tx'.observedAt), tx'.pc.part)
  {
    LivePutAll(base, tx.resolved, tx.observedAt, live);
    LivePut(PutAll(base, tx.resolved, tx.observedAt), part, tx.observedAt, live);
    LivePartTally(tx, part, live);
    LiveAddressesAnswer(tx.services[|tx.resolved|].addresses, part.content.addresses, live);
  }

  lemma LiveAddressesAnswer(reported: seq<Address>, rows: seq<AddressRow>, live: set<IpId>)
    requires AddressesAnswer(reported, rows)
    ensures AddressesAnswer(reported, LiveRows(rows, live))
  {
  }

  lemma LivePartTally(tx: Tx, part: Resolved, live: set<IpId>)
    requires |tx.resolved| < |tx.services|
    ensures PartTally(tx.(resolved := LiveAll(tx.resolved, live)), LiveResolved(part, live)) == PartTally(tx, part)
  {
    LiveTally(tx.resolved, live);
    LiveTallyRows(Begun(Tally(tx.resolved), |tx.services[|tx.resolved|].addresses|), part.content.addresses, live);
  }

  lemma StepKeeps(hash: string -> int, s: State, step: Step)
    requires Inv(hash, s)
    ensures Inv(hash, Do(hash, s, step))
  {
    match step
    case Manage(op) =>
      if !(op.DeleteSite? && SiteBusy(s, op.site)) {
        ManageKeeps(hash, s, op);
      }
    case List(r, cfg, outcome, startedAt, observedAt) =>
      if At(s, r).Idle? && ValidConfig(cfg) {
        BecomeKeeps(hash, s, r, Do(hash, s, step).replicas[r]);
      }
    case TryLock(r) => TryLockKeeps(hash, s, r);
    case WriteSource(r) => WriteSourceKeeps(hash, s, r);
    case WriteService(r) => WriteServiceKeeps(hash, s, r);
    case WriteAddress(r) => WriteAddressKeeps(hash, s, r);
    case WriteHostnames(r) => WriteHostnamesKeeps(hash, s, r);
    case Close(r) => CloseKeeps(hash, s, r);
    case Commit(r) => CommitKeeps(hash, s, r);
    case Fail(r, message) => FailKeeps(hash, s, r, message);
    case Crash(r) => BecomeKeeps(hash, s, r, Idle);
  }

  lemma {:induction false} RunKeeps(hash: string -> int, steps: seq<Step>)
    ensures Inv(hash, Run(hash, steps))
    decreases |steps|
  {
    if steps != [] {
      RunKeeps(hash, steps[..|steps| - 1]);
      StepKeeps(hash, Run(hash, steps[..|steps| - 1]), steps[|steps| - 1]);
    }
  }

  // ----- the main results

  /** In every reachable state at most one open transaction holds a source key. */
  lemma AtMostOneHolder(hash: string -> int, steps: seq<Step>, r: ReplicaId, r': ReplicaId)
    requires var s := Run(hash, steps); InTx(At(s, r)) && InTx(At(s, r'))
    requires KeyOf(At(Run(hash, steps), r)) == KeyOf(At(Run(hash, steps), r'))
    ensures r == r'
  {
    RunKeeps(hash, steps);
  }

  /**
   * Serializability: the committed database of every reachable state is the replay, in commit
   * order, of whole reconciles, failure records and address-management calls.
   */
  lemma CommittedIsSerial(hash: string -> int, steps: seq<Step>)
    ensures Run(hash, steps).db == Replay(EMPTY_DB, Run(hash, steps).history)
  {
    RunKeeps(hash, steps);
  }

  /** Only a commit and an address-management call touch the committed database. */
  lemma OnlyCommitsPublish(hash: string -> int, s: State, step: Step)
    ensures !step.Commit? && !step.Manage? ==> Do(hash, s, step).db == s.db && Do(hash, s, step).history == s.history
  {
  }

  /** A step of another replica leaves this one where it was. */
  lemma OthersStay(hash: string -> int, s: State, step: Step, r: ReplicaId)
    requires !step.Manage? && step.r != r
    ensures At(Do(hash, s, step), r) == At(s, r) && Do(hash, s, step).db.ipam == s.db.ipam
  {
  }

  /** Recording a failure changes no service, no count and no other source. */
  lemma FailureKeepsObservations(hash: string -> int, steps: seq<Step>, r: ReplicaId, k: string)
    requires At(Run(hash, steps), r).Recording?
    requires k in Run(hash, steps).db.sources
    ensures SameObservations(Run(hash, steps), DoCommit(Run(hash, steps), r), KeyOf(At(Run(hash, steps), r)), k)
  {
    RunKeeps(hash, steps);
    FailureCommit(Run(hash, steps), r, k);
  }

  ghost predicate SameObservations(s: State, s': State, written: string, k: string)
    requires k in s.db.sources
  {
    && s'.db.ipam == s.db.ipam
    && k in s'.db.sources
    && s'.db.sources[k].services == s.db.sources[k].services
    && s'.db.sources[k].counts == s.db.sources[k].counts
    && s'.db.sources[k].lastSuccess == s.db.sources[k].lastSuccess
    && (k != written ==> s'.db.sources[k] == s.db.sources[k])
  }

  lemma FailureCommit(s: State, r: ReplicaId, k: string)
    requires ReplicasOk(s) && At(s, r).Recording? && k in s.db.sources
    ensures SameObservations(s, DoCommit(s, r), KeyOf(At(s, r)), k)
  {
    assert ReplicaOk(s, s.replicas[r]);
  }
}
