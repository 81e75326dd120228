/** From every reachable state an idle replica can commit a snapshot: exactly when, and by which steps. */
module CommitProgress {
  import opened Wrappers
  import opened Discovery
  import opened Protocol
  import opened StorableCommits
  import opened Lookups

  /** Steps of this replica alone. */
  predicate StepsOf(r: ReplicaId, more: seq<Step>) {
    forall i :: 0 <= i < |more| ==> !more[i].Manage? && more[i].r == r
  }

  /** The replica's own steps lead from the end of the run to s. */
  ghost predicate Leads(hash: string -> int, steps: seq<Step>, r: ReplicaId, s: State) {
    exists more: seq<Step> :: StepsOf(r, more) && Protocol.Run(hash, steps + more) == s
  }

  lemma LeadsOn(hash: string -> int, steps: seq<Step>, s: State, step: Step)
    requires !step.Manage? && Leads(hash, steps, step.r, s)
    ensures Leads(hash, steps, step.r, Do(hash, s, step))
  {
    var more :| StepsOf(step.r, more) && Protocol.Run(hash, steps + more) == s;
    AfterOneMore(hash, steps, more, step);
    assert StepsOf(step.r, more + [step]);
  }

  lemma AfterOneMore(hash: string -> int, steps: seq<Step>, more: seq<Step>, step: Step)
    ensures Protocol.Run(hash, steps + (more + [step])) == Do(hash, Protocol.Run(hash, steps + more), step)
  {
    var longer := steps + (more + [step]);
    assert longer[..|longer| - 1] == steps + more;
  }

  lemma LeadsInv(hash: string -> int, steps: seq<Step>, r: ReplicaId, s: State)
    requires Leads(hash, steps, r, s)
    ensures Protocol.Inv(hash, s)
  {
    var more :| StepsOf(r, more) && Protocol.Run(hash, steps + more) == s;
    RunKeeps(hash, steps + more);
  }

  /** A replica's wish to commit this snapshot after this run. */
  datatype Job = Job(hash: string -> int, steps: seq<Step>, r: ReplicaId, cfg: SourceConfig, services: seq<Snapshot>,
                     observedAt: Time)

  ghost function Start(j: Job): State {
    Protocol.Run(j.hash, j.steps)
  }

  /** A transaction of this round. */
  predicate OfRound(j: Job, tx: Tx) {
    tx.cfg == j.cfg && tx.services == j.services && tx.observedAt == j.observedAt
  }

  /** The replica's own steps lead to this transaction, with everything else as it was. */
  ghost predicate LeadsTo(j: Job, tx: Tx) {
    Leads(j.hash, j.steps, j.r, Become(Start(j), j.r, Reconciling(tx)))
  }

  lemma Moves(j: Job, tx: Tx, step: Step, tx': Tx)
    requires LeadsTo(j, tx) && !step.Manage? && step.r == j.r
    requires var s := Become(Start(j), j.r, Reconciling(tx)); Do(j.hash, s, step) == Become(s, j.r, Reconciling(tx'))
    ensures LeadsTo(j, tx')
  {
    var s0 := Start(j);
    LeadsOn(j.hash, j.steps, Become(s0, j.r, Reconciling(tx)), step);
    assert Become(Become(s0, j.r, Reconciling(tx)), j.r, Reconciling(tx')) == Become(s0, j.r, Reconciling(tx'));
  }

  lemma ReachedTxOk(j: Job, tx: Tx)
    requires LeadsTo(j, tx)
    ensures TxOk(Become(Start(j), j.r, Reconciling(tx)), tx)
  {
    var s := Become(Start(j), j.r, Reconciling(tx));
    LeadsInv(j.hash, j.steps, j.r, s);
    assert ReplicaOk(s, s.replicas[j.r]);
  }

  // ----- the transaction is opened

  /** The replica is idle, the lock on the key is free and the site exists. */
  ghost predicate MayStart(j: Job) {
    var s := Start(j);
    At(s, j.r).Idle? && j.cfg.key != "" && j.cfg.retention > 0 && !LockHeld(j.hash, s, j.cfg.key)
      && j.cfg.site in s.db.ipam.sites
  }

  /** The transaction has finished the first i services. */
  ghost predicate Done(j: Job, i: nat) {
    exists tx: Tx :: OfRound(j, tx) && tx.pc.Between? && |tx.resolved| == i && LeadsTo(j, tx)
  }

  lemma Opens(j: Job)
    requires MayStart(j)
    ensures Done(j, 0)
  {
    var s0 := Start(j);
    assert j.steps + [] == j.steps && StepsOf(j.r, []);
    assert Leads(j.hash, j.steps, j.r, s0);
    LeadsOn(j.hash, j.steps, s0, List(j.r, j.cfg, Ok(j.services), j.observedAt, j.observedAt));
    var listed := Become(s0, j.r, Listed(j.cfg, j.services, j.observedAt, j.observedAt));
    LeadsOn(j.hash, j.steps, listed, TryLock(j.r));
    LockStaysFree(j.hash, s0, j.r, listed.replicas[j.r], j.cfg.key);
    var tx := Tx(j.cfg, j.services, j.observedAt, j.observedAt, Locked, NewSource(j.cfg), NO_COUNTS, []);
    assert Become(listed, j.r, Reconciling(tx)) == Become(s0, j.r, Reconciling(tx));
    var written := tx.(pc := Between, row := UpsertSource(s0.db.sources, j.cfg));
    Moves(j, tx, WriteSource(j.r), written);
  }

  lemma LockStaysFree(hash: string -> int, s: State, r: ReplicaId, p: Replica, key: string)
    requires !LockHeld(hash, s, key) && !InTx(p)
    ensures !LockHeld(hash, Become(s, r, p), key)
  {
    var s' := Become(s, r, p);
    forall q | q in s'.replicas && InTx(s'.replicas[q])
      ensures hash(KeyOf(s'.replicas[q])) != hash(key)
    {
      assert q in s.replicas && InTx(s.replicas[q]);
    }
  }

  // ----- each storable service is written

  /** The transaction is in service i, with the first n addresses stored. */
  ghost predicate Writes(j: Job, i: nat, n: nat) {
    exists tx: Tx :: OfRound(j, tx) && InServiceAt(tx, i, n) && LeadsTo(j, tx)
  }

  predicate InServiceAt(tx: Tx, i: nat, n: nat) {
    tx.pc.InService? && |tx.resolved| == i && |tx.pc.part.content.addresses| == n
  }

  lemma BeginsService(j: Job, i: nat)
    requires Done(j, i) && i < |j.services| && Storable(j.services[i])
    ensures Writes(j, i, 0)
  {
    var tx: Tx :| OfRound(j, tx) && tx.pc.Between? && |tx.resolved| == i && LeadsTo(j, tx);
    var s := Become(Start(j), j.r, Reconciling(tx));
    var tx' := DoWriteService(s, j.r).replicas[j.r].tx;
    Moves(j, tx, WriteService(j.r), tx');
    assert InServiceAt(tx', i, 0);
  }

  /** A stored prefix of a storable service leaves room for the next address. */
  lemma NextFits(s: Snapshot, rows: seq<AddressRow>)
    requires Storable(s) && AddressesAnswer(s.addresses, rows) && |rows| < |s.addresses|
    ensures AddressStorable(rows, s.addresses[|rows|])
  {
    var n := |rows|;
    forall k | 0 <= k < n
      ensures !(rows[k].kind == s.addresses[n].kind && rows[k].addr == s.addresses[n].addr)
    {
      assert rows[k].kind == s.addresses[k].kind && rows[k].addr == s.addresses[k].addr;
    }
  }

  lemma WritesNext(j: Job, i: nat, n: nat)
    requires Writes(j, i, n) && i < |j.services| && Storable(j.services[i]) && n < |j.services[i].addresses|
    ensures Writes(j, i, n + 1)
  {
    var tx: Tx :| OfRound(j, tx) && InServiceAt(tx, i, n) && LeadsTo(j, tx);
    ReachedTxOk(j, tx);
    NextFits(j.services[i], tx.pc.part.content.addresses);
    var s := Become(Start(j), j.r, Reconciling(tx));
    assert CanWriteAddress(At(s, j.r));
    var tx' := DoWriteAddress(s, j.r).replicas[j.r].tx;
    Moves(j, tx, WriteAddress(j.r), tx');
    assert InServiceAt(tx', i, n + 1);
  }

  lemma {:induction false} WritesAll(j: Job, i: nat, n: nat)
    requires Done(j, i) && i < |j.services| && Storable(j.services[i]) && n <= |j.services[i].addresses|
    ensures Writes(j, i, n)
  {
    if n == 0 {
      BeginsService(j, i);
    } else {
      WritesAll(j, i, n - 1);
      WritesNext(j, i, n - 1);
    }
  }

  lemma EndsService(j: Job, i: nat)
    requires Done(j, i) && i < |j.services| && Storable(j.services[i])
    ensures Done(j, i + 1)
  {
    var n := |j.services[i].addresses|;
    WritesAll(j, i, n);
    var tx: Tx :| OfRound(j, tx) && InServiceAt(tx, i, n) && LeadsTo(j, tx);
    ReachedTxOk(j, tx);
    var s := Become(Start(j), j.r, Reconciling(tx));
    assert CanWriteHostnames(At(s, j.r));
    var tx' := DoWriteHostnames(s, j.r).replicas[j.r].tx;
    Moves(j, tx, WriteHostnames(j.r), tx');
    assert OfRound(j, tx') && tx'.pc.Between? && |tx'.resolved| == i + 1;
  }

  lemma {:induction false} DoneAll(j: Job, i: nat)
    requires MayStart(j) && AllStorable(j.services) && i <= |j.services|
    ensures Done(j, i)
  {
    if i == 0 {
      Opens(j);
    } else {
      DoneAll(j, i - 1);
      EndsService(j, i - 1);
    }
  }

  lemma StorableIsCommitted(j: Job)
    requires MayStart(j) && AllStorable(j.services)
    ensures CanCommit(j)
  {
    DoneAll(j, |j.services|);
    var tx: Tx :| OfRound(j, tx) && tx.pc.Between? && |tx.resolved| == |j.services| && LeadsTo(j, tx);
    var s := Become(Start(j), j.r, Reconciling(tx));
    var tx' := DoClose(s, j.r).replicas[j.r].tx;
    Moves(j, tx, Close(j.r), tx');
    var finished := Become(Start(j), j.r, Reconciling(tx'));
    LeadsOn(j.hash, j.steps, finished, Commit(j.r));
    var more: seq<Step> :| StepsOf(j.r, more)
      && Protocol.Run(j.hash, j.steps + more) == Do(j.hash, finished, Commit(j.r));
    assert CommitsAfter(j, more, tx'.resolved);
  }

  // ----- and only then

  /** These steps commit exactly this snapshot. */
  ghost predicate CommitsAfter(j: Job, more: seq<Step>, resolved: seq<Resolved>) {
    Protocol.Run(j.hash, j.steps + more).history
      == Start(j).history + [Reconcile(j.cfg, j.services, resolved, j.observedAt)]
  }

  /** The replica alone can commit exactly this snapshot as the next event. */
  ghost predicate CanCommit(j: Job) {
    exists more: seq<Step>, resolved: seq<Resolved> :: StepsOf(j.r, more) && CommitsAfter(j, more, resolved)
  }

  /** The replica's own steps move no other replica and no address table. */
  lemma {:induction false} OthersWait(j: Job, more: seq<Step>, q: ReplicaId)
    requires StepsOf(j.r, more) && q != j.r
    ensures var s := Protocol.Run(j.hash, j.steps + more);
            At(s, q) == At(Start(j), q) && s.db.ipam == Start(j).db.ipam
    decreases |more|
  {
    if more == [] {
      assert j.steps + [] == j.steps;
    } else {
      var before, step := more[..|more| - 1], more[|more| - 1];
      assert more == before + [step];
      OthersWait(j, before, q);
      AfterOneMore(j.hash, j.steps, before, step);
      OthersStay(j.hash, Protocol.Run(j.hash, j.steps + before), step, q);
    }
  }

  /** The transaction that commits holds the lock on the key, so nobody held it at the start. */
  lemma CommitterMayStart(j: Job, before: seq<Step>)
    requires StepsOf(j.r, before) && At(Start(j), j.r).Idle?
    requires var p := At(Protocol.Run(j.hash, j.steps + before), j.r);
             p.Reconciling? && p.tx.pc.Finished? && p.tx.cfg == j.cfg
    ensures MayStart(j)
  {
    var s := Protocol.Run(j.hash, j.steps + before);
    RunKeeps(j.hash, j.steps + before);
    assert ReplicaOk(s, s.replicas[j.r]);
    OthersWait(j, before, j.r + 1);
    if LockHeld(j.hash, Start(j), j.cfg.key) {
      var q :| q in Start(j).replicas && InTx(Start(j).replicas[q])
        && j.hash(KeyOf(Start(j).replicas[q])) == j.hash(j.cfg.key);
      OthersWait(j, before, q);
      assert false;
    }
  }

  lemma {:induction false} CommittedMayStart(j: Job, more: seq<Step>, resolved: seq<Resolved>)
    requires StepsOf(j.r, more) && CommitsAfter(j, more, resolved) && At(Start(j), j.r).Idle?
    ensures MayStart(j)
    decreases |more|
  {
    assert j.steps + [] == j.steps;
    if more != [] {
      var before, step := more[..|more| - 1], more[|more| - 1];
      assert more == before + [step];
      AfterOneMore(j.hash, j.steps, before, step);
      var s := Protocol.Run(j.hash, j.steps + before);
      if Do(j.hash, s, step).history == s.history {
        CommittedMayStart(j, before, resolved);
      } else {
        HistoryStep(j.hash, s, step);
        LastEvent(Start(j).history, Reconcile(j.cfg, j.services, resolved, j.observedAt), s.history,
                  Do(j.hash, s, step).history);
        CommitterMayStart(j, before);
      }
    }
  }

  lemma LastEvent(start: seq<Event>, e: Event, history: seq<Event>, longer: seq<Event>)
    requires longer == start + [e] && |history| <= |longer| <= |history| + 1 && longer[..|history|] == history
             && longer != history
    ensures |longer| > |history| && longer[|history|] == e
  {
  }

  /**
   * From every reachable state an idle replica can, by its own steps alone, commit exactly this
   * snapshot as the next event if and only if the configuration is valid, nobody holds the lock
   * on the source's key, the site exists, and the tables accept every service of the snapshot.
   */
  lemma CommitsIffStorable(j: Job)
    requires At(Start(j), j.r).Idle?
    ensures CanCommit(j) <==> MayStart(j) && AllStorable(j.services)
  {
    if MayStart(j) && AllStorable(j.services) {
      StorableIsCommitted(j);
    }
    if CanCommit(j) {
      var more: seq<Step>, resolved: seq<Resolved> :| StepsOf(j.r, more) && CommitsAfter(j, more, resolved);
      CommittedMayStart(j, more, resolved);
      OnlyStorableCommits(j.hash, j.steps + more);
      var history := Protocol.Run(j.hash, j.steps + more).history;
      assert history[|history| - 1] == Reconcile(j.cfg, j.services, resolved, j.observedAt);
    }
  }
}
