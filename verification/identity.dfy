/** Row identity over whole runs: a service keeps its row as long as it stays stored. */
module Identity {
  import opened Wrappers
  import opened Discovery
  import opened Protocol
  import opened Lookups
  import Integrity

  predicate StoredIn(db: Db, k: string, u: Uid) {
    k in db.sources && u in db.sources[k].services
  }

  function IdOf(db: Db, k: string, u: Uid): nat
    requires StoredIn(db, k, u)
  {
    db.sources[k].services[u].id
  }

  lemma ReconcileKeepsId(src: Source, rs: seq<Resolved>, t: Time, retention: int, u: Uid)
    requires u in src.services && (src.services[u].active <==> src.services[u].staleAt.None?)
    ensures var after := Reconciled(src, rs, t, retention).services; u in after ==> after[u].id == src.services[u].id
  {
    if u in Uids(rs) {
      ReconciledIsSnapshot(src, rs, t, retention, u);
    } else {
      ReconciledUnreported(src, rs, t, retention, u);
    }
  }

  lemma ApplyKeepsId(db: Db, e: Event, k: string, u: Uid)
    requires Integrity.DbOk(db) && StoredIn(db, k, u)
    ensures StoredIn(Apply(db, e), k, u) ==> IdOf(Apply(db, e), k, u) == IdOf(db, k, u)
  {
    assert Integrity.SourceOk(db.ipam, db.sources[k]);
    if e.Reconcile? && e.cfg.key == k {
      assert Integrity.ServiceOk(db.ipam, db.sources[k].services[u], db.sources[k].nextId);
      ReconcileKeepsId(UpsertSource(db.sources, e.cfg), e.resolved, e.observedAt, e.cfg.retention, u);
    }
  }

  /** A step changes the committed database by one event or not at all. */
  lemma StepIsEvent(hash: string -> int, s: State, step: Step)
    requires Protocol.Inv(hash, s)
    ensures var s' := Do(hash, s, step);
            s'.db == s.db || (|s'.history| == |s.history| + 1 && s'.db == Apply(s.db, s'.history[|s.history|]))
  {
    if step.Commit? && DoCommit(s, step.r) != s {
      CommitIsAtomic(hash, s, step.r);
    } else if !step.Manage? && !step.Commit? {
      OnlyCommitsPublish(hash, s, step);
    }
  }

  lemma StepKeepsId(hash: string -> int, s: State, step: Step, k: string, u: Uid)
    requires Protocol.Inv(hash, s) && Integrity.DbOk(s.db) && StoredIn(s.db, k, u)
    ensures StoredIn(Do(hash, s, step).db, k, u) ==> IdOf(Do(hash, s, step).db, k, u) == IdOf(s.db, k, u)
  {
    StepIsEvent(hash, s, step);
    var s' := Do(hash, s, step);
    if s'.db != s.db {
      ApplyKeepsId(s.db, s'.history[|s.history|], k, u);
    }
  }

  lemma NextKeepsId(x: Execution, n: nat, k: string, u: Uid)
    requires n < |x.steps| && StoredIn(StateAt(x, n).db, k, u) && StoredIn(StateAt(x, n + 1).db, k, u)
    ensures IdOf(StateAt(x, n + 1).db, k, u) == IdOf(StateAt(x, n).db, k, u)
  {
    NextState(x, n);
    Integrity.RunKeepsData(x.hash, x.steps[..n]);
    StepKeepsId(x.hash, StateAt(x, n), x.steps[n], k, u);
  }

  /** The identity of the service at each moment of the run, where it is stored. */
  ghost function Identities(x: Execution, k: string, u: Uid): nat -> Option<nat> {
    (n: nat) => if n <= |x.steps| && StoredIn(StateAt(x, n).db, k, u) then Some(IdOf(StateAt(x, n).db, k, u)) else None
  }

  ghost predicate Unbroken(ids: nat -> Option<nat>, m: nat, n: nat) {
    forall q: nat :: m <= q <= n ==> ids(q).Some?
  }

  lemma NextIdentity(x: Execution, k: string, u: Uid, n: nat)
    ensures var ids := Identities(x, k, u); ids(n).Some? && ids(n + 1).Some? ==> ids(n + 1) == ids(n)
  {
    var ids := Identities(x, k, u);
    if ids(n).Some? && ids(n + 1).Some? {
      NextKeepsId(x, n, k, u);
    }
  }

  lemma {:induction false} Constant(ids: nat -> Option<nat>, m: nat, n: nat)
    requires m <= n && forall q: nat :: m <= q < n ==> ids(q + 1) == ids(q)
    ensures ids(n) == ids(m)
    decreases n
  {
    if m < n {
      Constant(ids, m, n - 1);
      assert ids(n - 1 + 1) == ids(n - 1);
    }
  }

  /** Between two moments of a run a service that is stored all the while keeps its identity. */
  lemma IdentityIsStable(x: Execution, k: string, u: Uid, m: nat, n: nat)
    requires m <= n && Unbroken(Identities(x, k, u), m, n)
    ensures Identities(x, k, u)(n) == Identities(x, k, u)(m)
  {
    var ids := Identities(x, k, u);
    forall q: nat | m <= q < n
      ensures ids(q + 1) == ids(q)
    {
      assert ids(q).Some? && ids(q + 1).Some?;
      NextIdentity(x, k, u, q);
    }
    Constant(ids, m, n);
  }
}
