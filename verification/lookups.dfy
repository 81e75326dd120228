/**
 * The address lookups of interleaved reconciles. Address-management calls may come between
 * any two lookups of a transaction; every committed row is tied to the tables of the step
 * that looked its address up.
 */
module Lookups {
  import opened Wrappers
  import opened Ipam
  import opened Discovery
  import opened Protocol
  import opened Accounting
  import Lifecycle

  // ----- a run, step by step

  datatype Execution = Execution(hash: string -> int, steps: seq<Step>)

  ghost function StateAt(x: Execution, n: nat): State
    requires n <= |x.steps|
  {
    Protocol.Run(x.hash, x.steps[..n])
  }

  lemma NextState(x: Execution, n: nat)
    requires n < |x.steps|
    ensures StateAt(x, n + 1) == Do(x.hash, StateAt(x, n), x.steps[n])
    ensures Protocol.Inv(x.hash, StateAt(x, n))
  {
    assert x.steps[..n + 1][..n] == x.steps[..n];
    RunKeeps(x.hash, x.steps[..n]);
  }

  ghost function TablesAt(x: Execution, n: nat): Tables
    requires n <= |x.steps|
  {
    StateAt(x, n).db.ipam
  }

  ghost function LiveAt(x: Execution, n: nat): set<IpId>
    requires n <= |x.steps|
  {
    TablesAt(x, n).ips.Keys
  }

  lemma TablesStep(hash: string -> int, s: State, step: Step)
    ensures var t := Do(hash, s, step).db.ipam;
            t == s.db.ipam || (step.Manage? && t == After(s.db.ipam, step.op))
  {
  }

  lemma CounterGrows(t: Tables, op: Op)
    ensures t.nextIp <= After(t, op).nextIp
  {
  }

  /** The counter of IP keys at each moment of the run. */
  ghost function Counters(x: Execution): nat -> nat {
    (n: nat) => if n <= |x.steps| then TablesAt(x, n).nextIp else 0
  }

  lemma NextCounter(x: Execution, n: nat)
    requires n < |x.steps|
    ensures Counters(x)(n) <= Counters(x)(n + 1)
  {
    NextState(x, n);
    TablesStep(x.hash, StateAt(x, n), x.steps[n]);
    if x.steps[n].Manage? {
      CounterGrows(TablesAt(x, n), x.steps[n].op);
    }
  }

  lemma {:induction false} Monotone(f: nat -> nat, m: nat, n: nat)
    requires m <= n && forall q: nat :: m <= q < n ==> f(q) <= f(q + 1)
    ensures f(m) <= f(n)
    decreases n
  {
    if m < n {
      Monotone(f, m, n - 1);
      assert f(n - 1) <= f(n - 1 + 1);
    }
  }

  lemma NextIpGrows(x: Execution, m: nat, n: nat)
    requires m <= n <= |x.steps|
    ensures TablesAt(x, m).nextIp <= TablesAt(x, n).nextIp
  {
    var f := Counters(x);
    forall q: nat | m <= q < n
      ensures f(q) <= f(q + 1)
    {
      NextCounter(x, q);
    }
    Monotone(f, m, n);
    assert f(m) == TablesAt(x, m).nextIp && f(n) == TablesAt(x, n).nextIp;
  }

  /** A deleted IP row never comes back: keys are not reused. */
  lemma StaysGone(x: Execution, m: nat, n: nat, i: IpId)
    requires m <= n < |x.steps| && i in LiveAt(x, m) && i !in LiveAt(x, n)
    ensures i !in LiveAt(x, n + 1)
  {
    NextIpGrows(x, m, n);
    NextState(x, m);
    NextState(x, n);
    TablesStep(x.hash, StateAt(x, n), x.steps[n]);
    if i in LiveAt(x, n + 1) && x.steps[n].Manage? {
      RowsAreStable(TablesAt(x, n), x.steps[n].op, i);
    }
  }

  // ----- where a stored row comes from

  /** Step m is the replica's lookup of address j of service i. */
  ghost predicate LooksUp(x: Execution, r: ReplicaId, i: nat, j: nat, m: nat) {
    && m < |x.steps| && x.steps[m] == WriteAddress(r) && CanWriteAddress(At(StateAt(x, m), r))
    && var tx := At(StateAt(x, m), r).tx; |tx.resolved| == i && |tx.pc.part.content.addresses| == j
  }

  /** The row is what the lookup of step m found, with its link nulled if that IP row is gone at step n. */
  ghost predicate FoundAt(x: Execution, r: ReplicaId, b: nat, n: nat, site: SiteId, i: nat, j: nat, a: Address,
                          row: AddressRow, m: nat) {
    && b < m < n <= |x.steps| && LooksUp(x, r, i, j, m)
    && row == LiveRow(AddressRowFor(TablesAt(x, m), site, a), LiveAt(x, n))
  }

  ghost predicate Found(x: Execution, r: ReplicaId, b: nat, n: nat, site: SiteId, i: nat, j: nat, a: Address,
                        row: AddressRow) {
    exists m :: FoundAt(x, r, b, n, site, i, j, a, row, m)
  }

  ghost predicate RowsFound(x: Execution, r: ReplicaId, b: nat, n: nat, site: SiteId, i: nat, reported: seq<Address>,
                            rows: seq<AddressRow>) {
    |rows| <= |reported| && forall j :: 0 <= j < |rows| ==> Found(x, r, b, n, site, i, j, reported[j], rows[j])
  }

  /** At step q the replica is inside a reconcile of these services. */
  ghost predicate Inside(x: Execution, r: ReplicaId, q: nat, cfg: SourceConfig, services: seq<Snapshot>) {
    q <= |x.steps| && At(StateAt(x, q), r).Reconciling?
    && At(StateAt(x, q), r).tx.cfg == cfg && At(StateAt(x, q), r).tx.services == services
  }

  /** The replica took the lock at step b and has been inside that transaction until n. */
  ghost predicate Open(x: Execution, r: ReplicaId, b: nat, n: nat, cfg: SourceConfig, services: seq<Snapshot>) {
    b < n <= |x.steps| && x.steps[b] == TryLock(r) && forall q :: b < q <= n ==> Inside(x, r, q, cfg, services)
  }

  /** Every row of every resolved service was found by its own lookup. */
  ghost predicate ResolvedFound(x: Execution, r: ReplicaId, b: nat, n: nat, site: SiteId, services: seq<Snapshot>,
                                resolved: seq<Resolved>) {
    && |resolved| <= |services|
    && forall i :: 0 <= i < |resolved| ==>
         RowsFound(x, r, b, n, site, i, services[i].addresses, resolved[i].content.addresses)
  }

  ghost predicate TxFound(x: Execution, r: ReplicaId, b: nat, n: nat, tx: Tx) {
    && Open(x, r, b, n, tx.cfg, tx.services)
    && ResolvedFound(x, r, b, n, tx.cfg.site, tx.services, tx.resolved)
    && (tx.pc.InService? ==>
          && |tx.resolved| < |tx.services|
          && RowsFound(x, r, b, n, tx.cfg.site, |tx.resolved|, tx.services[|tx.resolved|].addresses,
                       tx.pc.part.content.addresses))
  }

  ghost predicate ReplicaFound(x: Execution, n: nat, r: ReplicaId)
    requires n <= |x.steps|
  {
    At(StateAt(x, n), r).Reconciling? ==> exists b: nat :: TxFound(x, r, b, n, At(StateAt(x, n), r).tx)
  }

  // ----- one step later

  lemma CandidateLink(t: Tables, site: SiteId, a: Address)
    ensures var row := AddressRowFor(t, site, a); row.link.Some? ==> row.link.value in t.ips
  {
    StatusIsCandidateCount(t, site, a);
    var row := AddressRowFor(t, site, a);
    if row.link.Some? {
      assert row.link.value in Candidates(t, site, a.addr);
    }
  }

  lemma FoundLater(x: Execution, r: ReplicaId, b: nat, n: nat, site: SiteId, i: nat, j: nat, a: Address,
                   row: AddressRow)
    requires n < |x.steps| && Found(x, r, b, n, site, i, j, a, row)
    ensures Found(x, r, b, n + 1, site, i, j, a, LiveRow(row, LiveAt(x, n + 1)))
  {
    var m :| FoundAt(x, r, b, n, site, i, j, a, row, m);
    var found := AddressRowFor(TablesAt(x, m), site, a);
    CandidateLink(TablesAt(x, m), site, a);
    if found.link.Some? && found.link.value !in LiveAt(x, n) {
      StaysGone(x, m, n, found.link.value);
    }
    assert FoundAt(x, r, b, n + 1, site, i, j, a, LiveRow(row, LiveAt(x, n + 1)), m);
  }

  lemma RowsFoundLater(x: Execution, r: ReplicaId, b: nat, n: nat, site: SiteId, i: nat, reported: seq<Address>,
                       rows: seq<AddressRow>)
    requires n < |x.steps| && RowsFound(x, r, b, n, site, i, reported, rows)
    ensures RowsFound(x, r, b, n + 1, site, i, reported, LiveRows(rows, LiveAt(x, n + 1)))
  {
    forall j | 0 <= j < |rows|
      ensures Found(x, r, b, n + 1, site, i, j, reported[j], LiveRows(rows, LiveAt(x, n + 1))[j])
    {
      FoundLater(x, r, b, n, site, i, j, reported[j], rows[j]);
    }
  }

  /** Found rows carry no dead link. */
  lemma FoundIsLive(x: Execution, r: ReplicaId, b: nat, n: nat, site: SiteId, i: nat, reported: seq<Address>,
                    rows: seq<AddressRow>)
    requires n <= |x.steps| && RowsFound(x, r, b, n, site, i, reported, rows)
    ensures LiveRows(rows, LiveAt(x, n)) == rows
  {
    forall j | 0 <= j < |rows|
      ensures LiveRow(rows[j], LiveAt(x, n)) == rows[j]
    {
      assert Found(x, r, b, n, site, i, j, reported[j], rows[j]);
      var m :| FoundAt(x, r, b, n, site, i, j, reported[j], rows[j], m);
    }
  }

  /** While no IP row goes away, found rows stay found as they are. */
  lemma RowsFoundStay(x: Execution, r: ReplicaId, b: nat, n: nat, site: SiteId, i: nat, reported: seq<Address>,
                      rows: seq<AddressRow>)
    requires n < |x.steps| && RowsFound(x, r, b, n, site, i, reported, rows) && LiveAt(x, n + 1) == LiveAt(x, n)
    ensures RowsFound(x, r, b, n + 1, site, i, reported, rows)
  {
    FoundIsLive(x, r, b, n, site, i, reported, rows);
    RowsFoundLater(x, r, b, n, site, i, reported, rows);
  }

  lemma OpenLater(x: Execution, r: ReplicaId, b: nat, n: nat, cfg: SourceConfig, services: seq<Snapshot>)
    requires Open(x, r, b, n, cfg, services) && Inside(x, r, n + 1, cfg, services)
    ensures Open(x, r, b, n + 1, cfg, services)
  {
  }

  lemma ResolvedFoundStay(x: Execution, r: ReplicaId, b: nat, n: nat, site: SiteId, services: seq<Snapshot>,
                          resolved: seq<Resolved>)
    requires n < |x.steps| && ResolvedFound(x, r, b, n, site, services, resolved) && LiveAt(x, n + 1) == LiveAt(x, n)
    ensures ResolvedFound(x, r, b, n + 1, site, services, resolved)
  {
    forall i | 0 <= i < |resolved|
      ensures RowsFound(x, r, b, n + 1, site, i, services[i].addresses, resolved[i].content.addresses)
    {
      RowsFoundStay(x, r, b, n, site, i, services[i].addresses, resolved[i].content.addresses);
    }
  }

  lemma ResolvedFoundLive(x: Execution, r: ReplicaId, b: nat, n: nat, site: SiteId, services: seq<Snapshot>,
                          resolved: seq<Resolved>)
    requires n < |x.steps| && ResolvedFound(x, r, b, n, site, services, resolved)
    ensures ResolvedFound(x, r, b, n + 1, site, services, LiveAll(resolved, LiveAt(x, n + 1)))
  {
    forall i | 0 <= i < |resolved|
      ensures RowsFound(x, r, b, n + 1, site, i, services[i].addresses,
                        LiveAll(resolved, LiveAt(x, n + 1))[i].content.addresses)
    {
      RowsFoundLater(x, r, b, n, site, i, services[i].addresses, resolved[i].content.addresses);
    }
  }

  // ----- every step keeps the replicas' rows found

  /** A step that leaves the transaction as it is, other than by moving on to an equal one. */
  lemma SameTxFound(x: Execution, r: ReplicaId, b: nat, n: nat, tx: Tx)
    requires n < |x.steps| && TxFound(x, r, b, n, tx) && LiveAt(x, n + 1) == LiveAt(x, n)
    requires Inside(x, r, n + 1, tx.cfg, tx.services)
    ensures TxFound(x, r, b, n + 1, tx)
  {
    OpenLater(x, r, b, n, tx.cfg, tx.services);
    ResolvedFoundStay(x, r, b, n, tx.cfg.site, tx.services, tx.resolved);
    if tx.pc.InService? {
      RowsFoundStay(x, r, b, n, tx.cfg.site, |tx.resolved|, tx.services[|tx.resolved|].addresses,
                    tx.pc.part.content.addresses);
    }
  }

  lemma ManagedTxFound(x: Execution, r: ReplicaId, b: nat, n: nat, tx: Tx)
    requires n < |x.steps| && TxFound(x, r, b, n, tx)
    requires At(StateAt(x, n + 1), r) == LiveReplica(Reconciling(tx), LiveAt(x, n + 1))
    requires tx.pc.Locked? ==> tx.resolved == []
    ensures TxFound(x, r, b, n + 1, At(StateAt(x, n + 1), r).tx)
  {
    var live := LiveAt(x, n + 1);
    OpenLater(x, r, b, n, tx.cfg, tx.services);
    ResolvedFoundLive(x, r, b, n, tx.cfg.site, tx.services, tx.resolved);
    if tx.pc.InService? {
      RowsFoundLater(x, r, b, n, tx.cfg.site, |tx.resolved|, tx.services[|tx.resolved|].addresses,
                     tx.pc.part.content.addresses);
    }
  }

  lemma ManageKeepsFound(x: Execution, n: nat, r: ReplicaId)
    requires n < |x.steps| && x.steps[n].Manage? && ReplicaFound(x, n, r)
    ensures ReplicaFound(x, n + 1, r)
  {
    NextState(x, n);
    var s, s', op := StateAt(x, n), StateAt(x, n + 1), x.steps[n].op;
    if At(s', r).Reconciling? {
      assert ReplicaOk(s, s.replicas[r]);
      var tx := At(s, r).tx;
      var b: nat :| TxFound(x, r, b, n, tx);
      if op.DeleteSite? && SiteBusy(s, op.site) {
        SameTxFound(x, r, b, n, tx);
      } else {
        ManagedTxFound(x, r, b, n, tx);
      }
    }
  }

  /** A step of another replica. */
  lemma OthersKeepFound(x: Execution, n: nat, r: ReplicaId)
    requires n < |x.steps| && !x.steps[n].Manage? && x.steps[n].r != r && ReplicaFound(x, n, r)
    ensures ReplicaFound(x, n + 1, r)
  {
    NextState(x, n);
    OthersStay(x.hash, StateAt(x, n), x.steps[n], r);
    if At(StateAt(x, n), r).Reconciling? {
      var tx := At(StateAt(x, n), r).tx;
      var b: nat :| TxFound(x, r, b, n, tx);
      SameTxFound(x, r, b, n, tx);
    }
  }

  lemma BeginFound(x: Execution, n: nat, r: ReplicaId)
    requires n < |x.steps| && x.steps[n] == TryLock(r) && !At(StateAt(x, n), r).Reconciling?
    ensures ReplicaFound(x, n + 1, r)
  {
    NextState(x, n);
    var p := At(StateAt(x, n + 1), r);
    if p.Reconciling? {
      assert Open(x, r, n, n + 1, p.tx.cfg, p.tx.services);
      assert TxFound(x, r, n, n + 1, p.tx);
    }
  }

  lemma RowsFoundSnoc(x: Execution, r: ReplicaId, b: nat, n: nat, site: SiteId, i: nat, reported: seq<Address>,
                                         rows: seq<AddressRow>, row: AddressRow)
    requires RowsFound(x, r, b, n, site, i, reported, rows) && |rows| < |reported|
    requires Found(x, r, b, n, site, i, |rows|, reported[|rows|], row)
    ensures RowsFound(x, r, b, n, site, i, reported, rows + [row])
  {
  }

  lemma ResolvedFoundSnoc(x: Execution, r: ReplicaId, b: nat, n: nat, site: SiteId, services: seq<Snapshot>,
                                             resolved: seq<Resolved>, last: Resolved)
    requires ResolvedFound(x, r, b, n, site, services, resolved) && |resolved| < |services|
    requires RowsFound(x, r, b, n, site, |resolved|, services[|resolved|].addresses, last.content.addresses)
    ensures ResolvedFound(x, r, b, n, site, services, resolved + [last])
  {
    var longer := resolved + [last];
    forall i | 0 <= i < |longer|
      ensures RowsFound(x, r, b, n, site, i, services[i].addresses, longer[i].content.addresses)
    {
      if i < |resolved| { assert longer[i] == resolved[i]; }
    }
  }

  /** The transaction afterwards has one more row in the service being written. */
  predicate OneMoreRow(tx: Tx, tx': Tx, row: AddressRow) {
    && tx.pc.InService? && tx'.pc.InService? && tx'.cfg == tx.cfg && tx'.services == tx.services
       && tx'.resolved == tx.resolved
    && tx'.pc.part.content.addresses == tx.pc.part.content.addresses + [row]
  }

  lemma AddedTxFound(x: Execution, r: ReplicaId, b: nat, n: nat, tx: Tx, tx': Tx, row: AddressRow)
    requires n < |x.steps| && TxFound(x, r, b, n, tx) && LiveAt(x, n + 1) == LiveAt(x, n)
    requires Inside(x, r, n + 1, tx.cfg, tx.services) && OneMoreRow(tx, tx', row)
    requires var j, reported := |tx.pc.part.content.addresses|, tx.services[|tx.resolved|].addresses;
             j < |reported| && Found(x, r, b, n + 1, tx.cfg.site, |tx.resolved|, j, reported[j], row)
    ensures TxFound(x, r, b, n + 1, tx')
  {
    OpenLater(x, r, b, n, tx.cfg, tx.services);
    ResolvedFoundStay(x, r, b, n, tx.cfg.site, tx.services, tx.resolved);
    RowsAdded(x, r, b, n, tx.cfg.site, |tx.resolved|, tx.services[|tx.resolved|].addresses,
              tx.pc.part.content.addresses, row);
  }

  lemma RowsAdded(x: Execution, r: ReplicaId, b: nat, n: nat, site: SiteId, i: nat, reported: seq<Address>,
                                     rows: seq<AddressRow>, row: AddressRow)
    requires n < |x.steps| && RowsFound(x, r, b, n, site, i, reported, rows) && LiveAt(x, n + 1) == LiveAt(x, n)
    requires |rows| < |reported| && Found(x, r, b, n + 1, site, i, |rows|, reported[|rows|], row)
    ensures RowsFound(x, r, b, n + 1, site, i, reported, rows + [row])
  {
    RowsFoundStay(x, r, b, n, site, i, reported, rows);
    RowsFoundSnoc(x, r, b, n + 1, site, i, reported, rows, row);
  }

  lemma AddressStep(s: State, r: ReplicaId)
    requires CanWriteAddress(At(s, r))
    ensures var tx := At(s, r).tx; var reported := tx.services[|tx.resolved|].addresses[|tx.pc.part.content.addresses|];
            && DoWriteAddress(s, r).db == s.db && At(DoWriteAddress(s, r), r).Reconciling?
            && OneMoreRow(tx, At(DoWriteAddress(s, r), r).tx, AddressRowFor(s.db.ipam, tx.cfg.site, reported))
  {
  }

  /** What a lookup finds is found one step later, before anything can be deleted. */
  lemma JustFound(x: Execution, r: ReplicaId, b: nat, n: nat, site: SiteId, i: nat, j: nat, a: Address)
    requires b < n < |x.steps| && LooksUp(x, r, i, j, n) && LiveAt(x, n + 1) == LiveAt(x, n)
    ensures Found(x, r, b, n + 1, site, i, j, a, AddressRowFor(TablesAt(x, n), site, a))
  {
    CandidateLink(TablesAt(x, n), site, a);
    assert FoundAt(x, r, b, n + 1, site, i, j, a, AddressRowFor(TablesAt(x, n), site, a), n);
  }

  /** The step stores the row that its own lookup finds. */
  lemma WriteAddressFound(x: Execution, b: nat, n: nat, r: ReplicaId)
    requires n < |x.steps| && x.steps[n] == WriteAddress(r) && CanWriteAddress(At(StateAt(x, n), r))
    requires TxFound(x, r, b, n, At(StateAt(x, n), r).tx)
    ensures At(StateAt(x, n + 1), r).Reconciling? && TxFound(x, r, b, n + 1, At(StateAt(x, n + 1), r).tx)
  {
    NextState(x, n);
    AddressStep(StateAt(x, n), r);
    var tx := At(StateAt(x, n), r).tx;
    var i, j := |tx.resolved|, |tx.pc.part.content.addresses|;
    JustFound(x, r, b, n, tx.cfg.site, i, j, tx.services[i].addresses[j]);
    AddedTxFound(x, r, b, n, tx, At(StateAt(x, n + 1), r).tx,
                 AddressRowFor(TablesAt(x, n), tx.cfg.site, tx.services[i].addresses[j]));
  }

  /** A finished service joins the resolved ones with its rows as they are. */
  lemma FinishedTxFound(x: Execution, r: ReplicaId, b: nat, n: nat, tx: Tx, tx': Tx, last: Resolved)
    requires n < |x.steps| && TxFound(x, r, b, n, tx) && LiveAt(x, n + 1) == LiveAt(x, n)
    requires tx.pc.InService? && tx'.pc.Between? && tx'.cfg == tx.cfg && tx'.services == tx.services
    requires tx'.resolved == tx.resolved + [last] && last.content.addresses == tx.pc.part.content.addresses
    requires Inside(x, r, n + 1, tx.cfg, tx.services)
    ensures TxFound(x, r, b, n + 1, tx')
  {
    var k := |tx.resolved|;
    OpenLater(x, r, b, n, tx.cfg, tx.services);
    ResolvedFoundStay(x, r, b, n, tx.cfg.site, tx.services, tx.resolved);
    RowsFoundStay(x, r, b, n, tx.cfg.site, k, tx.services[k].addresses, tx.pc.part.content.addresses);
    ResolvedFoundSnoc(x, r, b, n + 1, tx.cfg.site, tx.services, tx.resolved, last);
  }

  lemma HostnamesStep(s: State, r: ReplicaId)
    requires CanWriteHostnames(At(s, r))
    ensures var s', tx := DoWriteHostnames(s, r), At(s, r).tx;
            && s'.db == s.db && At(s', r).Reconciling?
            && var tx' := At(s', r).tx;
               && tx'.pc.Between? && tx'.cfg == tx.cfg && tx'.services == tx.services
                  && |tx'.resolved| == |tx.resolved| + 1
               && tx'.resolved == tx.resolved + [tx'.resolved[|tx.resolved|]]
               && tx'.resolved[|tx.resolved|].content.addresses == tx.pc.part.content.addresses
  {
  }

  lemma WriteHostnamesFound(x: Execution, b: nat, n: nat, r: ReplicaId)
    requires n < |x.steps| && x.steps[n] == WriteHostnames(r) && CanWriteHostnames(At(StateAt(x, n), r))
    requires TxFound(x, r, b, n, At(StateAt(x, n), r).tx)
    ensures At(StateAt(x, n + 1), r).Reconciling? && TxFound(x, r, b, n + 1, At(StateAt(x, n + 1), r).tx)
  {
    NextState(x, n);
    HostnamesStep(StateAt(x, n), r);
    var tx, tx' := At(StateAt(x, n), r).tx, At(StateAt(x, n + 1), r).tx;
    FinishedTxFound(x, r, b, n, tx, tx', tx'.resolved[|tx.resolved|]);
  }

  /** The same resolved services, and no row of a further one. */
  lemma NoNewRowFound(x: Execution, r: ReplicaId, b: nat, n: nat, tx: Tx, tx': Tx)
    requires n < |x.steps| && TxFound(x, r, b, n, tx) && LiveAt(x, n + 1) == LiveAt(x, n)
    requires NoNewRow(tx, tx') && Inside(x, r, n + 1, tx.cfg, tx.services)
    ensures TxFound(x, r, b, n + 1, tx')
  {
    OpenLater(x, r, b, n, tx.cfg, tx.services);
    ResolvedFoundStay(x, r, b, n, tx.cfg.site, tx.services, tx.resolved);
  }

  predicate NoNewRow(tx: Tx, tx': Tx) {
    && tx'.cfg == tx.cfg && tx'.services == tx.services && tx'.resolved == tx.resolved
    && (tx'.pc.InService? ==> |tx.resolved| < |tx.services| && tx'.pc.part.content.addresses == [])
  }

  /** The remaining statements store no address row. */
  lemma PlainStep(hash: string -> int, s: State, step: Step)
    requires (step.WriteSource? || step.WriteService? || step.Close?) && At(s, step.r).Reconciling?
    ensures var s' := Do(hash, s, step);
            && s'.db == s.db && At(s', step.r).Reconciling?
            && (At(s', step.r) == At(s, step.r) || NoNewRow(At(s, step.r).tx, At(s', step.r).tx))
  {
  }

  lemma PlainStepFound(x: Execution, b: nat, n: nat, r: ReplicaId)
    requires n < |x.steps| && (x.steps[n] == WriteSource(r) || x.steps[n] == WriteService(r) || x.steps[n] == Close(r))
    requires At(StateAt(x, n), r).Reconciling? && TxFound(x, r, b, n, At(StateAt(x, n), r).tx)
    ensures At(StateAt(x, n + 1), r).Reconciling? && TxFound(x, r, b, n + 1, At(StateAt(x, n + 1), r).tx)
  {
    NextState(x, n);
    PlainStep(x.hash, StateAt(x, n), x.steps[n]);
    var tx, tx' := At(StateAt(x, n), r).tx, At(StateAt(x, n + 1), r).tx;
    if tx' == tx {
      SameTxFound(x, r, b, n, tx);
    } else {
      NoNewRowFound(x, r, b, n, tx, tx');
    }
  }

  lemma OwnStepFound(x: Execution, n: nat, r: ReplicaId)
    requires n < |x.steps| && !x.steps[n].Manage? && x.steps[n].r == r && ReplicaFound(x, n, r)
    ensures ReplicaFound(x, n + 1, r)
  {
    NextState(x, n);
    if At(StateAt(x, n + 1), r).Reconciling? {
      if !At(StateAt(x, n), r).Reconciling? {
        BeginFound(x, n, r);
      } else {
        var b: nat :| TxFound(x, r, b, n, At(StateAt(x, n), r).tx);
        ContinueFound(x, b, n, r);
      }
    }
  }

  lemma ContinueFound(x: Execution, b: nat, n: nat, r: ReplicaId)
    requires n < |x.steps| && !x.steps[n].Manage? && x.steps[n].r == r
    requires At(StateAt(x, n), r).Reconciling? && At(StateAt(x, n + 1), r).Reconciling?
    requires TxFound(x, r, b, n, At(StateAt(x, n), r).tx)
    ensures TxFound(x, r, b, n + 1, At(StateAt(x, n + 1), r).tx)
  {
    var step, p := x.steps[n], At(StateAt(x, n), r);
    if step.WriteSource? || step.WriteService? || step.Close? {
      PlainStepFound(x, b, n, r);
    } else if step.WriteAddress? && CanWriteAddress(p) {
      WriteAddressFound(x, b, n, r);
    } else if step.WriteHostnames? && CanWriteHostnames(p) {
      WriteHostnamesFound(x, b, n, r);
    } else {
      NextState(x, n);
      StandsStill(x.hash, StateAt(x, n), step);
      SameTxFound(x, r, b, n, p.tx);
    }
  }

  /** A step that neither writes nor ends a reconcile leaves the transaction alone. */
  lemma StandsStill(hash: string -> int, s: State, step: Step)
    requires !step.Manage? && At(s, step.r).Reconciling? && At(Do(hash, s, step), step.r).Reconciling?
    requires !step.WriteSource? && !step.WriteService? && !step.Close?
    requires step.WriteAddress? ==> !CanWriteAddress(At(s, step.r))
    requires step.WriteHostnames? ==> !CanWriteHostnames(At(s, step.r))
    ensures At(Do(hash, s, step), step.r) == At(s, step.r) && Do(hash, s, step).db.ipam == s.db.ipam
  {
  }

  lemma {:induction false} AllFound(x: Execution, n: nat, r: ReplicaId)
    requires n <= |x.steps|
    ensures ReplicaFound(x, n, r)
    decreases n
  {
    if n > 0 {
      AllFound(x, n - 1, r);
      if x.steps[n - 1].Manage? {
        ManageKeepsFound(x, n - 1, r);
      } else if x.steps[n - 1].r == r {
        OwnStepFound(x, n - 1, r);
      } else {
        OthersKeepFound(x, n - 1, r);
      }
    }
  }

  // ----- committed reconciles

  /** Commit step c made this the h-th event; the transaction began at b and every row was found in between. */
  ghost predicate CommittedAt(x: Execution, e: Event, h: nat, r: ReplicaId, b: nat, c: nat) {
    && e.Reconcile? && c < |x.steps| && x.steps[c] == Commit(r)
    && |StateAt(x, c).history| == h && StateAt(x, c + 1).history == StateAt(x, c).history + [e]
    && Open(x, r, b, c, e.cfg, e.services)
    && AllAnswer(e.services, e.resolved) && |e.resolved| == |e.services|
    && ResolvedFound(x, r, b, c, e.cfg.site, e.services, e.resolved)
  }

  ghost predicate CommittedBy(x: Execution, e: Event, h: nat, c: nat) {
    exists r: ReplicaId, b: nat :: CommittedAt(x, e, h, r, b, c)
  }

  /** History only grows, and by a reconcile only when a replica commits a finished transaction. */
  lemma HistoryStep(hash: string -> int, s: State, step: Step)
    ensures var s' := Do(hash, s, step);
            && |s.history| <= |s'.history| <= |s.history| + 1
            && s'.history[..|s.history|] == s.history
            && (|s'.history| > |s.history| && s'.history[|s.history|].Reconcile? ==>
                  && step.Commit? && At(s, step.r).Reconciling? && At(s, step.r).tx.pc.Finished?
                  && var tx := At(s, step.r).tx;
                     s'.history[|s.history|] == Reconcile(tx.cfg, tx.services, tx.resolved, tx.observedAt))
  {
  }

  lemma CommitFound(x: Execution, n: nat)
    requires n < |x.steps|
    requires var h := |StateAt(x, n).history|;
             |StateAt(x, n + 1).history| > h && StateAt(x, n + 1).history[h].Reconcile?
    ensures CommittedBy(x, StateAt(x, n + 1).history[|StateAt(x, n).history|], |StateAt(x, n).history|, n)
  {
    NextState(x, n);
    HistoryStep(x.hash, StateAt(x, n), x.steps[n]);
    var s, r := StateAt(x, n), x.steps[n].r;
    assert ReplicaOk(s, s.replicas[r]);
    AllFound(x, n, r);
    var b: nat :| TxFound(x, r, b, n, At(s, r).tx);
    assert CommittedAt(x, StateAt(x, n + 1).history[|s.history|], |s.history|, r, b, n);
  }

  lemma EventStays(x: Execution, n: nat, h: nat)
    requires n < |x.steps| && h < |StateAt(x, n).history|
    ensures h < |StateAt(x, n + 1).history| && StateAt(x, n + 1).history[h] == StateAt(x, n).history[h]
  {
    NextState(x, n);
    HistoryStep(x.hash, StateAt(x, n), x.steps[n]);
    assert StateAt(x, n + 1).history[h] == StateAt(x, n + 1).history[..|StateAt(x, n).history|][h];
  }

  lemma NewEvent(x: Execution, n: nat)
    requires n < |x.steps|
    ensures |StateAt(x, n + 1).history| <= |StateAt(x, n).history| + 1
  {
    NextState(x, n);
    HistoryStep(x.hash, StateAt(x, n), x.steps[n]);
  }

  /** The h-th event, if it is a reconcile, was committed before step n by a transaction whose rows were all found. */
  ghost predicate EventFound(x: Execution, n: nat, h: nat)
    requires n <= |x.steps|
  {
    h < |StateAt(x, n).history| && StateAt(x, n).history[h].Reconcile? ==>
      exists c: nat :: c < n && CommittedBy(x, StateAt(x, n).history[h], h, c)
  }

  lemma NextEventFound(x: Execution, n: nat, h: nat)
    requires n < |x.steps| && EventFound(x, n, h)
    ensures EventFound(x, n + 1, h)
  {
    if h < |StateAt(x, n).history| {
      EventStays(x, n, h);
    } else {
      NewEvent(x, n);
      if h < |StateAt(x, n + 1).history| && StateAt(x, n + 1).history[h].Reconcile? {
        CommitFound(x, n);
      }
    }
  }

  lemma {:induction false} EventsFound(x: Execution, n: nat, h: nat)
    requires n <= |x.steps|
    ensures EventFound(x, n, h)
    decreases n
  {
    if n == 0 {
      assert StateAt(x, 0) == START;
    } else {
      EventsFound(x, n - 1, h);
      NextEventFound(x, n - 1, h);
    }
  }

  // ----- the tables that a committed reconcile saw

  /** The tables that the lookup behind a committed row saw. */
  ghost function SeenBy(x: Execution, e: Event, r: ReplicaId, b: nat, c: nat, i: nat, j: nat): Tables
    requires e.Reconcile? && i < |e.services| && j < |e.services[i].addresses| && i < |e.resolved|
             && j < |e.resolved[i].content.addresses|
    requires Found(x, r, b, c, e.cfg.site, i, j, e.services[i].addresses[j], e.resolved[i].content.addresses[j])
  {
    var m :| FoundAt(x, r, b, c, e.cfg.site, i, j, e.services[i].addresses[j], e.resolved[i].content.addresses[j], m);
    TablesAt(x, m)
  }

  ghost function Seen(x: Execution, e: Event, r: ReplicaId, b: nat, c: nat): View
    requires e.Reconcile?
  {
    (i: nat, j: nat) =>
      if i < |e.services| && j < |e.services[i].addresses| && i < |e.resolved| && j < |e.resolved[i].content.addresses|
         && Found(x, r, b, c, e.cfg.site, i, j, e.services[i].addresses[j], e.resolved[i].content.addresses[j])
      then SeenBy(x, e, r, b, c, i, j) else EMPTY
  }

  /** The view shows, for every address, the tables of the step between lock and commit that looked it up. */
  ghost predicate ShowsMoments(x: Execution, services: seq<Snapshot>, r: ReplicaId, b: nat, c: nat, view: View) {
    forall i: nat, j: nat :: i < |services| && j < |services[i].addresses| ==> ShowsMoment(x, r, b, c, i, j, view(i, j))
  }

  ghost predicate ShowsMoment(x: Execution, r: ReplicaId, b: nat, c: nat, i: nat, j: nat, t: Tables) {
    exists m :: b < m < c <= |x.steps| && LooksUp(x, r, i, j, m) && t == TablesAt(x, m)
  }

  /**
   * The event is one call of the repository whose lookups see the tables of their own moments,
   * with the links nulled whose IP rows were gone by the commit.
   */
  ghost predicate Explained(x: Execution, e: Event, h: nat, r: ReplicaId, b: nat, c: nat) {
    && CommittedAt(x, e, h, r, b, c)
    && ShowsMoments(x, e.services, r, b, c, Seen(x, e, r, b, c))
    && e.resolved == LiveAll(ResolveAll(Seen(x, e, r, b, c), e.cfg.site, e.services), LiveAt(x, c))
  }

  lemma SeenAt(x: Execution, e: Event, h: nat, r: ReplicaId, b: nat, c: nat, i: nat, j: nat)
    requires CommittedAt(x, e, h, r, b, c) && i < |e.services| && j < |e.services[i].addresses|
    ensures j < |e.resolved[i].content.addresses|
    ensures var t := Seen(x, e, r, b, c)(i, j);
            && ShowsMoment(x, r, b, c, i, j, t)
            && e.resolved[i].content.addresses[j]
               == LiveRow(AddressRowFor(t, e.cfg.site, e.services[i].addresses[j]), LiveAt(x, c))
  {
    assert Answers(e.services[i], e.resolved[i]);
    var a, row := e.services[i].addresses[j], e.resolved[i].content.addresses[j];
    assert RowsFound(x, r, b, c, e.cfg.site, i, e.services[i].addresses, e.resolved[i].content.addresses);
    assert Found(x, r, b, c, e.cfg.site, i, j, a, row);
    var m :| FoundAt(x, r, b, c, e.cfg.site, i, j, a, row, m) && SeenBy(x, e, r, b, c, i, j) == TablesAt(x, m);
  }

  lemma SeenResolvesOne(x: Execution, e: Event, h: nat, r: ReplicaId, b: nat, c: nat, i: nat)
    requires CommittedAt(x, e, h, r, b, c) && i < |e.services|
    ensures e.resolved[i] == LiveResolved(Resolve(Seen(x, e, r, b, c), i, e.cfg.site, e.services[i]), LiveAt(x, c))
  {
    assert Answers(e.services[i], e.resolved[i]);
    var rows := LiveRows(AddressRowsFor(Seen(x, e, r, b, c), i, e.cfg.site, e.services[i].addresses), LiveAt(x, c));
    forall j: nat | j < |e.services[i].addresses|
      ensures e.resolved[i].content.addresses[j] == rows[j]
    {
      SeenAt(x, e, h, r, b, c, i, j);
    }
    assert e.resolved[i].content.addresses == rows;
  }

  lemma CommitExplained(x: Execution, e: Event, h: nat, r: ReplicaId, b: nat, c: nat)
    requires CommittedAt(x, e, h, r, b, c)
    ensures Explained(x, e, h, r, b, c)
  {
    var view := Seen(x, e, r, b, c);
    forall i: nat, j: nat | i < |e.services| && j < |e.services[i].addresses|
      ensures ShowsMoment(x, r, b, c, i, j, view(i, j))
    {
      SeenAt(x, e, h, r, b, c, i, j);
    }
    var rs := LiveAll(ResolveAll(view, e.cfg.site, e.services), LiveAt(x, c));
    forall i: nat | i < |e.services|
      ensures e.resolved[i] == rs[i]
    {
      SeenResolvesOne(x, e, h, r, b, c, i);
    }
    assert e.resolved == rs;
  }

  // ----- the main results

  ghost predicate ExplainedBy(x: Execution, e: Event, h: nat, c: nat) {
    exists r: ReplicaId, b: nat :: Explained(x, e, h, r, b, c)
  }

  /**
   * Over every interleaving of replicas and address-management calls, every committed
   * reconcile is one call of the repository whose lookup of each address sees the tables of a
   * step of its own, between that transaction's lock and its commit; only links to IP rows
   * deleted meanwhile are nulled.
   */
  lemma CommittedLookups(x: Execution, n: nat, h: nat)
    requires n <= |x.steps|
    ensures h < |StateAt(x, n).history| && StateAt(x, n).history[h].Reconcile? ==>
              exists c: nat :: c < n && ExplainedBy(x, StateAt(x, n).history[h], h, c)
  {
    if h < |StateAt(x, n).history| && StateAt(x, n).history[h].Reconcile? {
      EventsFound(x, n, h);
      var e := StateAt(x, n).history[h];
      var c: nat :| c < n && CommittedBy(x, e, h, c);
      CommittedIsExplained(x, e, h, c);
    }
  }

  lemma CommittedIsExplained(x: Execution, e: Event, h: nat, c: nat)
    requires CommittedBy(x, e, h, c)
    ensures ExplainedBy(x, e, h, c)
  {
    var r: ReplicaId, b: nat :| CommittedAt(x, e, h, r, b, c);
    CommitExplained(x, e, h, r, b, c);
  }

  /** The row says what was true of the tables at step m; only a link to an IP row gone by step c is missing. */
  ghost predicate TrueAtStep(x: Execution, site: SiteId, a: Address, row: AddressRow, m: nat, c: nat) {
    && m < |x.steps| && c <= |x.steps|
    && exists found :: LookupIs(TablesAt(x, m), site, a, found)
         && row == found.(link := if found.link.Some? && found.link.value in TablesAt(x, c).ips
                                  then found.link else None)
  }

  ghost predicate TrueAtItsMoment(x: Execution, e: Event, r: ReplicaId, b: nat, c: nat, i: nat, j: nat)
    requires e.Reconcile?
  {
    && i < |e.services| && j < |e.services[i].addresses| && i < |e.resolved| && j < |e.resolved[i].content.addresses|
    && exists m :: b < m < c && LooksUp(x, r, i, j, m)
         && TrueAtStep(x, e.cfg.site, e.services[i].addresses[j], e.resolved[i].content.addresses[j], m, c)
  }

  /**
   * Every address row of an explained reconcile says what was true at a step between lock and
   * commit: unmatched if no IP row of the source's site had the address, matched with the only
   * one that had it, ambiguous if several had.
   */
  lemma StoredRowsAreTrue(x: Execution, e: Event, h: nat, r: ReplicaId, b: nat, c: nat, i: nat, j: nat)
    requires Explained(x, e, h, r, b, c) && i < |e.services| && j < |e.services[i].addresses|
    ensures TrueAtItsMoment(x, e, r, b, c, i, j)
  {
    SeenAt(x, e, h, r, b, c, i, j);
    var t := Seen(x, e, r, b, c)(i, j);
    var m :| b < m < c && LooksUp(x, r, i, j, m) && t == TablesAt(x, m);
    LookupExactly(t, e.cfg.site, e.services[i].addresses[j]);
    assert TrueAtStep(x, e.cfg.site, e.services[i].addresses[j], e.resolved[i].content.addresses[j], m, c);
  }

  /** Each counter is the number of addresses whose lookup at its own moment came out so. */
  ghost predicate CountsMoments(x: Execution, e: Event, r: ReplicaId, b: nat, c: nat, counts: Counts,
                                outcome: MatchStatus)
    requires e.Reconcile?
  {
    CountOf(counts, outcome) == |Places(Seen(x, e, r, b, c), e.cfg.site, e.services, outcome)|
  }

  lemma CountersAtTheirMoments(x: Execution, e: Event, h: nat, r: ReplicaId, b: nat, c: nat, outcome: MatchStatus)
    requires Explained(x, e, h, r, b, c)
    ensures CountsMoments(x, e, r, b, c, FinalCounts(e.resolved), outcome)
  {
    var rs := ResolveAll(Seen(x, e, r, b, c), e.cfg.site, e.services);
    LiveTally(rs, LiveAt(x, c));
    CounterIsPlaces(Seen(x, e, r, b, c), e.cfg.site, e.services, outcome);
  }

  /** The stored counters of a source stem from the moments of its last committed reconcile. */
  ghost predicate CountersExplained(x: Execution, e: Event, h: nat, c: nat, counts: Counts, outcome: MatchStatus)
    requires e.Reconcile?
  {
    exists r: ReplicaId, b: nat :: Explained(x, e, h, r, b, c) && CountsMoments(x, e, r, b, c, counts, outcome)
  }

  /**
   * In every reachable state the matched, unmatched and ambiguous counters of a source are the
   * numbers of addresses of its last committed snapshot whose lookup, at its own moment between
   * lock and commit, found exactly one, no or several IP rows; without a committed reconcile
   * they are 0.
   */
  lemma StoredCountersAreLookups(x: Execution, n: nat, k: string, outcome: MatchStatus)
    requires n <= |x.steps|
    ensures k in StateAt(x, n).db.sources ==>
              var counts, last := StateAt(x, n).db.sources[k].counts, Lifecycle.LastRound(StateAt(x, n).history, k);
              if last.None? then CountOf(counts, outcome) == 0
              else exists c: nat :: c < n
                     && CountersExplained(x, StateAt(x, n).history[last.value], last.value, c, counts, outcome)
  {
    var s := StateAt(x, n);
    RunKeeps(x.hash, x.steps[..n]);
    Lifecycle.ReplayRow(s.history, k);
    var last := Lifecycle.LastRound(s.history, k);
    if k in s.db.sources && last.Some? {
      CommittedLookups(x, n, last.value);
      var e := s.history[last.value];
      var c: nat :| c < n && ExplainedBy(x, e, last.value, c);
      var r: ReplicaId, b: nat :| Explained(x, e, last.value, r, b, c);
      CountersAtTheirMoments(x, e, last.value, r, b, c, outcome);
      assert CountersExplained(x, e, last.value, c, s.db.sources[k].counts, outcome);
    }
  }

  /** The other two counters of a committed reconcile speak of the snapshot alone. */
  lemma CountersOfSnapshot(x: Execution, e: Event, h: nat, r: ReplicaId, b: nat, c: nat)
    requires Explained(x, e, h, r, b, c)
    ensures FinalCounts(e.resolved).services == |e.services|
    ensures FinalCounts(e.resolved).noUsableIp == |Unaddressed(e.services)|
    ensures DistinctUids(e.resolved) <==> DistinctSnapshots(e.services)
    ensures Uids(e.resolved) == ReportedUids(e.services)
  {
    LiveTally(ResolveAll(Seen(x, e, r, b, c), e.cfg.site, e.services), LiveAt(x, c));
    NoUsableIpIsUnaddressed(Seen(x, e, r, b, c), e.cfg.site, e.services);
    AnswerUids(e.services, e.resolved);
    forall i | 0 <= i < |e.services|
      ensures e.resolved[i].uid == e.services[i].uid
    {
      assert Answers(e.services[i], e.resolved[i]);
    }
  }

  /** What the service counters of a source say, given its last committed snapshot. */
  ghost predicate ServiceCountersSay(src: Source, services: seq<Snapshot>) {
    && src.counts.services == |services|
    && src.counts.noUsableIp == |Unaddressed(services)|
    && (src.counts.services == |ActiveUids(src)| <==> DistinctSnapshots(services))
  }

  /**
   * In every reachable state the service counter of a source is the length of its last
   * committed snapshot, and it is the number of its active services exactly when that snapshot
   * repeats no UID; the no-address counter is the number of services of that snapshot without
   * an address. Without a committed reconcile both are 0.
   */
  lemma StoredServiceCounters(x: Execution, n: nat, k: string)
    requires n <= |x.steps|
    ensures k in StateAt(x, n).db.sources ==>
              var src, last := StateAt(x, n).db.sources[k], Lifecycle.LastRound(StateAt(x, n).history, k);
              if last.None? then src.counts.services == 0 && src.counts.noUsableIp == 0
              else ServiceCountersSay(src, StateAt(x, n).history[last.value].services)
  {
    var s := StateAt(x, n);
    RunKeeps(x.hash, x.steps[..n]);
    Lifecycle.ReplayRow(s.history, k);
    var last := Lifecycle.LastRound(s.history, k);
    if k in s.db.sources && last.Some? {
      CommittedLookups(x, n, last.value);
      var e := s.history[last.value];
      var c: nat :| c < n && ExplainedBy(x, e, last.value, c);
      var r: ReplicaId, b: nat :| Explained(x, e, last.value, r, b, c);
      CountersOfSnapshot(x, e, last.value, r, b, c);
      ActiveIsLastRound(x, n, k);
      UidsSize(e.resolved);
    }
  }

  lemma ActiveIsLastRound(x: Execution, n: nat, k: string)
    requires n <= |x.steps| && k in StateAt(x, n).db.sources && Lifecycle.LastRound(StateAt(x, n).history, k).Some?
    ensures var s := StateAt(x, n);
            ActiveUids(s.db.sources[k]) == ReportedUids(s.history[Lifecycle.LastRound(s.history, k).value].services)
  {
    var s := StateAt(x, n);
    var src, h := s.db.sources[k], Lifecycle.LastRound(s.history, k);
    Lifecycle.LastRoundIsLast(s.history, k);
    forall u
      ensures u in ActiveUids(src) <==> u in ReportedUids(s.history[h.value].services)
    {
      Lifecycle.LastCommittedSnapshotWins(x.hash, x.steps[..n], k, u);
    }
  }

  // ----- what a commit stores

  /**
   * The reconcile that one repository call stores, its lookups seeing the view, after the
   * deletions up to the commit.
   */
  ghost function Stored(sources: map<string, Source>, e: Event, view: View, live: set<IpId>): Source
    requires e.Reconcile?
  {
    Reconciled(UpsertSource(sources, e.cfg), LiveAll(ResolveAll(view, e.cfg.site, e.services), live), e.observedAt,
               e.cfg.retention)
  }

  /** Commit step c leaves the address tables alone and puts what that call stores into the source's place. */
  ghost predicate Publishes(x: Execution, e: Event, r: ReplicaId, b: nat, c: nat) {
    && e.Reconcile? && c < |x.steps|
    && var sources := StateAt(x, c).db.sources;
       StateAt(x, c + 1).db ==
         Db(TablesAt(x, c), sources[e.cfg.key := Stored(sources, e, Seen(x, e, r, b, c), LiveAt(x, c))])
  }

  /** The commit at step c publishes the explained event as the repository call that it stands for. */
  lemma InterleavedCommitIsOneCall(x: Execution, e: Event, h: nat, r: ReplicaId, b: nat, c: nat)
    requires Explained(x, e, h, r, b, c)
    ensures Publishes(x, e, r, b, c)
  {
    NextState(x, c);
    assert StateAt(x, c + 1).history[h] == e;
    CommitIsAtomic(x.hash, StateAt(x, c), r);
  }

  ghost predicate CommittedAsOneCall(x: Execution, e: Event, h: nat, c: nat) {
    exists r: ReplicaId, b: nat :: Explained(x, e, h, r, b, c) && Publishes(x, e, r, b, c)
  }

  /**
   * The two together, for every committed reconcile of every run: some step before n appended
   * that event and turned the committed database into what one repository call stores, each
   * lookup of which saw the tables of a step between the transaction's lock and this commit.
   */
  lemma EveryCommitIsOneCall(x: Execution, n: nat, h: nat)
    requires n <= |x.steps|
    ensures h < |StateAt(x, n).history| && StateAt(x, n).history[h].Reconcile? ==>
              exists c: nat :: c < n && CommittedAsOneCall(x, StateAt(x, n).history[h], h, c)
  {
    if h < |StateAt(x, n).history| && StateAt(x, n).history[h].Reconcile? {
      CommittedLookups(x, n, h);
      var e := StateAt(x, n).history[h];
      var c: nat :| c < n && ExplainedBy(x, e, h, c);
      var r: ReplicaId, b: nat :| Explained(x, e, h, r, b, c);
      InterleavedCommitIsOneCall(x, e, h, r, b, c);
      assert CommittedAsOneCall(x, e, h, c);
    }
  }

  ghost predicate QuietBetween(x: Execution, b: nat, c: nat) {
    c <= |x.steps| && forall q :: b <= q < c ==> !x.steps[q].Manage?
  }

  lemma {:induction false} QuietTables(x: Execution, m: nat, c: nat)
    requires m <= c && QuietBetween(x, m, c)
    ensures TablesAt(x, m) == TablesAt(x, c)
    decreases c
  {
    if m < c {
      QuietTables(x, m, c - 1);
      NextState(x, c - 1);
      TablesStep(x.hash, StateAt(x, c - 1), x.steps[c - 1]);
    }
  }

  lemma QuietSeen(x: Execution, e: Event, h: nat, r: ReplicaId, b: nat, c: nat, i: nat, j: nat)
    requires Explained(x, e, h, r, b, c) && QuietBetween(x, b, c) && i < |e.services| && j < |e.services[i].addresses|
    ensures Seen(x, e, r, b, c)(i, j) == TablesAt(x, c)
  {
    assert ShowsMoment(x, r, b, c, i, j, Seen(x, e, r, b, c)(i, j));
    var m :| b < m < c && LooksUp(x, r, i, j, m) && Seen(x, e, r, b, c)(i, j) == TablesAt(x, m);
    QuietTables(x, m, c);
  }

  lemma QuietOne(x: Execution, e: Event, h: nat, r: ReplicaId, b: nat, c: nat, i: nat)
    requires Explained(x, e, h, r, b, c) && QuietBetween(x, b, c) && i < |e.services|
    ensures e.resolved[i] == Resolve(Still(TablesAt(x, c)), i, e.cfg.site, e.services[i])
  {
    assert Answers(e.services[i], e.resolved[i]);
    var rows := AddressRowsFor(Still(TablesAt(x, c)), i, e.cfg.site, e.services[i].addresses);
    forall j: nat | j < |rows|
      ensures e.resolved[i].content.addresses[j] == rows[j]
    {
      SeenAt(x, e, h, r, b, c, i, j);
      QuietSeen(x, e, h, r, b, c, i, j);
      CandidateLink(TablesAt(x, c), e.cfg.site, e.services[i].addresses[j]);
    }
    assert e.resolved[i].content.addresses == rows;
  }

  /**
   * A transaction that no address-management call interrupts stores the reconcile of its
   * snapshot looked up in the tables as they stand, whatever the other replicas do meanwhile.
   */
  lemma QuietCommitIsOneCall(x: Execution, e: Event, h: nat, r: ReplicaId, b: nat, c: nat)
    requires Explained(x, e, h, r, b, c) && QuietBetween(x, b, c)
    ensures e.resolved == ResolveAll(Still(TablesAt(x, c)), e.cfg.site, e.services)
  {
    forall i: nat | i < |e.services|
      ensures e.resolved[i] == ResolveAll(Still(TablesAt(x, c)), e.cfg.site, e.services)[i]
    {
      QuietOne(x, e, h, r, b, c, i);
    }
  }
}
