/**
 * What the discovery rows satisfy in every reachable state, committed or in flight,
 * and what the matched-address read may therefore promise.
 */
module Integrity {
  import opened Wrappers
  import opened Addresses
  import opened Ipam
  import opened Discovery
  import opened Protocol

  // ----- row invariants

  /** A link names an existing IP row with the stored address; status and count agree. */
  ghost predicate RowOk(t: Tables, a: AddressRow) {
    && (a.kind == CLUSTER_IP || a.kind == LOAD_BALANCER)
    && (a.link.Some? ==> a.status.Matched? && a.link.value in t.ips && t.ips[a.link.value].addr == a.addr)
    && (a.status.Matched? ==> a.count == 1)
    && (a.status.Unmatched? ==> a.count == 0)
    && (a.status.Ambiguous? ==> a.count >= 2)
  }

  ghost predicate RowsOk(t: Tables, rows: seq<AddressRow>) {
    && (forall i :: 0 <= i < |rows| ==> RowOk(t, rows[i]))
    && (forall i, j :: 0 <= i < j < |rows| ==> !(rows[i].kind == rows[j].kind && rows[i].addr == rows[j].addr))
  }

  /** A service is active exactly when it has no stale time. */
  ghost predicate ServiceOk(t: Tables, s: Service, nextId: nat) {
    && (s.active <==> s.staleAt.None?)
    && RowsOk(t, s.content.addresses)
    && HostnamesStorable(s.content.hostnames)
    && s.id < nextId
  }

  ghost predicate SourceOk(t: Tables, src: Source) {
    && (forall u :: u in src.services ==> ServiceOk(t, src.services[u], src.nextId))
    && (forall u, u' :: u in src.services && u' in src.services ==>
          (src.services[u].id == src.services[u'].id ==> u == u'))
  }

  ghost predicate DbOk(db: Db) {
    forall k :: k in db.sources ==> SourceOk(db.ipam, db.sources[k])
  }

  function Staged(p: Replica): Source
    requires Writing(p)
  {
    if p.Reconciling? then p.tx.row else p.staged.value
  }

  ghost predicate DataInv(s: State) {
    && DbOk(s.db)
    && forall r :: r in s.replicas && Writing(s.replicas[r]) ==> SourceOk(s.db.ipam, Staged(s.replicas[r]))
  }

  // ----- statements keep the row invariants

  lemma LookupOk(t: Tables, site: SiteId, a: Address)
    requires a.kind == CLUSTER_IP || a.kind == LOAD_BALANCER
    ensures RowOk(t, AddressRowFor(t, site, a))
  {
    StatusIsCandidateCount(t, site, a);
  }

  lemma UpsertServiceOk(t: Tables, src: Source, uid: Uid, info: Info, now: Time)
    requires SourceOk(t, src)
    ensures SourceOk(t, UpsertService(src, uid, info, now))
  {
  }

  lemma SetContentOk(t: Tables, src: Source, uid: Uid, c: Content)
    requires SourceOk(t, src) && uid in src.services
    requires RowsOk(t, c.addresses) && HostnamesStorable(c.hostnames)
    ensures SourceOk(t, SetContent(src, uid, c))
  {
  }

  lemma FinishOk(t: Tables, src: Source, uids: set<Uid>, now: Time, retention: int, counts: Counts)
    requires SourceOk(t, src)
    ensures SourceOk(t, Discovery.Finish(src, uids, now, retention, counts))
  {
  }

  /** Rows survive any address-management call once dead links are nulled. */
  lemma LiveSourceOk(t: Tables, op: Op, src: Source)
    requires Ipam.Inv(t) && SourceOk(t, src)
    ensures SourceOk(After(t, op), LiveSource(src, After(t, op).ips.Keys))
  {
    var t', src' := After(t, op), LiveSource(src, After(t, op).ips.Keys);
    forall u | u in src'.services
      ensures ServiceOk(t', src'.services[u], src'.nextId)
    {
      assert ServiceOk(t, src.services[u], src.nextId);
      LiveRowsOk(t, op, src.services[u].content.addresses);
    }
  }

  lemma LiveRowsOk(t: Tables, op: Op, rows: seq<AddressRow>)
    requires Ipam.Inv(t) && RowsOk(t, rows)
    ensures RowsOk(After(t, op), LiveRows(rows, After(t, op).ips.Keys))
  {
    var t', rows' := After(t, op), LiveRows(rows, After(t, op).ips.Keys);
    forall i | 0 <= i < |rows'|
      ensures RowOk(t', rows'[i])
    {
      assert RowOk(t, rows[i]);
      if rows'[i].link.Some? {
        RowsAreStable(t, op, rows'[i].link.value);
      }
    }
  }

  // ----- steps keep them

  lemma BecomeKeepsData(s: State, r: ReplicaId, p: Replica)
    requires DataInv(s) && (Writing(p) ==> SourceOk(s.db.ipam, Staged(p)))
    ensures DataInv(Become(s, r, p))
  {
  }

  lemma ManageKeepsData(s: State, op: Op)
    requires DataInv(s) && Ipam.Inv(s.db.ipam)
    ensures DataInv(DoManage(s, op))
  {
    var s' := DoManage(s, op);
    forall k | k in s'.db.sources
      ensures SourceOk(s'.db.ipam, s'.db.sources[k])
    {
      LiveSourceOk(s.db.ipam, op, s.db.sources[k]);
    }
    forall r | r in s'.replicas && Writing(s'.replicas[r])
      ensures SourceOk(s'.db.ipam, Staged(s'.replicas[r]))
    {
      assert Writing(s.replicas[r]);
      LiveSourceOk(s.db.ipam, op, Staged(s.replicas[r]));
    }
  }

  lemma WriteSourceKeepsData(s: State, r: ReplicaId)
    requires DataInv(s)
    ensures DataInv(DoWriteSource(s, r))
  {
    var s' := DoWriteSource(s, r);
    if s' != s {
      BecomeKeepsData(s, r, s'.replicas[r]);
    }
  }

  lemma WriteServiceKeepsData(s: State, r: ReplicaId)
    requires DataInv(s)
    ensures DataInv(DoWriteService(s, r))
  {
    var s', p := DoWriteService(s, r), At(s, r);
    if CanWriteService(p) {
      var snap := p.tx.services[|p.tx.resolved|];
      assert Writing(s.replicas[r]);
      UpsertServiceOk(s.db.ipam, p.tx.row, snap.uid, snap.info, p.tx.observedAt);
      var row := UpsertService(p.tx.row, snap.uid, snap.info, p.tx.observedAt);
      assert ServiceOk(s.db.ipam, row.services[snap.uid], row.nextId);
      SetContentOk(s.db.ipam, row, snap.uid, s'.replicas[r].tx.pc.part.content);
      BecomeKeepsData(s, r, s'.replicas[r]);
    }
  }

  lemma InsertAddressOk(t: Tables, src: Source, uid: Uid, row: AddressRow)
    requires SourceOk(t, src) && uid in src.services && RowOk(t, row)
    requires var rows := src.services[uid].content.addresses;
             forall i :: 0 <= i < |rows| ==> !(rows[i].kind == row.kind && rows[i].addr == row.addr)
    ensures SourceOk(t, InsertAddress(src, uid, row))
  {
    var c := src.services[uid].content;
    assert ServiceOk(t, src.services[uid], src.nextId);
    assert RowsOk(t, c.addresses + [row]);
    SetContentOk(t, src, uid, c.(addresses := c.addresses + [row]));
  }

  /** The service being written is stored with the rows written so far. */
  lemma PartIsStored(hash: string -> int, s: State, r: ReplicaId)
    requires Protocol.Inv(hash, s) && At(s, r).Reconciling? && At(s, r).tx.pc.InService?
    ensures var tx := At(s, r).tx;
            tx.pc.part.uid in tx.row.services && tx.row.services[tx.pc.part.uid].content == tx.pc.part.content
  {
    assert ReplicaOk(s, s.replicas[r]);
    var tx := At(s, r).tx;
    PutHas(PutAll(UpsertSource(s.db.sources, tx.cfg), tx.resolved, tx.observedAt), tx.pc.part, tx.observedAt);
  }

  lemma WriteAddressKeepsData(hash: string -> int, s: State, r: ReplicaId)
    requires DataInv(s) && Protocol.Inv(hash, s)
    ensures DataInv(DoWriteAddress(s, r))
  {
    if CanWriteAddress(At(s, r)) {
      assert Writing(s.replicas[r]);
      var tx := At(s, r).tx;
      var reported := tx.services[|tx.resolved|].addresses[|tx.pc.part.content.addresses|];
      var row := AddressRowFor(s.db.ipam, tx.cfg.site, reported);
      PartIsStored(hash, s, r);
      LookupOk(s.db.ipam, tx.cfg.site, reported);
      InsertAddressOk(s.db.ipam, tx.row, tx.pc.part.uid, row);
      BecomeKeepsData(s, r, Reconciling(WithAddress(tx, row)));
    }
  }

  lemma WriteHostnamesKeepsData(hash: string -> int, s: State, r: ReplicaId)
    requires DataInv(s) && Protocol.Inv(hash, s)
    ensures DataInv(DoWriteHostnames(s, r))
  {
    var s', p := DoWriteHostnames(s, r), At(s, r);
    if CanWriteHostnames(p) {
      assert Writing(s.replicas[r]);
      var tx, part := p.tx, p.tx.pc.part;
      PartIsStored(hash, s, r);
      assert ServiceOk(s.db.ipam, tx.row.services[part.uid], tx.row.nextId);
      SetContentOk(s.db.ipam, tx.row, part.uid, part.content.(hostnames := tx.services[|tx.resolved|].hostnames));
      BecomeKeepsData(s, r, s'.replicas[r]);
    }
  }

  lemma CloseKeepsData(s: State, r: ReplicaId)
    requires DataInv(s)
    ensures DataInv(DoClose(s, r))
  {
    var s', p := DoClose(s, r), At(s, r);
    if p.Reconciling? && p.tx.pc.Between? && |p.tx.resolved| == |p.tx.services| {
      var tx := p.tx;
      assert Writing(s.replicas[r]);
      FinishOk(s.db.ipam, tx.row, set i | 0 <= i < |tx.services| :: tx.services[i].uid, tx.observedAt, tx.cfg.retention,
               tx.counts.(services := |tx.services|));
      BecomeKeepsData(s, r, s'.replicas[r]);
    }
  }

  lemma CommitKeepsData(s: State, r: ReplicaId)
    requires DataInv(s)
    ensures DataInv(DoCommit(s, r))
  {
    if r in s.replicas && Writing(s.replicas[r]) {
      assert SourceOk(s.db.ipam, Staged(s.replicas[r]));
    }
  }

  lemma IdleStepKeepsData(hash: string -> int, s: State, step: Step)
    requires DataInv(s) && (step.TryLock? || step.List? || step.Fail? || step.Crash?)
    ensures DataInv(Do(hash, s, step))
  {
    var s' := Do(hash, s, step);
    if s' != s {
      assert !Writing(s'.replicas[step.r]);
      BecomeKeepsData(s, step.r, s'.replicas[step.r]);
    }
  }

  lemma StepKeepsData(hash: string -> int, s: State, step: Step)
    requires Protocol.Inv(hash, s) && DataInv(s)
    ensures DataInv(Do(hash, s, step))
  {
    match step
    case Manage(op) => ManageKeepsData(s, op);
    case WriteSource(r) => WriteSourceKeepsData(s, r);
    case WriteService(r) => WriteServiceKeepsData(s, r);
    case WriteAddress(r) => WriteAddressKeepsData(hash, s, r);
    case WriteHostnames(r) => WriteHostnamesKeepsData(hash, s, r);
    case Close(r) => CloseKeepsData(s, r);
    case Commit(r) => CommitKeepsData(s, r);
    case _ => IdleStepKeepsData(hash, s, step);
  }

  /** Every reachable state satisfies the row invariants. */
  lemma {:induction false} RunKeepsData(hash: string -> int, steps: seq<Step>)
    ensures DataInv(Protocol.Run(hash, steps))
    decreases |steps|
  {
    if steps != [] {
      var before := steps[..|steps| - 1];
      RunKeepsData(hash, before);
      RunKeeps(hash, before);
      StepKeepsData(hash, Protocol.Run(hash, before), steps[|steps| - 1]);
    }
  }

  // ----- the matched-address read

  /** One address as the subnet's service list reports it. */
  datatype AddressView = AddressView(kind: string, addr: IpAddr, ipMode: string, status: MatchStatus, count: nat,
                                     matchedIp: Option<IpId>, matchedSubnet: Option<SubnetId>)

  /** The left joins from a stored link: its subnet, if that subnet is in the source's site now. */
  function LinkedSubnet(t: Tables, site: SiteId, link: Option<IpId>): Option<SubnetId> {
    if link.Some? && link.value in t.ips && t.ips[link.value].subnet in t.subnets
       && t.subnets[t.ips[link.value].subnet].site == Some(site)
    then Some(t.ips[link.value].subnet) else None
  }

  function ViewAddress(t: Tables, site: SiteId, a: AddressRow): AddressView {
    var subnet := LinkedSubnet(t, site, a.link);
    var lost := a.status.Matched? && subnet.None?;
    var ip := if a.status.Matched? && subnet.Some? then a.link else None;
    AddressView(a.kind, a.addr, CoalesceEmpty(a.ipMode),
                if lost then Unmatched else a.status, if lost then 0 else a.count,
                ip, if ip.Some? then subnet else None)
  }

  /**
   * The address reads as matched exactly if it is stored so and its link is live and in its own
   * site; a match that lost its link reads as unmatched, and any other status as stored.
   */
  ghost predicate ReadsLive(t: Tables, site: SiteId, a: AddressRow) {
    var v := ViewAddress(t, site, a);
    && (v.status.Matched? <==> v.matchedIp.Some?) && (v.matchedIp.Some? <==> v.matchedSubnet.Some?)
    && (v.status.Matched? ==>
          && v.matchedIp.value in t.ips && t.ips[v.matchedIp.value].addr == v.addr
          && t.ips[v.matchedIp.value].subnet == v.matchedSubnet.value
          && v.matchedSubnet.value in t.subnets && t.subnets[v.matchedSubnet.value].site == Some(site)
          && v.count == 1)
    && (v.status.Unmatched? <==> v.count == 0) && (v.status.Ambiguous? <==> v.count >= 2)
    && v.kind == a.kind && v.addr == a.addr && (if a.ipMode.Some? then v.ipMode == a.ipMode.value else v.ipMode == "")
    && (a.status.Matched? ==>
          if LinksInto(t, site, a.link)
          then v.status.Matched? && v.count == a.count && v.matchedIp == a.link
          else v.status.Unmatched? && v.count == 0 && v.matchedIp.None?)
    && (!a.status.Matched? ==> v.status == a.status && v.count == a.count && v.matchedIp.None?)
  }

  /** The link names an IP row in a subnet that the site has now. */
  predicate LinksInto(t: Tables, site: SiteId, link: Option<IpId>) {
    link.Some? && link.value in t.ips && t.ips[link.value].subnet in t.subnets
    && t.subnets[t.ips[link.value].subnet].site == Some(site)
  }

  lemma RowReadsLive(t: Tables, site: SiteId, a: AddressRow)
    requires Ipam.Inv(t) && RowOk(t, a)
    ensures ReadsLive(t, site, a)
  {
  }

  /**
   * In every reachable state an address that reads as matched names an existing IP row with
   * the same address, in a subnet that is in the source's site now; any other reads without
   * a link, and a stored match that lost its row or whose subnet left the site reads as
   * unmatched with count 0.
   */
  lemma MatchedReadsAreLive(hash: string -> int, steps: seq<Step>, k: string, u: Uid, i: nat)
    ensures var db := Protocol.Run(hash, steps).db;
            k in db.sources && u in db.sources[k].services && i < |db.sources[k].services[u].content.addresses| ==>
              ReadsLive(db.ipam, db.sources[k].site, db.sources[k].services[u].content.addresses[i])
  {
    RunKeepsData(hash, steps);
    RunKeeps(hash, steps);
    var db := Protocol.Run(hash, steps).db;
    if k in db.sources && u in db.sources[k].services && i < |db.sources[k].services[u].content.addresses| {
      assert ServiceOk(db.ipam, db.sources[k].services[u], db.sources[k].nextId);
      RowReadsLive(db.ipam, db.sources[k].site, db.sources[k].services[u].content.addresses[i]);
    }
  }
}
