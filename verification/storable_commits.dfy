/** No interleaving commits a snapshot that the tables would refuse. */
module StorableCommits {
  import opened Ipam
  import opened Discovery
  import opened Protocol

  /** What a transaction has written so far was accepted by the tables. */
  ghost predicate TxStorable(tx: Tx) {
    && |tx.resolved| <= |tx.services|
    && AllStorable(tx.services[..|tx.resolved|])
    && (tx.pc.InService? ==> |tx.resolved| < |tx.services| && PartStorable(tx.services[|tx.resolved|], tx.pc.part))
  }

  ghost predicate PartStorable(s: Snapshot, part: Resolved) {
    var n := |part.content.addresses|;
    s.uid != "" && n <= |s.addresses| && AddressesStorable(s.addresses[..n])
  }

  ghost predicate ReplicaStorable(p: Replica) {
    p.Reconciling? ==> TxStorable(p.tx)
  }

  lemma LiveStorable(p: Replica, live: set<IpId>)
    requires ReplicaStorable(p)
    ensures ReplicaStorable(LiveReplica(p, live))
  {
  }

  lemma WriteServiceStorable(hash: string -> int, s: State, r: ReplicaId)
    requires ReplicaStorable(At(s, r))
    ensures ReplicaStorable(At(DoWriteService(s, r), r))
  {
  }

  lemma WriteAddressStorable(hash: string -> int, s: State, r: ReplicaId)
    requires Protocol.Inv(hash, s) && ReplicaStorable(At(s, r))
    ensures ReplicaStorable(At(DoWriteAddress(s, r), r))
  {
    if CanWriteAddress(At(s, r)) {
      assert ReplicaOk(s, s.replicas[r]);
      var tx := At(s, r).tx;
      var rows, reported := tx.pc.part.content.addresses, tx.services[|tx.resolved|].addresses;
      PrefixAccepts(rows, reported);
      assert reported[..|rows|] + [reported[|rows|]] == reported[..|rows| + 1];
    }
  }

  /** A row accepted beside the stored ones fits the reported prefix. */
  lemma PrefixAccepts(rows: seq<AddressRow>, reported: seq<Address>)
    requires AddressesAnswer(reported, rows) && |rows| < |reported|
    requires AddressesStorable(reported[..|rows|]) && AddressStorable(rows, reported[|rows|])
    ensures AddressesStorable(reported[..|rows|] + [reported[|rows|]])
  {
    var before := reported[..|rows|];
    forall k | 0 <= k < |before|
      ensures !(before[k].kind == reported[|rows|].kind && before[k].addr == reported[|rows|].addr)
    {
      assert rows[k].kind == before[k].kind && rows[k].addr == before[k].addr;
    }
    StorableSnocAddress(before, reported[|rows|]);
  }

  lemma WriteHostnamesStorable(hash: string -> int, s: State, r: ReplicaId)
    requires ReplicaStorable(At(s, r))
    ensures ReplicaStorable(At(DoWriteHostnames(s, r), r))
  {
    if CanWriteHostnames(At(s, r)) {
      var tx := At(s, r).tx;
      var k := |tx.resolved|;
      assert tx.services[k].addresses[..|tx.services[k].addresses|] == tx.services[k].addresses;
      assert tx.services[..k + 1] == tx.services[..k] + [tx.services[k]];
    }
  }

  lemma PlainStorable(hash: string -> int, s: State, step: Step)
    requires !step.Manage? && !step.WriteService? && !step.WriteAddress? && !step.WriteHostnames?
    requires Protocol.Inv(hash, s) && ReplicaStorable(At(s, step.r))
    ensures ReplicaStorable(At(Do(hash, s, step), step.r))
  {
    if At(s, step.r).Reconciling? {
      assert ReplicaOk(s, s.replicas[step.r]);
    }
  }

  lemma StepStorable(hash: string -> int, s: State, step: Step, r: ReplicaId)
    requires Protocol.Inv(hash, s) && ReplicaStorable(At(s, r))
    ensures ReplicaStorable(At(Do(hash, s, step), r))
  {
    if step.Manage? {
      LiveStorable(At(s, r), After(s.db.ipam, step.op).ips.Keys);
    } else if step.r != r {
      OthersStay(hash, s, step, r);
    } else {
      match step
      case WriteService(_) => WriteServiceStorable(hash, s, r);
      case WriteAddress(_) => WriteAddressStorable(hash, s, r);
      case WriteHostnames(_) => WriteHostnamesStorable(hash, s, r);
      case _ => PlainStorable(hash, s, step);
    }
  }

  lemma {:induction false} RunStorable(hash: string -> int, steps: seq<Step>, r: ReplicaId)
    ensures ReplicaStorable(At(Protocol.Run(hash, steps), r))
    decreases |steps|
  {
    if steps != [] {
      var before := steps[..|steps| - 1];
      RunStorable(hash, before, r);
      RunKeeps(hash, before);
      StepStorable(hash, Protocol.Run(hash, before), steps[|steps| - 1], r);
    }
  }

  ghost predicate HistoryStorable(history: seq<Event>) {
    forall h :: 0 <= h < |history| && history[h].Reconcile? ==> AllStorable(history[h].services)
  }

  lemma CommitStorable(hash: string -> int, s: State, r: ReplicaId)
    requires Protocol.Inv(hash, s) && ReplicaStorable(At(s, r)) && HistoryStorable(s.history)
    ensures HistoryStorable(DoCommit(s, r).history)
  {
    if At(s, r).Reconciling? && At(s, r).tx.pc.Finished? {
      assert ReplicaOk(s, s.replicas[r]);
      var tx := At(s, r).tx;
      assert tx.services[..|tx.resolved|] == tx.services;
    }
  }

  /** Over every interleaving, whatever was listed, only snapshots that the tables accept are ever committed. */
  lemma {:induction false} OnlyStorableCommits(hash: string -> int, steps: seq<Step>)
    ensures HistoryStorable(Protocol.Run(hash, steps).history)
    decreases |steps|
  {
    if steps != [] {
      var before, step := steps[..|steps| - 1], steps[|steps| - 1];
      OnlyStorableCommits(hash, before);
      if step.Commit? {
        RunKeeps(hash, before);
        RunStorable(hash, before, step.r);
        CommitStorable(hash, Protocol.Run(hash, before), step.r);
      } else {
        OtherHistory(hash, Protocol.Run(hash, before), step);
      }
    }
  }

  lemma OtherHistory(hash: string -> int, s: State, step: Step)
    requires !step.Commit? && HistoryStorable(s.history)
    ensures HistoryStorable(Do(hash, s, step).history)
  {
  }
}
