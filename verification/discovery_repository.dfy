/** The repository's write side: one reconcile and one failure record, statement by statement. */
module DiscoveryRepository {
  import opened Wrappers
  import opened Ipam
  import opened Discovery

  datatype ReconcileError = Busy | MissingUid | ConstraintViolated

  function WithAddresses(row: Source, uid: Uid, rows: seq<AddressRow>): Source
    requires uid in row.services
  {
    SetContent(row, uid, row.services[uid].content.(addresses := rows))
  }

  /** The first service that cannot be stored has no UID. */
  ghost predicate UidMissingFirst(services: seq<Snapshot>) {
    exists i :: 0 <= i < |services| && services[i].uid == "" && AllStorable(services[..i])
  }

  /** Only this source changed: its attempt time and message; a new row has the configured settings and nothing else. */
  predicate FailureRecorded(before: map<string, Source>, after: map<string, Source>, cfg: SourceConfig, at: Time,
                            message: string) {
    && cfg.key in after && after == before[cfg.key := after[cfg.key]]
    && after[cfg.key].lastAttempt == Some(at) && after[cfg.key].lastError == message
    && if cfg.key in before then
         after[cfg.key] == before[cfg.key].(lastAttempt := Some(at), lastError := message)
       else
         after[cfg.key] == Source(cfg.name, cfg.site, cfg.clusterDomain, cfg.namespaces, Some(at), None, message,
                                  Counts(0, 0, 0, 0, 0), map[], 0)
  }

  predicate AreUids(uids: seq<Uid>, services: seq<Snapshot>) {
    |uids| == |services| && forall i :: 0 <= i < |services| ==> uids[i] == services[i].uid
  }

  /** An open transaction: the source's rows as it sees them, and the running counters. */
  class Transaction {
    var row: Source
    var result: Counts

    constructor (row: Source)
      ensures this.row == row && result == NO_COUNTS
    {
      this.row := row;
      result := NO_COUNTS;
    }

    method ReplacePorts(uid: Uid, ports: seq<Port>)
      requires uid in row.services
      modifies this`row
      ensures row == SetContent(old(row), uid, old(row).services[uid].content.(ports := EncodePorts(ports)))
    {
      row := Discovery.DeletePorts(row, uid);
      assert EncodePorts(ports[..0]) == [];
      for i := 0 to |ports|
        invariant uid in row.services
        invariant row == SetContent(old(row), uid, old(row).services[uid].content.(ports := EncodePorts(ports[..i])))
      {
        row := InsertPort(row, uid, EncodePort(ports[i]));
        assert EncodePorts(ports[..i + 1]) == EncodePorts(ports[..i]) + [EncodePort(ports[i])];
      }
      assert ports[..|ports|] == ports;
    }

    /** Looks one address up among the site's IP rows and bumps the counter of its outcome. */
    method MatchAddress(t: Tables, site: SiteId, a: Address) returns (stored: AddressRow)
      modifies this`result
      ensures stored == AddressRowFor(t, site, a) && result == TallyRows(old(result), [stored])
      ensures LookupIs(t, site, a, stored)
    {
      var candidates := Candidates(t, site, a.addr);
      var status, link := Unmatched, None;
      if |candidates| == 0 {
        result := result.(unmatched := result.unmatched + 1);
      } else if |candidates| == 1 {
        var id :| id in candidates;
        status, link := Matched, Some(id);
        result := result.(matched := result.matched + 1);
        SingletonIs(candidates, id);
      } else {
        status := Ambiguous;
        result := result.(ambiguous := result.ambiguous + 1);
      }
      stored := AddressRow(a.kind, a.addr, NullIfEmpty(a.ipMode), link, status, |candidates|);
      TallyOne(old(result), stored);
      LookupExactly(t, site, a);
    }

    /** The service's address rows and the counters are those of the given rows. */
    ghost predicate HoldsRows(base: Source, counts: Counts, uid: Uid, rows: seq<AddressRow>)
      requires uid in base.services
      reads this
    {
      row == WithAddresses(base, uid, rows) && result == TallyRows(counts, rows)
    }

    /** Matches and stores each address; stops at the first row the table rejects. */
    method ReplaceAddresses(view: View, i: nat, site: SiteId, uid: Uid, addresses: seq<Address>) returns (ok: bool)
      requires uid in row.services
      modifies this
      ensures ok <==> AddressesStorable(addresses)
      ensures ok ==> HoldsRows(old(row), old(result), uid, AddressRowsFor(view, i, site, addresses))
    {
      ghost var base, counts := row, result;
      row := Discovery.DeleteAddresses(row, uid);
      assert AddressRowsFor(view, i, site, addresses[..0]) == [];
      for j := 0 to |addresses|
        invariant AddressesStorable(addresses[..j])
        invariant HoldsRows(base, counts, uid, AddressRowsFor(view, i, site, addresses[..j]))
      {
        ghost var rows := AddressRowsFor(view, i, site, addresses[..j]);
        var stored := MatchAddress(view(i, j), site, addresses[j]);
        NextAddress(view, i, site, addresses, j);
        if !AddressStorable(row.services[uid].content.addresses, addresses[j]) {
          LongerUnstorable(addresses, j + 1);
          return false;
        }
        row := InsertAddress(row, uid, stored);
        OneMoreRow(base, counts, uid, rows, stored);
      }
      assert addresses[..|addresses|] == addresses;
      ok := true;
    }

    method ReplaceHostnames(uid: Uid, hostnames: seq<Hostname>) returns (ok: bool)
      requires uid in row.services
      modifies this`row
      ensures ok <==> HostnamesStorable(hostnames)
      ensures ok ==> row == SetContent(old(row), uid, old(row).services[uid].content.(hostnames := hostnames))
    {
      row := Discovery.DeleteHostnames(row, uid);
      for i := 0 to |hostnames|
        invariant uid in row.services
        invariant HostnamesStorable(hostnames[..i])
        invariant row == SetContent(old(row), uid, old(row).services[uid].content.(hostnames := hostnames[..i]))
      {
        if hostnames[i].kind != LOAD_BALANCER || hostnames[i] in hostnames[..i] {
          return false;
        }
        row := InsertHostname(row, uid, hostnames[i]);
        assert hostnames[..i + 1] == hostnames[..i] + [hostnames[i]];
      }
      assert hostnames[..|hostnames|] == hostnames;
      ok := true;
    }

    /** Writes one reported service with its children, or stops at the first rejected row. */
    method WriteService(view: View, i: nat, site: SiteId, snapshot: Snapshot, observedAt: Time) returns (ok: bool)
      requires snapshot.uid != ""
      modifies this
      ensures ok <==> Storable(snapshot)
      ensures ok ==> row == Put(old(row), Resolve(view, i, site, snapshot), observedAt)
      ensures ok ==>
                result == TallyRows(Begun(old(result), |snapshot.addresses|),
                                    AddressRowsFor(view, i, site, snapshot.addresses))
    {
      row := UpsertService(row, snapshot.uid, snapshot.info, observedAt);
      if |snapshot.addresses| == 0 {
        result := result.(noUsableIp := result.noUsableIp + 1);
      }
      ReplacePorts(snapshot.uid, snapshot.ports);
      ok := ReplaceAddresses(view, i, site, snapshot.uid, snapshot.addresses);
      if !ok {
        return;
      }
      ok := ReplaceHostnames(snapshot.uid, snapshot.hostnames);
      if ok {
        assert row.services == Put(old(row), Resolve(view, i, site, snapshot), observedAt).services;
      }
    }

    /** Extends a written prefix of the snapshot by its next service. */
    method WriteNext(ghost base: Source, view: View, site: SiteId, services: seq<Snapshot>, i: nat, observedAt: Time)
      returns (ok: bool)
      requires i < |services| && services[i].uid != ""
      requires Holds(base, ResolveAll(view, site, services[..i]), observedAt)
      modifies this
      ensures ok == Storable(services[i])
      ensures ok ==> Holds(base, ResolveAll(view, site, services[..i + 1]), observedAt)
    {
      ok := WriteService(view, i, site, services[i], observedAt);
      OneMoreService(base, view, site, services, i, observedAt);
    }

    /** The rows and counters are those of the given services written over base. */
    ghost predicate Holds(base: Source, rs: seq<Resolved>, observedAt: Time)
      reads this
    {
      row == PutAll(base, rs, observedAt) && result == Tally(rs)
    }

    /** Writes the whole snapshot and collects its UIDs, or stops at the first rejected service. */
    method WriteServices(view: View, site: SiteId, services: seq<Snapshot>, observedAt: Time)
      returns (r: Result<seq<Uid>, ReconcileError>)
      requires result == NO_COUNTS
      modifies this
      ensures r != Err(Busy)
      ensures r.Ok? <==> AllStorable(services)
      ensures r == Err(MissingUid) <==> UidMissingFirst(services)
      ensures r.Ok? ==> Holds(old(row), ResolveAll(view, site, services), observedAt)
      ensures r.Ok? ==> AreUids(r.value, services)
    {
      var uids: seq<Uid> := [];
      ghost var base := row;
      assert services[..0] == [];
      for i := 0 to |services|
        invariant AllStorable(services[..i]) && AreUids(uids, services[..i])
        invariant Holds(base, ResolveAll(view, site, services[..i]), observedAt)
      {
        StorableSnoc(services, i);
        if services[i].uid == "" {
          return Err(MissingUid);
        }
        var ok := WriteNext(base, view, site, services, i, observedAt);
        if !ok {
          return Err(ConstraintViolated);
        }
        SeenSnoc(uids, services, i);
        uids := uids + [services[i].uid];
      }
      assert services[..|services|] == services;
      return Ok(uids);
    }
  }

  lemma StorableSnoc(services: seq<Snapshot>, i: nat)
    requires i < |services|
    ensures AllStorable(services[..i + 1]) <==> AllStorable(services[..i]) && Storable(services[i])
    ensures AllStorable(services) ==> Storable(services[i])
  {
    assert services[..i + 1] == services[..i] + [services[i]];
    assert services[..i + 1][i] == services[i];
    assert forall j :: 0 <= j < i ==> services[..i][j] == services[..i + 1][j];
  }

  lemma SeenSnoc(uids: seq<Uid>, services: seq<Snapshot>, i: nat)
    requires i < |services| && AreUids(uids, services[..i])
    ensures AreUids(uids + [services[i].uid], services[..i + 1])
  {
  }

  /** The next row is storable beside the stored ones exactly when the longer prefix is. */
  lemma NextAddress(view: View, i: nat, site: SiteId, addresses: seq<Address>, j: nat)
    requires j < |addresses| && AddressesStorable(addresses[..j])
    ensures AddressStorable(AddressRowsFor(view, i, site, addresses[..j]), addresses[j])
            <==> AddressesStorable(addresses[..j + 1])
    ensures AddressRowsFor(view, i, site, addresses[..j + 1])
            == AddressRowsFor(view, i, site, addresses[..j]) + [AddressRowFor(view(i, j), site, addresses[j])]
  {
    var rows, before := AddressRowsFor(view, i, site, addresses[..j]), addresses[..j];
    forall k | 0 <= k < j
      ensures rows[k].kind == before[k].kind && rows[k].addr == before[k].addr
    {
      assert rows[k] == AddressRowFor(view(i, k), site, before[k]);
    }
    StorableSnocAddress(before, addresses[j]);
    assert before + [addresses[j]] == addresses[..j + 1];
  }

  /** Inserting a row and counting its outcome extends the rows by it. */
  lemma OneMoreRow(base: Source, counts: Counts, uid: Uid, rows: seq<AddressRow>, stored: AddressRow)
    requires uid in base.services
    ensures InsertAddress(WithAddresses(base, uid, rows), uid, stored) == WithAddresses(base, uid, rows + [stored])
    ensures TallyRows(TallyRows(counts, rows), [stored]) == TallyRows(counts, rows + [stored])
  {
    assert InsertAddress(WithAddresses(base, uid, rows), uid, stored).services
           == WithAddresses(base, uid, rows + [stored]).services;
    TallySnoc(counts, rows, stored);
  }

  lemma LongerUnstorable(addresses: seq<Address>, n: nat)
    requires n <= |addresses| && !AddressesStorable(addresses[..n])
    ensures !AddressesStorable(addresses)
  {
    assert forall j :: 0 <= j < n ==> addresses[..n][j] == addresses[j];
  }

  class KubernetesDiscoveryRepository {
    var ipam: Tables
    var sources: map<string, Source>

    constructor (ipam: Tables, sources: map<string, Source>)
      ensures this.ipam == ipam && this.sources == sources
    {
      this.ipam := ipam;
      this.sources := sources;
    }

    /**
     * One reconcile; each address lookup sees the address tables of its own moment. It commits
     * exactly when the lock is free, the site exists and every service is storable, and then
     * leaves the source as the atomic reconcile does; otherwise nothing is changed.
     */
    method Reconcile(locked: bool, cfg: SourceConfig, services: seq<Snapshot>, observedAt: Time, view: View)
      returns (r: Result<Counts, ReconcileError>)
      modifies this`sources
      ensures r == Err(Busy) <==> !locked
      ensures r.Ok? <==> locked && cfg.site in ipam.sites && AllStorable(services)
      ensures r == Err(MissingUid) <==> locked && cfg.site in ipam.sites && UidMissingFirst(services)
      ensures r.Err? ==> sources == old(sources)
      ensures r.Ok? ==>
                var rs := ResolveAll(view, cfg.site, services);
                var row := Reconciled(UpsertSource(old(sources), cfg), rs, observedAt, cfg.retention);
                && sources == old(sources)[cfg.key := row]
                && r.value == FinalCounts(rs) == row.counts
                && row.lastAttempt == row.lastSuccess == Some(observedAt) && row.lastError == ""
    {
      if !locked {
        return Err(Busy);
      }
      if cfg.site !in ipam.sites {
        return Err(ConstraintViolated);
      }
      var tx := new Transaction(UpsertSource(sources, cfg));
      var written := tx.WriteServices(view, cfg.site, services, observedAt);
      if written.Err? {
        return Err(written.error);
      }
      var uids := written.value;
      tx.result := tx.result.(services := |services|);
      SeenUids(view, cfg.site, services, uids);
      tx.row := Discovery.Finish(tx.row, set i | 0 <= i < |uids| :: uids[i], observedAt, cfg.retention, tx.result);
      sources := sources[cfg.key := tx.row];
      return Ok(tx.result);
    }

    /** Records an attempt that failed; services, counts and the last success stay as they were. */
    method RecordFailure(locked: bool, cfg: SourceConfig, attemptedAt: Time, message: string)
      returns (r: Result<(), ReconcileError>)
      modifies this`sources
      ensures r == Err(Busy) <==> !locked
      ensures r.Ok? <==> locked && (cfg.key in old(sources) || cfg.site in ipam.sites)
      ensures r.Err? ==> sources == old(sources)
      ensures r.Ok? ==> FailureRecorded(old(sources), sources, cfg, attemptedAt, message)
      ensures r.Ok? ==>
                var row := Discovery.RecordFailure(EnsureSource(old(sources), cfg), attemptedAt, message);
                sources == old(sources)[cfg.key := row]
    {
      if !locked {
        return Err(Busy);
      }
      if cfg.key !in sources && cfg.site !in ipam.sites {
        return Err(ConstraintViolated);
      }
      var row := EnsureSource(sources, cfg);
      sources := sources[cfg.key := Discovery.RecordFailure(row, attemptedAt, message)];
      return Ok(());
    }
  }

  lemma OneMoreService(src: Source, view: View, site: SiteId, services: seq<Snapshot>, i: nat, observedAt: Time)
    requires i < |services|
    ensures var before, after := ResolveAll(view, site, services[..i]), ResolveAll(view, site, services[..i + 1]);
            var r := Resolve(view, i, site, services[i]);
            && PutAll(src, after, observedAt) == Put(PutAll(src, before, observedAt), r, observedAt)
            && Tally(after)
               == TallyRows(Begun(Tally(before), |services[i].addresses|),
                            AddressRowsFor(view, i, site, services[i].addresses))
  {
    var before, after := ResolveAll(view, site, services[..i]), ResolveAll(view, site, services[..i + 1]);
    assert after[..i] == before && after[i] == Resolve(view, i, site, services[i]);
  }

  lemma SeenUids(view: View, site: SiteId, services: seq<Snapshot>, uids: seq<Uid>)
    requires AreUids(uids, services)
    ensures (set i | 0 <= i < |uids| :: uids[i]) == Uids(ResolveAll(view, site, services))
  {
    var rs := ResolveAll(view, site, services);
    forall u
      ensures u in (set i | 0 <= i < |uids| :: uids[i]) <==> u in Uids(rs)
    {
      if u in Uids(rs) {
        var i :| 0 <= i < |rs| && rs[i].uid == u;
        assert uids[i] == u;
      }
      if i :| 0 <= i < |uids| && uids[i] == u {
        assert rs[i].uid == u;
      }
    }
  }
}
