/** What a source row says of its attempts, errors and settings, from the committed events alone. */
module Attempts {
  import opened Wrappers
  import opened Ipam
  import opened Discovery
  import opened Protocol
  import opened Lifecycle

  predicate IsAttempt(e: Event, k: string) {
    (e.Reconcile? || e.Failure?) && e.cfg.key == k
  }

  /** The call deletes the site that the source is bound to, and so the source. */
  predicate Removes(earlier: seq<Event>, e: Event, k: string) {
    e.Managed? && var db := Replay(EMPTY_DB, earlier);
                  k in db.sources && db.sources[k].site !in After(db.ipam, e.op).sites
  }

  /** The last reconcile or failure record of the source since its row was last created. */
  function LastAttempt(history: seq<Event>, k: string): (h: Option<nat>)
    ensures h.Some? ==> h.value < |history| && IsAttempt(history[h.value], k)
    decreases |history|
  {
    if history == [] then None
    else
      var earlier, e := history[..|history| - 1], history[|history| - 1];
      if IsAttempt(e, k) then Some(|history| - 1)
      else if Removes(earlier, e, k) then None
      else LastAttempt(earlier, k)
  }

  /** The first one since then, which created the row. */
  function Origin(history: seq<Event>, k: string): (h: Option<nat>)
    ensures h.Some? ==> h.value < |history| && IsAttempt(history[h.value], k)
    decreases |history|
  {
    if history == [] then None
    else
      var earlier, e := history[..|history| - 1], history[|history| - 1];
      var prior := Origin(earlier, k);
      if IsAttempt(e, k) then if prior.None? then Some(|history| - 1) else prior
      else if Removes(earlier, e, k) then None
      else prior
  }

  /** Time and message of the last attempt; a success clears the message. */
  ghost predicate TellsAttempt(src: Source, e: Event)
    requires e.Reconcile? || e.Failure?
  {
    if e.Reconcile? then src.lastAttempt == Some(e.observedAt) && src.lastError == ""
    else src.lastAttempt == Some(e.attemptedAt) && src.lastError == e.message
  }

  predicate BoundAs(src: Source, cfg: SourceConfig) {
    src.name == cfg.name && src.site == cfg.site && src.clusterDomain == cfg.clusterDomain
      && src.namespaces == cfg.namespaces
  }

  /** The settings are those of the last reconcile; without one, of the failure that created the row. */
  ghost predicate TellsSettings(src: Source, history: seq<Event>, k: string) {
    var round, origin := LastRound(history, k), Origin(history, k);
    if round.Some? then BoundAs(src, history[round.value].cfg)
    else origin.Some? && history[origin.value].Failure? && BoundAs(src, history[origin.value].cfg)
  }

  ghost predicate TellsHistory(db: Db, history: seq<Event>, k: string) {
    var last := LastAttempt(history, k);
    && (k in db.sources <==> last.Some?) && (k in db.sources <==> Origin(history, k).Some?)
    && (k in db.sources ==>
        TellsAttempt(db.sources[k], history[last.value]) && TellsSettings(db.sources[k], history, k))
  }

  lemma AttemptStep(history: seq<Event>, k: string)
    requires history != []
    requires var earlier := history[..|history| - 1]; TellsHistory(Replay(EMPTY_DB, earlier), earlier, k)
    ensures TellsHistory(Replay(EMPTY_DB, history), history, k)
  {
    var earlier, e := history[..|history| - 1], history[|history| - 1];
    var db := Replay(EMPTY_DB, earlier);
    ReplayRow(history, k);
    ReplayRow(earlier, k);
    if e.Reconcile? && e.cfg.key == k {
      PutAllKeepsRow(UpsertSource(db.sources, e.cfg), e.resolved, e.observedAt);
    }
  }

  lemma {:induction false} ReplayTells(history: seq<Event>, k: string)
    ensures TellsHistory(Replay(EMPTY_DB, history), history, k)
    decreases |history|
  {
    if history != [] {
      ReplayTells(history[..|history| - 1], k);
      AttemptStep(history, k);
    }
  }

  /**
   * In every reachable state a source is stored exactly when a reconcile or a failure record of
   * it was committed and its site not deleted since. Its attempt time and error message are
   * those of the last of them, with no message after a success; name, site, domain and
   * namespaces are those of the last reconcile, or of the failure that created it.
   */
  lemma SourceTellsItsHistory(hash: string -> int, steps: seq<Step>, k: string)
    ensures var s := Protocol.Run(hash, steps); TellsHistory(s.db, s.history, k)
  {
    RunKeeps(hash, steps);
    ReplayTells(Protocol.Run(hash, steps).history, k);
  }
}
