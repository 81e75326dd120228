/**
 * Subnet usage reporting: the capture statement that every replica runs and that limits the
 * whole cluster to one capture per cadence, the retention cleanup and the history window.
 * Times are in seconds; a day is 24 hours.
 */
module Reporting {
  import opened Wrappers
  import opened Addresses
  import opened Ipam

  type Time = int

  const HOUR: int := 3600
  const DAY: int := 24 * HOUR
  const WEEK: int := 7 * DAY

  const MIN_RETENTION_DAYS: int := 1
  const MAX_RETENTION_DAYS: int := 180

  datatype Cadence = Hourly | Daily | Weekly

  function Length(c: Cadence): int {
    match c
    case Hourly => HOUR
    case Daily => DAY
    case Weekly => WEEK
  }

  function ParseCadence(text: string): Option<Cadence> {
    if text == "hourly" then Some(Hourly)
    else if text == "daily" then Some(Daily)
    else if text == "weekly" then Some(Weekly)
    else None
  }

  datatype Settings = Settings(cadence: Cadence, retentionDays: int, lastSnapshot: Option<Time>)

  datatype Usage = Usage(used: nat, total: int)

  /** A stored row; subnet and time are the table's primary key. */
  datatype Key = Key(subnet: SubnetId, at: Time)

  datatype Reports = Reports(settings: Settings, rows: map<Key, Usage>)

  // ----- the statements

  predicate Due(s: Settings, now: Time) {
    s.lastSnapshot.None? || s.lastSnapshot.value <= now - Length(s.cadence)
  }

  predicate IsV4(t: Tables, n: SubnetId) {
    n in t.subnets && t.subnets[n].cidr.addr.family.V4?
  }

  /** Unlike the capacity figure, the total counts the network and broadcast addresses too. */
  function Measure(t: Tables, n: SubnetId): Usage
    requires IsV4(t, n)
  {
    var used, size := Used(t, n), Pow2(32 - t.subnets[n].cidr.bits);
    Usage(used, if used > size then used else size)
  }

  function NewRows(t: Tables, now: Time): map<Key, Usage> {
    map n | n in t.subnets && IsV4(t, n) :: Key(n, now) := Measure(t, n)
  }

  /** Updates the settings row if a capture is due and inserts the usage rows, or fails as a whole. */
  function Capture(t: Tables, r: Reports, now: Time): Result<Reports, Error> {
    if !Due(r.settings, now) then Ok(r)
    else if exists n :: n in t.subnets && IsV4(t, n) && Key(n, now) in r.rows then Err(DatabaseError)
    else Ok(Reports(r.settings.(lastSnapshot := Some(now)), r.rows + NewRows(t, now)))
  }

  function Expire(r: Reports, now: Time): Reports {
    r.(rows := map k | k in r.rows && k.at >= now - r.settings.retentionDays * DAY :: r.rows[k])
  }

  function Configure(r: Reports, cadence: string, days: int): Result<Reports, Error> {
    if ParseCadence(cadence).None? || days < MIN_RETENTION_DAYS || days > MAX_RETENTION_DAYS then Err(InvalidInput)
    else Ok(r.(settings := Settings(ParseCadence(cadence).value, days, r.settings.lastSnapshot)))
  }

  /** ON DELETE CASCADE from subnets. */
  function WithoutDeleted(r: Reports, t: Tables): Reports {
    r.(rows := map k | k in r.rows && k.subnet in t.subnets :: r.rows[k])
  }

  // ----- what every statement keeps

  /** No row is later than the last capture, and every row satisfies the table's checks. */
  ghost predicate Sound(r: Reports) {
    && MIN_RETENTION_DAYS <= r.settings.retentionDays <= MAX_RETENTION_DAYS
    && (forall k :: k in r.rows ==> r.settings.lastSnapshot.Some? && k.at <= r.settings.lastSnapshot.value)
    && (forall k :: k in r.rows ==> 0 <= r.rows[k].used <= r.rows[k].total)
  }

  /** In a sound store the primary key never fires: a due capture is later than every row. */
  lemma CaptureNeverConflicts(t: Tables, r: Reports, now: Time)
    requires Sound(r)
    ensures Capture(t, r, now).Ok? && Sound(Capture(t, r, now).value)
    ensures Due(r.settings, now) ==> forall k :: k in r.rows ==> k.at + Length(r.settings.cadence) <= now
  {
  }

  // ----- the statements, said of the rows

  predicate IsIpv4(t: Tables, n: SubnetId) {
    n in t.subnets && t.subnets[n].cidr.addr.family.V4?
  }

  function Ipv4Subnets(t: Tables): set<SubnetId> {
    set n | n in t.subnets && IsIpv4(t, n)
  }

  /** The number of the subnet's IP rows, and the larger of that and the number of addresses of its prefix. */
  ghost predicate UsageIs(t: Tables, n: SubnetId, u: Usage)
    requires IsIpv4(t, n)
  {
    && u.used == |set i | i in t.ips && t.ips[i].subnet == n|
    && u.total >= u.used && u.total >= Pow2(32 - t.subnets[n].cidr.bits)
    && (u.total == u.used || u.total == Pow2(32 - t.subnets[n].cidr.bits))
  }

  lemma MeasureExactly(t: Tables, n: SubnetId)
    requires IsV4(t, n)
    ensures UsageIs(t, n, Measure(t, n))
  {
    assert IpsOf(t, n) == set i | i in t.ips && t.ips[i].subnet == n;
  }

  /** Nothing was captured yet, or the cadence has passed since. */
  predicate IsDue(s: Settings, now: Time) {
    s.lastSnapshot.Some? ==>
      now - s.lastSnapshot.value >= match s.cadence case Hourly => 3600 case Daily => 86400 case Weekly => 604800
  }

  /** The rows before, and one row of this time for each IPv4 subnet, with its usage. */
  ghost predicate TakesAll(t: Tables, now: Time, before: map<Key, Usage>, after: map<Key, Usage>) {
    && (forall k :: k in after <==> k in before || (k.at == now && IsIpv4(t, k.subnet)))
    && (forall k :: k in before ==> after[k] == before[k])
    && (forall n :: IsIpv4(t, n) ==> Key(n, now) !in before && UsageIs(t, n, after[Key(n, now)]))
  }

  /** A capture happens exactly when it is due, and then takes every IPv4 subnet. */
  lemma CaptureExactly(t: Tables, r: Reports, now: Time)
    requires Sound(r)
    ensures Capture(t, r, now).Ok?
    ensures var r' := Capture(t, r, now).value;
            if IsDue(r.settings, now)
            then r'.settings == r.settings.(lastSnapshot := Some(now)) && TakesAll(t, now, r.rows, r'.rows)
            else r' == r
  {
    CaptureNeverConflicts(t, r, now);
    forall n | IsV4(t, n)
      ensures UsageIs(t, n, Measure(t, n))
    {
      MeasureExactly(t, n);
    }
  }

  // ----- runs

  datatype Event =
    | Manage(op: Op)
    | CaptureAt(now: Time)
    | ExpireAt(now: Time)
    | Update(cadence: string, days: int)

  /** A capture that was due: when, under which cadence, and of which subnets. */
  datatype Taken = Taken(at: Time, cadence: Cadence, subnets: set<SubnetId>)

  datatype State = State(ipam: Tables, reports: Reports, log: seq<Taken>)

  const START := State(EMPTY, Reports(Settings(Hourly, 30, None), map[]), [])

  function V4Subnets(t: Tables): set<SubnetId> {
    set n | n in t.subnets && IsV4(t, n)
  }

  function Do(s: State, e: Event): State {
    match e
    case Manage(op) =>
      var t := After(s.ipam, op);
      s.(ipam := t, reports := WithoutDeleted(s.reports, t))
    case CaptureAt(now) =>
      (match Capture(s.ipam, s.reports, now)
       case Ok(r) =>
         s.(reports := r,
            log := if !Due(s.reports.settings, now) then s.log
                   else s.log + [Taken(now, s.reports.settings.cadence, V4Subnets(s.ipam))])
       case Err(_) => s)
    case ExpireAt(now) => s.(reports := Expire(s.reports, now))
    case Update(cadence, days) =>
      (match Configure(s.reports, cadence, days)
       case Ok(r) => s.(reports := r)
       case Err(_) => s)
  }

  /** Any replica may run any statement at any moment, by any clock. */
  function Run(events: seq<Event>): State
    decreases |events|
  {
    if events == [] then START else Do(Run(events[..|events| - 1]), events[|events| - 1])
  }

  /** The address-management calls among the events. */
  function CallsOf(events: seq<Event>): seq<Op>
    decreases |events|
  {
    if events == [] then []
    else CallsOf(events[..|events| - 1]) + if events[|events| - 1].Manage? then [events[|events| - 1].op] else []
  }

  /** Reporting reads the tables as the calls leave them, and changes none. */
  lemma {:induction false} TablesFollowCalls(events: seq<Event>)
    ensures Run(events).ipam == Ipam.Run(EMPTY, CallsOf(events))
    decreases |events|
  {
    if events != [] {
      var before, e := events[..|events| - 1], events[|events| - 1];
      TablesFollowCalls(before);
      if e.Manage? {
        assert (CallsOf(before) + [e.op])[..|CallsOf(before)|] == CallsOf(before);
      } else {
        assert CallsOf(events) == CallsOf(before);
      }
    }
  }

  ghost predicate Spaced(log: seq<Taken>) {
    forall i, j :: 0 <= i < j < |log| ==> log[i].at + Length(log[j].cadence) <= log[j].at
  }

  ghost predicate LogOk(s: State) {
    && Spaced(s.log)
    && (s.log == [] <==> s.reports.settings.lastSnapshot.None?)
    && (s.log != [] ==> s.reports.settings.lastSnapshot == Some(s.log[|s.log| - 1].at))
  }

  lemma DoKeepsSound(s: State, e: Event)
    requires Sound(s.reports)
    ensures Sound(Do(s, e).reports)
  {
    if e.CaptureAt? {
      CaptureNeverConflicts(s.ipam, s.reports, e.now);
    }
  }

  lemma DoKeepsLog(s: State, e: Event)
    requires Sound(s.reports) && LogOk(s)
    ensures LogOk(Do(s, e))
  {
    if e.CaptureAt? && Due(s.reports.settings, e.now) {
      CaptureNeverConflicts(s.ipam, s.reports, e.now);
      var log, log' := s.log, Do(s, e).log;
      forall i, j | 0 <= i < j < |log'|
        ensures log'[i].at + Length(log'[j].cadence) <= log'[j].at
      {
        if j == |log| && i < |log| - 1 {
          assert log[i].at + Length(log[|log| - 1].cadence) <= log[|log| - 1].at;
        }
      }
    }
  }

  lemma {:induction false} RunIsSound(events: seq<Event>)
    ensures var s := Run(events); Sound(s.reports) && LogOk(s) && Inv(s.ipam)
    decreases |events|
  {
    if events != [] {
      var before, e := events[..|events| - 1], events[|events| - 1];
      RunIsSound(before);
      DoKeepsSound(Run(before), e);
      DoKeepsLog(Run(before), e);
      if e.Manage? { ExecKeepsInv(Run(before).ipam, e.op); }
    }
  }

  /**
   * In every run, over any replicas and clocks, each capture comes at least the cadence then in
   * force after every earlier one; so n captures after another one take at least n hours.
   */
  lemma CapturesAreSpaced(events: seq<Event>, i: nat, j: nat)
    requires i < j < |Run(events).log|
    ensures var log := Run(events).log;
            log[i].at + Length(log[j].cadence) <= log[j].at && log[i].at + (j - i) * HOUR <= log[j].at
  {
    RunIsSound(events);
    HourlySpacing(Run(events).log, i, j);
  }

  lemma {:induction false} HourlySpacing(log: seq<Taken>, i: nat, j: nat)
    requires Spaced(log) && i <= j < |log|
    ensures log[i].at + (j - i) * HOUR <= log[j].at
    decreases j
  {
    if i < j {
      HourlySpacing(log, i, j - 1);
      assert log[j - 1].at + Length(log[j].cadence) <= log[j].at;
    }
  }

  /** What a capture does to the whole state. */
  ghost predicate CapturesAt(s: State, now: Time, s': State) {
    if IsDue(s.reports.settings, now)
    then && s'.ipam == s.ipam && s'.reports.settings == s.reports.settings.(lastSnapshot := Some(now))
         && s'.log == s.log + [Taken(now, s.reports.settings.cadence, Ipv4Subnets(s.ipam))]
         && TakesAll(s.ipam, now, s.reports.rows, s'.reports.rows)
    else s' == s
  }

  lemma CaptureDoes(s: State, now: Time)
    requires Sound(s.reports)
    ensures CapturesAt(s, now, Do(s, CaptureAt(now)))
  {
    CaptureExactly(s.ipam, s.reports, now);
    assert V4Subnets(s.ipam) == Ipv4Subnets(s.ipam);
  }

  /**
   * After any run a capture happens exactly when none has happened yet or the cadence has
   * passed, and then stores one row for each IPv4 subnet, with its usage at that moment, and
   * touches no other row.
   */
  lemma DueCaptureStoresAll(events: seq<Event>, now: Time)
    ensures CapturesAt(Run(events), now, Run(events + [CaptureAt(now)]))
  {
    RunIsSound(events);
    assert (events + [CaptureAt(now)])[..|events|] == events;
    CaptureDoes(Run(events), now);
  }

  // ----- the policy in force

  /** An update that the service accepts. */
  predicate IsAccepted(e: Event) {
    e.Update? && e.cadence in {"hourly", "daily", "weekly"} && 1 <= e.days <= 180
  }

  /** The k-th event is the last accepted update. */
  ghost predicate LastAccepted(events: seq<Event>, k: nat) {
    k < |events| && IsAccepted(events[k]) && forall j :: k < j < |events| ==> !IsAccepted(events[j])
  }

  predicate PolicyIs(s: Settings, cadence: string, days: int) {
    s.retentionDays == days
    && match s.cadence
       case Hourly => cadence == "hourly"
       case Daily => cadence == "daily"
       case Weekly => cadence == "weekly"
  }

  lemma PolicyStep(s: State, e: Event)
    ensures var before, after := s.reports.settings, Do(s, e).reports.settings;
            if IsAccepted(e) then PolicyIs(after, e.cadence, e.days)
            else after.cadence == before.cadence && after.retentionDays == before.retentionDays
  {
  }

  /** The policy in force is that of the last accepted update, or hourly and 30 days before any. */
  ghost predicate PolicyFollows(events: seq<Event>) {
    var s := Run(events).reports.settings;
    && (forall k: nat :: LastAccepted(events, k) ==> PolicyIs(s, events[k].cadence, events[k].days))
    && ((forall k: nat :: !LastAccepted(events, k)) ==> PolicyIs(s, "hourly", 30))
  }

  lemma LastAcceptedStays(events: seq<Event>, k: nat)
    requires events != [] && !IsAccepted(events[|events| - 1])
    ensures LastAccepted(events, k) <==> LastAccepted(events[..|events| - 1], k)
  {
    var before := events[..|events| - 1];
    assert forall j :: 0 <= j < |before| ==> before[j] == events[j];
  }

  lemma KeptPolicy(events: seq<Event>)
    requires events != [] && !IsAccepted(events[|events| - 1]) && PolicyFollows(events[..|events| - 1])
    requires forall k: nat :: LastAccepted(events, k) <==> LastAccepted(events[..|events| - 1], k)
    ensures PolicyFollows(events)
  {
    var m := |events| - 1;
    PolicyStep(Run(events[..m]), events[m]);
    if k: nat :| LastAccepted(events[..m], k) {
      assert LastAccepted(events, k);
    }
  }

  lemma {:induction false} PolicyIsLastAccepted(events: seq<Event>)
    ensures PolicyFollows(events)
    decreases |events|
  {
    if events != [] {
      var m: nat := |events| - 1;
      PolicyIsLastAccepted(events[..m]);
      PolicyStep(Run(events[..m]), events[m]);
      if IsAccepted(events[m]) {
        assert LastAccepted(events, m);
      } else {
        forall k: nat
          ensures LastAccepted(events, k) <==> LastAccepted(events[..m], k)
        {
          LastAcceptedStays(events, k);
        }
        assert forall k: nat :: LastAccepted(events, k) ==> events[..m][k] == events[k];
        KeptPolicy(events);
      }
    }
  }

  // ----- what is retained

  /** The k-th event captured the subnet at that time. */
  ghost predicate CapturedBy(events: seq<Event>, k: nat, key: Key) {
    && k < |events| && events[k] == CaptureAt(key.at)
    && IsDue(Run(events[..k]).reports.settings, key.at)
    && IsIpv4(Run(events[..k]).ipam, key.subnet)
  }

  /** The event leaves a row with this key alone. */
  ghost predicate Spares(s: State, e: Event, key: Key) {
    match e
    case Manage(op) => key.subnet in After(s.ipam, op).subnets
    case ExpireAt(now) => key.at >= now - s.reports.settings.retentionDays * 86400
    case _ => true
  }

  ghost predicate SparedSince(events: seq<Event>, k: nat, key: Key) {
    forall j :: k < j < |events| ==> Spares(Run(events[..j]), events[j], key)
  }

  ghost predicate Stored(events: seq<Event>, k: nat, key: Key) {
    CapturedBy(events, k, key) && SparedSince(events, k, key)
  }

  lemma StoredStep(events: seq<Event>, k: nat, key: Key)
    requires events != []
    ensures var m := |events| - 1;
            Stored(events, k, key) <==>
            (k < m && Stored(events[..m], k, key) && Spares(Run(events[..m]), events[m], key))
              || (k == m && CapturedBy(events, m, key))
  {
    var m := |events| - 1;
    var before := events[..m];
    forall j: nat | j <= m
      ensures j <= |before| && before[..j] == events[..j]
    {
    }
    if k < m {
      assert before[k] == events[k];
      if Stored(before, k, key) && Spares(Run(events[..m]), events[m], key) {
        forall j | k < j < |events|
          ensures Spares(Run(events[..j]), events[j], key)
        {
          if j < m {
            assert before[..j] == events[..j] && before[j] == events[j];
            assert Spares(Run(before[..j]), before[j], key);
          }
        }
      }
      if Stored(events, k, key) {
        assert Spares(Run(events[..m]), events[m], key);
        forall j | k < j < |before|
          ensures Spares(Run(before[..j]), before[j], key)
        {
          assert before[..j] == events[..j] && before[j] == events[j];
          assert Spares(Run(events[..j]), events[j], key);
        }
      }
    }
  }

  lemma StoredAfter(events: seq<Event>, key: Key)
    requires events != []
    ensures var m := |events| - 1;
            (exists k: nat :: Stored(events, k, key)) <==>
            ((exists k: nat :: Stored(events[..m], k, key)) && Spares(Run(events[..m]), events[m], key))
              || CapturedBy(events, m, key)
  {
    var m := |events| - 1;
    if k: nat :| Stored(events, k, key) {
      StoredStep(events, k, key);
    }
    if k: nat :| Stored(events[..m], k, key) {
      StoredStep(events, k, key);
    }
    StoredStep(events, m, key);
  }

  /**
   * In every run a row is stored exactly when a due capture recorded it and neither a cleanup
   * with a later cutoff nor the deletion of its subnet has come since.
   */
  lemma {:induction false} RetainedExactly(events: seq<Event>, key: Key)
    ensures key in Run(events).reports.rows <==> exists k: nat :: Stored(events, k, key)
    decreases |events|
  {
    if events != [] {
      var m := |events| - 1;
      RetainedExactly(events[..m], key);
      RunIsSound(events[..m]);
      RetainedStep(Run(events[..m]), events[m], key);
      StoredAfter(events, key);
    }
  }

  ghost predicate ValueIs(events: seq<Event>, k: nat, key: Key)
    requires CapturedBy(events, k, key)
  {
    key in Run(events).reports.rows && UsageIs(Run(events[..k]).ipam, key.subnet, Run(events).reports.rows[key])
  }

  /** A stored row holds the usage of the moment of its capture. */
  lemma {:induction false} RetainedValue(events: seq<Event>, k: nat, key: Key)
    requires Stored(events, k, key)
    ensures ValueIs(events, k, key)
    decreases |events|
  {
    var m := |events| - 1;
    StoredStep(events, k, key);
    if k < m {
      RetainedValue(events[..m], k, key);
      LaterEventKeeps(events, k, key);
    } else {
      RunIsSound(events[..m]);
      RetainedStep(Run(events[..m]), events[m], key);
    }
  }

  lemma LaterEventKeeps(events: seq<Event>, k: nat, key: Key)
    requires k < |events| - 1 && Stored(events, k, key) && CapturedBy(events[..|events| - 1], k, key)
    requires ValueIs(events[..|events| - 1], k, key)
    ensures ValueIs(events, k, key)
  {
    var m := |events| - 1;
    assert events[..m][..k] == events[..k];
    NextEventKeeps(events, key);
  }

  lemma NextEventKeeps(events: seq<Event>, key: Key)
    requires events != [] && key in Run(events[..|events| - 1]).reports.rows
    requires Spares(Run(events[..|events| - 1]), events[|events| - 1], key)
    ensures key in Run(events).reports.rows
            && Run(events).reports.rows[key] == Run(events[..|events| - 1]).reports.rows[key]
  {
    RunIsSound(events[..|events| - 1]);
    RowStays(Run(events[..|events| - 1]), events[|events| - 1], key);
  }

  /** A row that an event spares stays as it is. */
  lemma RowStays(s: State, e: Event, key: Key)
    requires Sound(s.reports) && key in s.reports.rows && Spares(s, e, key)
    ensures key in Do(s, e).reports.rows && Do(s, e).reports.rows[key] == s.reports.rows[key]
  {
    if e.CaptureAt? {
      CaptureNeverConflicts(s.ipam, s.reports, e.now);
    }
  }

  lemma RetainedStep(s: State, e: Event, key: Key)
    requires Sound(s.reports)
    ensures var taken := e == CaptureAt(key.at) && IsDue(s.reports.settings, key.at) && IsIpv4(s.ipam, key.subnet);
            && (key in Do(s, e).reports.rows <==> (key in s.reports.rows && Spares(s, e, key)) || taken)
            && (taken ==> key !in s.reports.rows && UsageIs(s.ipam, key.subnet, Do(s, e).reports.rows[key]))
            && (!taken && key in Do(s, e).reports.rows ==> Do(s, e).reports.rows[key] == s.reports.rows[key])
  {
    if e.CaptureAt? {
      CaptureExactly(s.ipam, s.reports, e.now);
    }
  }

  // ----- the totals of snapshots and of the subnet list

  /**
   * While the IP rows fit their subnet, the snapshot's total is the size of the prefix, which
   * is two more than the total shown for the subnet, or the same for a /31 and a /32.
   */
  lemma SnapshotTotalIsSize(t: Tables, n: SubnetId)
    requires Inv(t) && Contained(t) && IsV4(t, n)
    ensures var cidr := t.subnets[n].cidr;
            && Measure(t, n).total == Size(cidr)
            && Measure(t, n).total - TotalIPs(SubnetCapacity(cidr), Used(t, n)) == if cidr.bits < 31 then 2 else 0
  {
    UsedWithinCapacity(t, n);
    assert Pow2(1) == 2;
  }

  // ----- the service

  datatype Point = Point(at: Time, usage: Usage)

  datatype History = History(subnet: SubnetId, from: Time, to: Time, cadence: Cadence, points: seq<Point>)

  datatype HistoryError = BadRange | SubnetNotFound | Ipv6Unsupported

  function RangeLength(text: string): Option<int> {
    if text == "24h" then Some(DAY)
    else if text == "7d" then Some(7 * DAY)
    else if text == "30d" then Some(30 * DAY)
    else if text == "90d" then Some(90 * DAY)
    else if text == "180d" then Some(180 * DAY)
    else None
  }

  /** The text names a window of that many seconds. */
  predicate IsRange(text: string, seconds: int) {
    || (text == "24h" && seconds == 86400)
    || (text == "7d" && seconds == 604800)
    || (text == "30d" && seconds == 2592000)
    || (text == "90d" && seconds == 7776000)
    || (text == "180d" && seconds == 15552000)
  }

  predicate InWindow(k: Key, n: SubnetId, from: Time, to: Time) {
    k.subnet == n && from <= k.at <= to
  }

  /** Strictly ascending, and exactly the stored rows of the subnet in the window. */
  ghost predicate IsWindow(rows: map<Key, Usage>, n: SubnetId, from: Time, to: Time, points: seq<Point>) {
    && (forall i, j :: 0 <= i < j < |points| ==> points[i].at < points[j].at)
    && (forall i :: 0 <= i < |points| ==>
          from <= points[i].at <= to && Key(n, points[i].at) in rows && rows[Key(n, points[i].at)] == points[i].usage)
    && (forall k :: k in rows && k.subnet == n && from <= k.at <= to ==> Point(k.at, rows[k]) in points)
  }

  lemma {:induction false} HasEarliest(keys: set<Key>) returns (m: Key)
    requires keys != {}
    ensures m in keys && forall k :: k in keys ==> m.at <= k.at
  {
    m :| m in keys;
    var rest := keys - {m};
    assert forall k :: k in keys ==> k == m || k in rest;
    if rest != {} {
      var k := HasEarliest(rest);
      if k.at < m.at { m := k; }
    }
  }

  /** The rows after a capture: with one for each IPv4 subnet if it was due, else as before. */
  ghost predicate TakenFrom(r: Reports, t: Tables, now: Time, rows: map<Key, Usage>) {
    if IsDue(r.settings, now) then TakesAll(t, now, r.rows, rows) else rows == r.rows
  }

  lemma CapturedExactly(r: Reports, t: Tables, now: Time)
    requires Sound(r)
    ensures TakenFrom(r, t, now, Captured(r, t, now))
    ensures |TakenRows(r.settings, t, now)|
            == if IsDue(r.settings, now) then |Ipv4Subnets(t)| else 0
  {
    CaptureExactly(t, r, now);
    CapturedRows(r, t, now);
    if IsDue(r.settings, now) {
      NewRowCount(t, now);
    }
  }

  lemma CapturedRows(r: Reports, t: Tables, now: Time)
    requires Sound(r)
    ensures Captured(r, t, now) == Capture(t, r, now).value.rows
  {
    CaptureNeverConflicts(t, r, now);
    assert r.rows + map[] == r.rows;
  }

  lemma NewRowCount(t: Tables, now: Time)
    ensures |NewRows(t, now)| == |Ipv4Subnets(t)|
  {
    var ns := Ipv4Subnets(t);
    var keys := NewRows(t, now).Keys;
    assert |keys| == |NewRows(t, now)|;
    KeysOf(ns, now);
    assert keys == set n | n in ns :: Key(n, now);
  }

  lemma {:induction false} KeysOf(ns: set<SubnetId>, now: Time)
    ensures |set n | n in ns :: Key(n, now)| == |ns|
  {
    if ns != {} {
      var x :| x in ns;
      KeysOf(ns - {x}, now);
      assert (set n | n in ns :: Key(n, now)) == (set n | n in ns - {x} :: Key(n, now)) + {Key(x, now)};
    }
  }

  /** The rows a capture inserts: none unless it is due. */
  function TakenRows(s: Settings, t: Tables, now: Time): map<Key, Usage> {
    if Due(s, now) then NewRows(t, now) else map[]
  }

  /** The rows after a capture. */
  function Captured(r: Reports, t: Tables, now: Time): map<Key, Usage> {
    r.rows + TakenRows(r.settings, t, now)
  }

  /** Exactly the rows from the cutoff on, unchanged. */
  ghost predicate IsRetained(before: map<Key, Usage>, cutoff: Time, after: map<Key, Usage>) {
    && (forall k :: k in after <==> k in before && k.at >= cutoff)
    && (forall k :: k in after ==> after[k] == before[k])
  }

  class ReportingService {
    var reports: Reports

    constructor (reports: Reports)
      ensures this.reports == reports
    {
      this.reports := reports;
    }

    /**
     * Refuses exactly the cadences and retentions outside the documented ones and then changes
     * nothing. Otherwise it takes them over and leaves the stored rows and the time of the last
     * capture alone, so neither history is lost nor a capture brought forward by a reset.
     */
    method UpdateSettings(cadence: string, days: int) returns (r: Result<Settings, Error>)
      modifies this
      ensures r.Ok? <==> cadence in {"hourly", "daily", "weekly"} && 1 <= days <= 180
      ensures r.Err? ==> r.error == InvalidInput && reports == old(reports)
      ensures r.Ok? ==>
                && r.value == reports.settings
                && reports.rows == old(reports).rows
                   && reports.settings.lastSnapshot == old(reports).settings.lastSnapshot
                && reports.settings.retentionDays == days
                && Length(reports.settings.cadence)
                    == if cadence == "hourly" then 3600 else if cadence == "daily" then 86400 else 604800
      ensures Sound(old(reports)) ==> Sound(reports)
      ensures Configure(old(reports), cadence, days) == if r.Ok? then Ok(reports) else Err(r.error)
    {
      var parsed := ParseCadence(cadence);
      if parsed.None? {
        return Err(InvalidInput);
      }
      if days < MIN_RETENTION_DAYS || days > MAX_RETENTION_DAYS {
        return Err(InvalidInput);
      }
      reports := reports.(settings := reports.settings.(cadence := parsed.value, retentionDays := days));
      return Ok(reports.settings);
    }

    /**
     * Captures if due, then cleans up. Afterwards exactly the rows, old or new, that are not
     * older than the retention are left; the counts say how many came and went. A failed
     * cleanup still reports how many came.
     */
    method RunSnapshotCycle(t: Tables, captureAt: Time, captureDown: bool, expireAt: Time, expireDown: bool)
      returns (captured: nat, deleted: nat, error: Option<Error>)
      requires Sound(reports)
      modifies this
      ensures Sound(reports)
      ensures error == if captureDown || expireDown then Some(DatabaseError) else None
      ensures captureDown ==> reports == old(reports) && captured == 0 && deleted == 0
      ensures !captureDown ==>
                captured == if IsDue(old(reports).settings, captureAt) then |Ipv4Subnets(t)| else 0
      ensures !captureDown ==> TakenFrom(old(reports), t, captureAt, Captured(old(reports), t, captureAt))
      ensures !captureDown && expireDown ==> reports.rows == Captured(old(reports), t, captureAt) && deleted == 0
      ensures !captureDown && !expireDown ==>
                && IsRetained(Captured(old(reports), t, captureAt), expireAt - reports.settings.retentionDays * 86400,
                              reports.rows)
                && deleted == |Captured(old(reports), t, captureAt)| - |reports.rows|
      ensures reports.settings ==
              if !captureDown && IsDue(old(reports).settings, captureAt)
              then old(reports).settings.(lastSnapshot := Some(captureAt)) else old(reports).settings
    {
      if captureDown {
        return 0, 0, Some(DatabaseError);
      }
      captured := CaptureDueSnapshots(t, captureAt);
      if expireDown {
        return captured, 0, Some(DatabaseError);
      }
      deleted := DeleteExpiredSnapshots(expireAt);
      return captured, deleted, None;
    }

    method CaptureDueSnapshots(t: Tables, now: Time) returns (captured: nat)
      requires Sound(reports)
      modifies this
      ensures Sound(reports)
      ensures reports.settings ==
              if IsDue(old(reports).settings, now) then old(reports).settings.(lastSnapshot := Some(now))
                 else old(reports).settings
      ensures reports.rows == Captured(old(reports), t, now) && TakenFrom(old(reports), t, now, reports.rows)
      ensures captured == if IsDue(old(reports).settings, now) then |Ipv4Subnets(t)| else 0
    {
      CaptureNeverConflicts(t, reports, now);
      CapturedExactly(reports, t, now);
      captured := |TakenRows(reports.settings, t, now)|;
      reports := Capture(t, reports, now).value;
    }

    method DeleteExpiredSnapshots(now: Time) returns (deleted: nat)
      requires Sound(reports)
      modifies this
      ensures Sound(reports) && reports.settings == old(reports).settings
      ensures IsRetained(old(reports).rows, now - reports.settings.retentionDays * 86400, reports.rows)
      ensures deleted == |old(reports).rows| - |reports.rows|
    {
      var after := Expire(reports, now);
      SubsetSize(after.rows.Keys, reports.rows.Keys);
      deleted := |reports.rows| - |after.rows|;
      reports := after;
    }

    /** The stored points of the window, ascending. */
    method GetSubnetUsageHistory(t: Tables, subnet: SubnetId, text: string, now: Time)
      returns (r: Result<History, HistoryError>)
      ensures r == Err(BadRange) <==> text !in {"24h", "7d", "30d", "90d", "180d"}
      ensures r == Err(SubnetNotFound) <==> text in {"24h", "7d", "30d", "90d", "180d"} && subnet !in t.subnets
      ensures r == Err(Ipv6Unsupported) <==>
                text in {"24h", "7d", "30d", "90d", "180d"} && subnet in t.subnets
                  && t.subnets[subnet].cidr.addr.family.V6?
      ensures r.Ok? ==>
                && r.value.subnet == subnet && r.value.cadence == reports.settings.cadence
                && IsRange(text, r.value.to - r.value.from) && r.value.to == now
                && IsWindow(reports.rows, subnet, r.value.from, now, r.value.points)
    {
      var duration := RangeLength(text);
      if duration.None? {
        return Err(BadRange);
      }
      if subnet !in t.subnets {
        return Err(SubnetNotFound);
      }
      if !t.subnets[subnet].cidr.addr.family.V4? {
        return Err(Ipv6Unsupported);
      }
      var points := ListSnapshots(subnet, now - duration.value, now);
      return Ok(History(subnet, now - duration.value, now, reports.settings.cadence, points));
    }

    method ListSnapshots(subnet: SubnetId, from: Time, to: Time) returns (points: seq<Point>)
      ensures IsWindow(reports.rows, subnet, from, to, points)
    {
      points := [];
      var pending := set k | k in reports.rows && InWindow(k, subnet, from, to);
      while pending != {}
        invariant forall k :: k in pending ==> k in reports.rows && InWindow(k, subnet, from, to)
        invariant forall i, k :: 0 <= i < |points| && k in pending ==> points[i].at < k.at
        invariant Window(subnet, from, to, points)
        invariant forall k :: k in reports.rows && InWindow(k, subnet, from, to) ==>
                    k in pending || Point(k.at, reports.rows[k]) in points
        decreases pending
      {
        ghost var first := HasEarliest(pending);
        var next :| next in pending && forall k :: k in pending ==> next.at <= k.at;
        points := points + [Point(next.at, reports.rows[next])];
        pending := pending - {next};
      }
    }

    /** The points are stored rows of the window in strictly ascending order. */
    ghost predicate Window(subnet: SubnetId, from: Time, to: Time, points: seq<Point>)
      reads this
    {
      && (forall i, j :: 0 <= i < j < |points| ==> points[i].at < points[j].at)
      && (forall i :: 0 <= i < |points| ==>
            var k := Key(subnet, points[i].at);
            k in reports.rows && reports.rows[k] == points[i].usage && InWindow(k, subnet, from, to))
    }
  }
}
