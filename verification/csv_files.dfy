/** Importing the same file twice, row by row, when every service call succeeds. */
module CsvFiles {
  import opened Wrappers
  import opened Ipam
  import opened CsvUpsert
  import opened CsvConvergence
  import opened CsvImport

  type Outcomes = seq<Result<Outcome, Problem>>

  function NoOutages(n: nat): seq<Outages> {
    seq(n, _ => NO_OUTAGES)
  }

  ghost function ImportRows(p: Parser, t: Tables, rows: seq<Row>): (Tables, Outcomes) {
    RowsSpec(p, t, rows, NoOutages(|rows|))
  }

  /** The entries of the valid rows, in file order. */
  ghost function Entries(p: Parser, rows: seq<Row>): seq<Entry>
    decreases |rows|
  {
    if rows == [] then []
    else
      var e := ParseRow(p, rows[|rows| - 1]);
      Entries(p, rows[..|rows| - 1]) + if e.Ok? then [e.value] else []
  }

  lemma {:induction false} EntriesValid(p: Parser, rows: seq<Row>)
    ensures AllValid(Entries(p, rows))
    decreases |rows|
  {
    if rows != [] {
      EntriesValid(p, rows[..|rows| - 1]);
      if ParseRow(p, rows[|rows| - 1]).Ok? {
        ParsedIsValid(p, rows[|rows| - 1].fields);
      }
    }
  }

  lemma ImportRowsStep(p: Parser, t: Tables, rows: seq<Row>)
    requires rows != []
    ensures var k := |rows| - 1; var (t1, outcomes) := ImportRows(p, t, rows[..k]);
            var s := RowSpec(p, t1, rows[k], NO_OUTAGES);
            ImportRows(p, t, rows) == (s.tables, outcomes + [s.outcome])
  {
    var k := |rows| - 1;
    assert NoOutages(|rows|)[..k] == NoOutages(k);
  }

  /** The rows do to the tables what their entries do. */
  lemma {:induction false} RowsAreEntries(p: Parser, t: Tables, rows: seq<Row>)
    ensures ImportRows(p, t, rows).0 == ImportEntries(t, Entries(p, rows)) && |ImportRows(p, t, rows).1| == |rows|
    decreases |rows|
  {
    if rows != [] {
      var k := |rows| - 1;
      RowsAreEntries(p, t, rows[..k]);
      ImportRowsStep(p, t, rows);
      var es := Entries(p, rows[..k]);
      if ParseRow(p, rows[k]).Ok? {
        assert (es + [ParseRow(p, rows[k]).value])[..|es|] == es;
      } else {
        assert Entries(p, rows) == es;
      }
    }
  }

  lemma {:induction false} EntriesPrefix(p: Parser, rows: seq<Row>, i: nat)
    requires i <= |rows|
    ensures |Entries(p, rows[..i])| <= |Entries(p, rows)|
            && Entries(p, rows)[..|Entries(p, rows[..i])|] == Entries(p, rows[..i])
    decreases |rows|
  {
    if i == |rows| {
      assert rows[..i] == rows;
    } else {
      var k := |rows| - 1;
      EntriesPrefix(p, rows[..k], i);
      assert rows[..k][..i] == rows[..i];
    }
  }

  /** What the row comes to after the entries before it. */
  ghost function OutcomeAfter(p: Parser, t: Tables, rows: seq<Row>, i: nat): Result<Outcome, Problem>
    requires i < |rows|
  {
    RowSpec(p, ImportEntries(t, Entries(p, rows[..i])), rows[i], NO_OUTAGES).outcome
  }

  /** A row's outcome depends on the rows before it only. */
  lemma {:induction false} OutcomeAt(p: Parser, t: Tables, rows: seq<Row>, i: nat)
    requires i < |rows|
    ensures |ImportRows(p, t, rows).1| == |rows|
    ensures ImportRows(p, t, rows).1[i] == OutcomeAfter(p, t, rows, i)
    decreases |rows|
  {
    LastOutcome(p, t, rows);
    if i < |rows| - 1 {
      OutcomeAt(p, t, rows[..|rows| - 1], i);
      EarlierOutcome(p, t, rows, i);
      SameOutcomeAfter(p, t, rows, i);
    }
  }

  lemma EarlierOutcome(p: Parser, t: Tables, rows: seq<Row>, i: nat)
    requires i < |rows| - 1
    ensures |ImportRows(p, t, rows).1| == |rows| && |ImportRows(p, t, rows[..|rows| - 1]).1| == |rows| - 1
    ensures ImportRows(p, t, rows).1[i] == ImportRows(p, t, rows[..|rows| - 1]).1[i]
  {
    LastOutcome(p, t, rows);
    var outcomes := ImportRows(p, t, rows).1;
    assert outcomes[..|rows| - 1][i] == outcomes[i];
  }

  lemma SameOutcomeAfter(p: Parser, t: Tables, rows: seq<Row>, i: nat)
    requires i < |rows| - 1
    ensures OutcomeAfter(p, t, rows[..|rows| - 1], i) == OutcomeAfter(p, t, rows, i)
  {
    assert rows[..|rows| - 1][..i] == rows[..i];
  }

  /** The outcomes before the last stay; the last is its row's after the entries before it. */
  lemma LastOutcome(p: Parser, t: Tables, rows: seq<Row>)
    requires rows != []
    ensures var k := |rows| - 1; var outcomes := ImportRows(p, t, rows).1;
            && |outcomes| == |rows| && |ImportRows(p, t, rows[..k]).1| == k
            && outcomes[..k] == ImportRows(p, t, rows[..k]).1
            && outcomes[k] == OutcomeAfter(p, t, rows, k)
  {
    RowsAreEntries(p, t, rows[..|rows| - 1]);
    ImportRowsStep(p, t, rows);
  }

  /** With every call succeeding a row fails exactly when it does not parse. */
  lemma FailsIffUnparsed(p: Parser, t: Tables, rows: seq<Row>, i: nat)
    requires Inv(t) && i < |rows|
    ensures |ImportRows(p, t, rows).1| == |rows|
    ensures var outcome := ImportRows(p, t, rows).1[i];
            && (outcome.Err? <==> ParseRow(p, rows[i]).Err?)
            && (outcome.Err? ==> outcome.error == ParseRow(p, rows[i]).error)
  {
    OutcomeAt(p, t, rows, i);
    EntriesValid(p, rows[..i]);
    FirstRunInv(t, Entries(p, rows[..i]));
    RowIsolation(p, ImportEntries(t, Entries(p, rows[..i])), rows[i], NO_OUTAGES);
  }

  lemma SecondRunAt(p: Parser, once: Tables, rows: seq<Row>, i: nat)
    requires i < |rows| && ParseRow(p, rows[i]).Ok?
    ensures |ImportRows(p, once, rows).1| == |rows|
    ensures var es, m := Entries(p, rows), |Entries(p, rows[..i])|;
            && m < |es| && SecondOutcome(once, es, m).Ok? == ImportRows(p, once, rows).1[i].Ok?
            && (SecondOutcome(once, es, m).Ok? ==>
                ImportRows(p, once, rows).1[i] == Ok(SecondOutcome(once, es, m).value))
  {
    OutcomeAt(p, once, rows, i);
    EntriesPrefix(p, rows, i);
    EntriesPrefix(p, rows, i + 1);
    assert rows[..i + 1][..i] == rows[..i];
    var es, m := Entries(p, rows), |Entries(p, rows[..i])|;
    assert Entries(p, rows[..i + 1]) == Entries(p, rows[..i]) + [ParseRow(p, rows[i]).value];
    assert es[m] == es[..m + 1][m] == ParseRow(p, rows[i]).value;
  }

  ghost predicate SameVerdictAt(a: Outcomes, b: Outcomes, i: nat)
    requires i < |a| && i < |b|
  {
    (a[i].Err? <==> b[i].Err?) && (a[i].Err? ==> a[i].error == b[i].error)
  }

  lemma {:induction false} SameErrors(a: Outcomes, b: Outcomes)
    requires |a| == |b|
    requires forall i: nat :: i < |a| ==> SameVerdictAt(a, b, i)
    ensures ErrorsOf(a) == ErrorsOf(b)
    decreases |a|
  {
    if a != [] {
      var k := |a| - 1;
      assert SameVerdictAt(a, b, k);
      forall i: nat | i < k
        ensures SameVerdictAt(a[..k], b[..k], i)
      {
        assert SameVerdictAt(a, b, i);
      }
      SameErrors(a[..k], b[..k]);
    }
  }

  lemma {:induction false} CountZero(outcomes: Outcomes, x: Outcome)
    ensures CountOutcome(outcomes, x) == 0 <==> forall i :: 0 <= i < |outcomes| ==> outcomes[i] != Ok(x)
    decreases |outcomes|
  {
    if outcomes != [] {
      var before := outcomes[..|outcomes| - 1];
      CountZero(before, x);
      assert forall i :: 0 <= i < |before| ==> before[i] == outcomes[i];
    }
  }

  /** Every entry comes from a row. */
  lemma {:induction false} RowOfEntry(p: Parser, rows: seq<Row>, m: nat) returns (i: nat)
    requires m < |Entries(p, rows)|
    ensures i < |rows| && ParseRow(p, rows[i]).Ok? && |Entries(p, rows[..i])| == m
    decreases |rows|
  {
    var k := |rows| - 1;
    if m < |Entries(p, rows[..k])| {
      i := RowOfEntry(p, rows[..k], m);
      assert rows[..k][..i] == rows[..i];
    } else {
      i := k;
    }
  }

  lemma NothingCreatedAgain(p: Parser, t: Tables, rows: seq<Row>)
    requires Inv(t)
    ensures var outcomes := ImportRows(p, ImportRows(p, t, rows).0, rows).1;
            CountOutcome(outcomes, Created) == 0
              && (CountOutcome(outcomes, Updated) == 0 <==> Consistent(Entries(p, rows)))
  {
    var es := Entries(p, rows);
    EntriesValid(p, rows);
    RowsAreEntries(p, t, rows);
    var once := ImportEntries(t, es);
    SecondRunOutcomes(t, es);
    RowsAreEntries(p, once, rows);
    FirstRunInv(t, es);
    var outcomes := ImportRows(p, once, rows).1;
    forall i: nat | i < |rows|
      ensures outcomes[i] != Ok(Created)
      ensures ParseRow(p, rows[i]).Err? ==> outcomes[i] != Ok(Updated)
    {
      FailsIffUnparsed(p, once, rows, i);
      if ParseRow(p, rows[i]).Ok? { SecondRunAt(p, once, rows, i); }
    }
    CountZero(outcomes, Created);
    CountZero(outcomes, Updated);
    UpdatesMatch(p, once, rows);
  }

  ghost predicate NoRowUpdates(p: Parser, once: Tables, rows: seq<Row>)
    requires |ImportRows(p, once, rows).1| == |rows|
  {
    forall i: nat :: i < |rows| ==> ImportRows(p, once, rows).1[i] != Ok(Updated)
  }

  ghost predicate AllUnchanged(once: Tables, es: seq<Entry>) {
    forall m: nat :: m < |es| ==> SecondOutcome(once, es, m) == Ok(Unchanged)
  }

  lemma QuietRowsQuietEntries(p: Parser, once: Tables, rows: seq<Row>)
    requires |ImportRows(p, once, rows).1| == |rows| && NoRowUpdates(p, once, rows)
    requires forall m: nat :: m < |Entries(p, rows)| ==>
               SecondOutcome(once, Entries(p, rows), m) == Ok(Unchanged)
                 || SecondOutcome(once, Entries(p, rows), m) == Ok(Updated)
    ensures AllUnchanged(once, Entries(p, rows))
  {
    forall m: nat | m < |Entries(p, rows)|
      ensures SecondOutcome(once, Entries(p, rows), m) == Ok(Unchanged)
    {
      var i := RowOfEntry(p, rows, m);
      SecondRunAt(p, once, rows, i);
    }
  }

  lemma QuietEntriesQuietRows(p: Parser, once: Tables, rows: seq<Row>)
    requires |ImportRows(p, once, rows).1| == |rows| && AllUnchanged(once, Entries(p, rows))
    requires forall i: nat :: i < |rows| && ParseRow(p, rows[i]).Err? ==> ImportRows(p, once, rows).1[i] != Ok(Updated)
    ensures NoRowUpdates(p, once, rows)
  {
    forall i: nat | i < |rows|
      ensures ImportRows(p, once, rows).1[i] != Ok(Updated)
    {
      if ParseRow(p, rows[i]).Ok? { SecondRunAt(p, once, rows, i); }
    }
  }

  lemma UpdatesMatch(p: Parser, once: Tables, rows: seq<Row>)
    requires |ImportRows(p, once, rows).1| == |rows|
    requires forall m: nat :: m < |Entries(p, rows)| ==>
               SecondOutcome(once, Entries(p, rows), m) == Ok(Unchanged)
                 || SecondOutcome(once, Entries(p, rows), m) == Ok(Updated)
    requires forall i: nat :: i < |rows| && ParseRow(p, rows[i]).Err? ==> ImportRows(p, once, rows).1[i] != Ok(Updated)
    ensures NoRowUpdates(p, once, rows) <==> AllUnchanged(once, Entries(p, rows))
  {
    if NoRowUpdates(p, once, rows) { QuietRowsQuietEntries(p, once, rows); }
    if AllUnchanged(once, Entries(p, rows)) { QuietEntriesQuietRows(p, once, rows); }
  }

  /** Which rows fail, and why, does not depend on the tables. */
  lemma SameFailures(p: Parser, t: Tables, t': Tables, rows: seq<Row>)
    requires Inv(t) && Inv(t')
    ensures ErrorsOf(ImportRows(p, t, rows).1) == ErrorsOf(ImportRows(p, t', rows).1)
  {
    RowsAreEntries(p, t, rows);
    RowsAreEntries(p, t', rows);
    var a, b := ImportRows(p, t, rows).1, ImportRows(p, t', rows).1;
    forall i: nat | i < |rows|
      ensures SameVerdictAt(a, b, i)
    {
      FailsIffUnparsed(p, t, rows, i);
      FailsIffUnparsed(p, t', rows, i);
    }
    assert forall i: nat :: i < |a| ==> SameVerdictAt(a, b, i);
    SameErrors(a, b);
  }

  /** The tables are the same after a second import of the file. */
  lemma SameTables(p: Parser, t: Tables, rows: seq<Row>)
    requires Inv(t)
    ensures var once := ImportRows(p, t, rows).0;
            Inv(once) && ImportRows(p, once, rows).0 == once
  {
    var es := Entries(p, rows);
    EntriesValid(p, rows);
    RowsAreEntries(p, t, rows);
    RowsAreEntries(p, ImportEntries(t, es), rows);
    ReimportConverges(t, es);
    FirstRunInv(t, es);
  }

  /**
   * Importing a file twice leaves the same tables as once. The second run creates nothing,
   * fails the same rows for the same reasons, and updates nothing exactly when no address is
   * given two descriptions.
   */
  lemma FileReimportConverges(p: Parser, t: Tables, rows: seq<Row>)
    requires Inv(t)
    ensures var (once, first) := ImportRows(p, t, rows);
            var (twice, second) := ImportRows(p, once, rows);
            && twice == once
            && Summary(second).created == 0
            && Summary(second).errors == Summary(first).errors
            && (Summary(second).updated == 0 <==> Consistent(Entries(p, rows)))
  {
    SameTables(p, t, rows);
    NothingCreatedAgain(p, t, rows);
    SameFailures(p, t, ImportRows(p, t, rows).0, rows);
  }

  // ----- the importer itself

  lemma NothingWeaker(effective: seq<Outages>, n: nat, m: nat)
    requires n <= m && AllWeaker(effective, NoOutages(m)[..n])
    ensures effective == NoOutages(n)
  {
    forall i | 0 <= i < n
      ensures effective[i] == NO_OUTAGES
    {
      assert Weaker(effective[i], NoOutages(m)[..n][i]);
    }
  }

  /** One import of a file with every service call succeeding, through the caches. */
  method ImportFile(store: Store, p: Parser, rows: seq<Row>, oversize: bool)
    returns (r: Result<ImportResult, FileProblem>)
    requires Inv(store.t)
    modifies store
    ensures Inv(store.t) && store.t == ImportRows(p, old(store.t), Limited(rows)).0
    ensures r == if |rows| > MAX_ROWS then Err(TooManyRows) else if oversize then Err(TooLarge)
                 else Ok(Summary(ImportRows(p, old(store.t), rows).1))
  {
    ghost var effective;
    r, effective := ImportCSV(store, p, Some(HEADER), rows, oversize, false, NoOutages(|rows|));
    NothingWeaker(effective, |Limited(rows)|, |rows|);
    assert rows[..|Limited(rows)|] == Limited(rows);
  }

  /**
   * Importing the same file a second time changes nothing, even one that is refused as too long
   * or too large after its rows have been imported. The second result creates nothing, repeats
   * the errors, and updates nothing exactly when no address is given two descriptions.
   */
  method ImportTwice(store: Store, p: Parser, rows: seq<Row>, oversize: bool)
    returns (first: Result<ImportResult, FileProblem>, second: Result<ImportResult, FileProblem>, ghost once: Tables)
    requires Inv(store.t)
    modifies store
    ensures once == ImportRows(p, old(store.t), Limited(rows)).0 && store.t == once
    ensures first.Ok? <==> |rows| <= MAX_ROWS && !oversize
    ensures first.Err? ==> second == first
    ensures first.Ok? ==>
              && second.Ok? && second.value.processed == first.value.processed == |rows|
              && second.value.created == 0
              && second.value.errors == first.value.errors && second.value.failed == first.value.failed
              && (second.value.updated == 0 <==> Consistent(Entries(p, rows)))
  {
    ghost var start := store.t;
    first := ImportFile(store, p, rows, oversize);
    once := store.t;
    second := ImportFile(store, p, rows, oversize);
    FileReimportConverges(p, start, Limited(rows));
  }
}
