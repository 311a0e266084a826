/** The spreadsheet batch processor: a table loaded once, its rows read back as records
    with explicit nulls, one pass that hands every record to a caller-supplied function and
    tallies what came back, the listing written by the export, and the sample processing
    function that tidies a record. */
module ExcelProcessing {
  import opened Values
  import opened Text

  /** A cell as the loader delivers it; `NaN` is an empty cell. */
  datatype Cell = NaN | Filled(v: Value)

  /** `None if pd.isna(value) else value` */
  function CellValue(c: Cell): Value {
    match c
    case NaN => Null
    case Filled(v) => v
  }

  /** The record of one row: each column, in column order, with its cell's value. */
  function RowRecord(columns: seq<string>, row: seq<Cell>): Dict
    requires |row| == |columns|
  {
    seq(|columns|, k requires 0 <= k < |columns| => (columns[k], CellValue(row[k])))
  }

  /** A row's record has exactly the columns as keys, in order, and an empty cell is present
      as null rather than left out. */
  lemma RowRecordSpec(columns: seq<string>, row: seq<Cell>)
    requires |row| == |columns|
    ensures Keys(RowRecord(columns, row)) == columns
    ensures forall k :: 0 <= k < |columns| ==>
      RowRecord(columns, row)[k].1 == (if row[k].NaN? then Null else row[k].v)
    ensures Distinct(columns) ==> forall k :: 0 <= k < |columns| ==>
      Get(RowRecord(columns, row), columns[k], Str("absent")) == CellValue(row[k])
  {
    var r := RowRecord(columns, row);
    assert Keys(r) == columns;
    if Distinct(columns) {
      forall k | 0 <= k < |columns|
        ensures Get(r, columns[k], Str("absent")) == CellValue(row[k])
      {
        IndexOfFirst(r, columns[k], k);
      }
    }
  }

  // ---------------------------------------------------------------------------
  // Classifying what the processing function did with a record.
  // ---------------------------------------------------------------------------

  /** What the caller's processing function did with one record: returned a value, or raised
      an exception whose `str(e)` is `message`. */
  datatype Invocation = Returned(result: Value) | Raised(message: string)

  /** How one invocation is counted; a failure carries the error message reported for it. */
  datatype Verdict = Succeeded | Failed(error: Value)

  /** `str(e)` of the AttributeError raised by `.get` on a value that is not a dict. */
  function NoGetMessage(v: Value): string {
    "'" + TypeName(v) + "' object has no attribute 'get'"
  }

  /** The result logged for an exception caught around the processing function. */
  function ErrorResult(message: string): Value {
    Map([("success", Bool(false)), ("error", Str(message))])
  }

  /** Success needs a returned dict whose 'success' entry is truthy. Otherwise the row fails,
      and the failure's error is the message the pass prints: 'Sin resultado' for a falsy
      result, the dict's 'error' entry or 'Error desconocido' for a dict without a truthy
      'success', and the exception's text for a raised exception, including the AttributeError
      that `.get` raises on a truthy non-dict. */
  function Classify(inv: Invocation): (v: Verdict)
    ensures v.Succeeded? <==>
      inv.Returned? && inv.result.Map? && Truthy(Get(inv.result.entries, "success", Bool(false)))
    ensures inv.Raised? ==> v == Failed(Str(inv.message))
    ensures inv.Returned? && !Truthy(inv.result) ==> v == Failed(Str("Sin resultado"))
    ensures inv.Returned? && inv.result.Map? && inv.result.entries != [] && !v.Succeeded? ==>
      v == Failed(Get(inv.result.entries, "error", Str("Error desconocido")))
    ensures inv.Returned? && Truthy(inv.result) && !inv.result.Map? ==>
      v == Failed(Str(NoGetMessage(inv.result)))
  {
    match inv
    case Raised(message) => Failed(Str(message))
    case Returned(result) =>
      if !Truthy(result) then Failed(Str("Sin resultado"))
      else if !result.Map? then Failed(Str(NoGetMessage(result)))
      else if Truthy(Get(result.entries, "success", Bool(false))) then Succeeded
      else Failed(Get(result.entries, "error", Str("Error desconocido")))
  }

  /** The 'result' field of a log entry: what was returned, or the error dict of what was raised. */
  function LoggedResult(inv: Invocation): Value {
    match inv
    case Raised(message) => ErrorResult(message)
    case Returned(result) =>
      if Truthy(result) && !result.Map? then ErrorResult(NoGetMessage(result)) else result
  }

  /** The dict the handler logs for an exception has 'success' False and the message as 'error'. */
  lemma ErrorResultFields(message: string)
    ensures ErrorResult(message).Map?
    ensures Get(ErrorResult(message).entries, "success", Null) == Bool(false)
    ensures Get(ErrorResult(message).entries, "error", Null) == Str(message)
  {
    IndexOfFirst(ErrorResult(message).entries, "success", 0);
    IndexOfFirst(ErrorResult(message).entries, "error", 1);
  }

  /** A truthy result that is not a dict makes `.get` raise AttributeError: the row fails and
      the logged result is the handler's dict, 'success' False with that error's message. */
  lemma NonDictResultLogged(result: Value)
    requires Truthy(result) && !result.Map?
    ensures Classify(Returned(result)) == Failed(Str(NoGetMessage(result)))
    ensures var r := LoggedResult(Returned(result));
      && r.Map?
      && Get(r.entries, "success", Null) == Bool(false)
      && Get(r.entries, "error", Null) == Str(NoGetMessage(result))
  {
    ErrorResultFields(NoGetMessage(result));
  }

  // ---------------------------------------------------------------------------
  // The result of one pass over the table.
  // ---------------------------------------------------------------------------

  datatype LogEntry = LogEntry(index: int, rowNumber: int, result: Value, recordSample: Dict)

  /** The log, and the two counters the pass reports. */
  datatype Run = Run(results: seq<LogEntry>, successful: nat, failed: nat)

  /** `{k: v for k, v in list(record.items())[:3]}` */
  function Sample(record: Dict): Dict {
    if |record| <= 3 then record else record[..3]
  }

  predicate Shaped(columns: seq<string>, table: seq<seq<Cell>>) {
    forall i :: 0 <= i < |table| ==> |table[i]| == |columns|
  }

  /** What the processing function does with each row's record, in row order. */
  function Invocations(columns: seq<string>, table: seq<seq<Cell>>, process: (int, Dict) -> Invocation): seq<Invocation>
    requires Shaped(columns, table)
  {
    seq(|table|, i requires 0 <= i < |table| => process(i, RowRecord(columns, table[i])))
  }

  function Successes(invs: seq<Invocation>): nat {
    if invs == [] then 0
    else Successes(invs[..|invs| - 1]) + (if Classify(invs[|invs| - 1]).Succeeded? then 1 else 0)
  }

  function Failures(invs: seq<Invocation>): nat {
    if invs == [] then 0
    else Failures(invs[..|invs| - 1]) + (if Classify(invs[|invs| - 1]).Succeeded? then 0 else 1)
  }

  function Entry(index: nat, record: Dict, inv: Invocation): LogEntry {
    LogEntry(index, index + 1, LoggedResult(inv), Sample(record))
  }

  function Log(columns: seq<string>, table: seq<seq<Cell>>, process: (int, Dict) -> Invocation): seq<LogEntry>
    requires Shaped(columns, table)
  {
    seq(|table|, i requires 0 <= i < |table| =>
      Entry(i, RowRecord(columns, table[i]), process(i, RowRecord(columns, table[i]))))
  }

  /** The pass over a loaded table. */
  function RunOf(columns: seq<string>, table: seq<seq<Cell>>, process: (int, Dict) -> Invocation): Run
    requires Shaped(columns, table)
  {
    var invs := Invocations(columns, table, process);
    Run(Log(columns, table, process), Successes(invs), Failures(invs))
  }

  /** Extending the processed prefix of the table by one row appends that row's entry to the
      log and bumps the counter its verdict names. */
  lemma PassStep(columns: seq<string>, table: seq<seq<Cell>>, process: (int, Dict) -> Invocation, index: nat)
    requires Shaped(columns, table) && index < |table|
    ensures var rec := RowRecord(columns, table[index]);
      var inv := process(index, rec);
      var before := Invocations(columns, table[..index], process);
      var after := Invocations(columns, table[..index + 1], process);
      && Log(columns, table[..index + 1], process) == Log(columns, table[..index], process) + [Entry(index, rec, inv)]
      && Successes(after) == Successes(before) + (if Classify(inv).Succeeded? then 1 else 0)
      && Failures(after) == Failures(before) + (if Classify(inv).Succeeded? then 0 else 1)
  {
    var after := Invocations(columns, table[..index + 1], process);
    assert after[..index] == Invocations(columns, table[..index], process);
  }

  /** Every invocation bumps exactly one of the two counters. */
  lemma {:induction false} CountsAddUp(invs: seq<Invocation>)
    ensures Successes(invs) + Failures(invs) == |invs|
  {
    if invs != [] {
      CountsAddUp(invs[..|invs| - 1]);
    }
  }

  /** The counters tally exactly the invocations classified each way. */
  lemma {:induction false} CountsAreTallies(invs: seq<Invocation>)
    ensures (forall i :: 0 <= i < |invs| ==> Classify(invs[i]).Succeeded?) ==> Successes(invs) == |invs| && Failures(invs) == 0
    ensures (forall i :: 0 <= i < |invs| ==> !Classify(invs[i]).Succeeded?) ==> Successes(invs) == 0 && Failures(invs) == |invs|
  {
    if invs != [] {
      var init := invs[..|invs| - 1];
      assert forall i :: 0 <= i < |init| ==> init[i] == invs[i];
      CountsAreTallies(init);
    }
  }

  /** A pass logs every row once, in ascending order, numbered from 1, with the first (at most
      three) fields of its record, and every row is counted once as a success or a failure. */
  lemma RunAccounts(columns: seq<string>, table: seq<seq<Cell>>, process: (int, Dict) -> Invocation)
    requires Shaped(columns, table)
    ensures var run := RunOf(columns, table, process);
      && |run.results| == |table|
      && run.successful + run.failed == |table|
      && forall i :: 0 <= i < |table| ==>
           && run.results[i].index == i
           && run.results[i].rowNumber == i + 1
           && run.results[i].result == LoggedResult(process(i, RowRecord(columns, table[i])))
           && Keys(run.results[i].recordSample) == columns[..if |columns| <= 3 then |columns| else 3]
           && run.results[i].recordSample == RowRecord(columns, table[i])[..if |columns| <= 3 then |columns| else 3]
  {
    var run := RunOf(columns, table, process);
    CountsAddUp(Invocations(columns, table, process));
    assert run.results == Log(columns, table, process);
    forall i | 0 <= i < |table|
      ensures run.results[i].index == i
      ensures run.results[i].rowNumber == i + 1
      ensures run.results[i].result == LoggedResult(process(i, RowRecord(columns, table[i])))
      ensures Keys(run.results[i].recordSample) == columns[..if |columns| <= 3 then |columns| else 3]
      ensures run.results[i].recordSample == RowRecord(columns, table[i])[..if |columns| <= 3 then |columns| else 3]
    {
      var rec := RowRecord(columns, table[i]);
      RowRecordSpec(columns, table[i]);
      assert run.results[i] == Entry(i, rec, process(i, rec));
      assert Keys(Sample(rec)) == Keys(rec)[..|Sample(rec)|];
    }
  }

  /** A processing function that always returns a truthy 'success' leaves no failures. */
  lemma AllSucceed(columns: seq<string>, table: seq<seq<Cell>>, process: (int, Dict) -> Invocation)
    requires Shaped(columns, table)
    requires forall i: int, d: Dict ::
      (process(i, d).Returned? && process(i, d).result.Map?
       && Truthy(Get(process(i, d).result.entries, "success", Bool(false))))
    ensures RunOf(columns, table, process).failed == 0
    ensures RunOf(columns, table, process).successful == |table|
  {
    var invs := Invocations(columns, table, process);
    assert forall i :: 0 <= i < |invs| ==> invs[i] == process(i, RowRecord(columns, table[i]));
    CountsAreTallies(invs);
  }

  /** A processing function that always raises fails every row, and every logged result is a
      dict with 'success' False and the exception's message as 'error'. */
  lemma AllRaise(columns: seq<string>, table: seq<seq<Cell>>, process: (int, Dict) -> Invocation)
    requires Shaped(columns, table)
    requires forall i: int, d: Dict :: process(i, d).Raised?
    ensures RunOf(columns, table, process).failed == |table|
    ensures RunOf(columns, table, process).successful == 0
    ensures forall i :: 0 <= i < |table| ==>
      var inv := process(i, RowRecord(columns, table[i]));
      var r := RunOf(columns, table, process).results[i].result;
      && r.Map?
      && Get(r.entries, "success", Null) == Bool(false)
      && Get(r.entries, "error", Null) == Str(inv.message)
  {
    CountsAreTallies(Invocations(columns, table, process));
    forall i | 0 <= i < |table|
      ensures var inv := process(i, RowRecord(columns, table[i]));
        var r := ErrorResult(inv.message);
        Get(r.entries, "success", Null) == Bool(false) && Get(r.entries, "error", Null) == Str(inv.message)
    {
      ErrorResultFields(process(i, RowRecord(columns, table[i])).message);
    }
  }

  // ---------------------------------------------------------------------------
  // The export listing.
  // ---------------------------------------------------------------------------

  datatype ExportEntry = ExportEntry(rowNumber: int, data: Dict)

  // ---------------------------------------------------------------------------
  // The sample processing function.
  // ---------------------------------------------------------------------------

  /** A non-null value as the sample function keeps it: strings stripped, anything else as is. */
  function Tidy(v: Value): Value {
    if v.Str? then Str(Strip(v.s)) else v
  }

  /** The processed data: the record's non-null fields, strings stripped. */
  function Cleaned(record: Dict): Dict {
    if record == [] then []
    else
      var last := record[|record| - 1];
      var init := Cleaned(record[..|record| - 1]);
      if last.1 == Null then init else Put(init, last.0, Tidy(last.1))
  }

  /** The keys of the record's non-null fields, in order. */
  function NonNullKeys(record: Dict): seq<string> {
    if record == [] then []
    else
      var last := record[|record| - 1];
      NonNullKeys(record[..|record| - 1]) + (if last.1 == Null then [] else [last.0])
  }

  /** For a record with unique keys, the processed data holds the non-null fields in their
      order, no null at all, and each string with surrounding whitespace removed. */
  lemma {:induction false} CleanedSpec(record: Dict)
    requires Distinct(Keys(record))
    ensures Keys(Cleaned(record)) == NonNullKeys(record)
    ensures Distinct(Keys(Cleaned(record)))
    ensures forall i :: 0 <= i < |Cleaned(record)| ==> Cleaned(record)[i].1 != Null
    ensures forall i :: 0 <= i < |Cleaned(record)| ==>
      Cleaned(record)[i].1 == Tidy(Get(record, Cleaned(record)[i].0, Null))
  {
    if record != [] {
      var init := record[..|record| - 1];
      var last := record[|record| - 1];
      assert Keys(init) == Keys(record)[..|record| - 1];
      assert record == init + [last];
      CleanedSpec(init);
      NonNullKeysWithin(init);
      assert last.0 == Keys(record)[|record| - 1];
      GetExtend(init, last);
      CleanedStep(init, last);
    }
  }

  /** One more field with a new key: the facts of `CleanedSpec` carry over. */
  lemma CleanedStep(init: Dict, last: (string, Value))
    requires last.0 !in Keys(init)
    requires forall k :: k in NonNullKeys(init) ==> k in Keys(init)
    requires forall k :: k in Keys(init) ==> Get(init + [last], k, Null) == Get(init, k, Null)
    requires Keys(Cleaned(init)) == NonNullKeys(init)
    requires Distinct(Keys(Cleaned(init)))
    requires forall i :: 0 <= i < |Cleaned(init)| ==> Cleaned(init)[i].1 != Null
    requires forall i :: 0 <= i < |Cleaned(init)| ==>
      Cleaned(init)[i].1 == Tidy(Get(init, Cleaned(init)[i].0, Null))
    ensures Keys(Cleaned(init + [last])) == NonNullKeys(init + [last])
    ensures Distinct(Keys(Cleaned(init + [last])))
    ensures forall i :: 0 <= i < |Cleaned(init + [last])| ==> Cleaned(init + [last])[i].1 != Null
    ensures forall i :: 0 <= i < |Cleaned(init + [last])| ==>
      Cleaned(init + [last])[i].1 == Tidy(Get(init + [last], Cleaned(init + [last])[i].0, Null))
  {
    var record := init + [last];
    var c := Cleaned(init);
    CleanedStepShape(init, last);
    forall i | 0 <= i < |c| ensures Get(record, c[i].0, Null) == Get(init, c[i].0, Null) {
      assert Keys(c)[i] == c[i].0;
      assert c[i].0 in NonNullKeys(init);
    }
    if last.1 != Null {
      forall j | 0 <= j < |init| ensures record[j].0 != last.0 { assert Keys(init)[j] == init[j].0; }
      IndexOfFirst(record, last.0, |init|);
      AppendedValues(c, record, init, (last.0, Tidy(last.1)), last.1);
    }
  }

  lemma CleanedStepShape(init: Dict, last: (string, Value))
    requires last.0 !in Keys(init)
    requires forall k :: k in NonNullKeys(init) ==> k in Keys(init)
    requires Keys(Cleaned(init)) == NonNullKeys(init)
    requires Distinct(Keys(Cleaned(init)))
    ensures Cleaned(init + [last]) == if last.1 == Null then Cleaned(init) else Cleaned(init) + [(last.0, Tidy(last.1))]
    ensures Keys(Cleaned(init + [last])) == NonNullKeys(init + [last])
    ensures Distinct(Keys(Cleaned(init + [last])))
  {
    var c := Cleaned(init);
    CleanedUnfold(init, last);
    if last.1 != Null {
      assert last.0 !in Keys(c);
      PutSpec(c, last.0, Tidy(last.1));
    }
  }

  /** One step of the definitions of `Cleaned` and `NonNullKeys` on a record extended by a field. */
  lemma CleanedUnfold(init: Dict, last: (string, Value))
    ensures Cleaned(init + [last]) ==
      if last.1 == Null then Cleaned(init) else Put(Cleaned(init), last.0, Tidy(last.1))
    ensures NonNullKeys(init + [last]) ==
      NonNullKeys(init) + (if last.1 == Null then [] else [last.0])
  {
    var record := init + [last];
    assert record[..|record| - 1] == init;
    assert record[|record| - 1] == last;
  }

  lemma AppendedValues(c: Dict, record: Dict, init: Dict, added: (string, Value), raw: Value)
    requires added.1 == Tidy(raw) && Get(record, added.0, Null) == raw
    requires forall i :: 0 <= i < |c| ==> c[i].1 == Tidy(Get(init, c[i].0, Null))
    requires forall i :: 0 <= i < |c| ==> Get(record, c[i].0, Null) == Get(init, c[i].0, Null)
    ensures forall i :: 0 <= i < |c + [added]| ==> (c + [added])[i].1 == Tidy(Get(record, (c + [added])[i].0, Null))
  {
    var r := c + [added];
    forall i | 0 <= i < |r| ensures r[i].1 == Tidy(Get(record, r[i].0, Null)) {
      if i < |c| {
        assert r[i] == c[i];
      }
    }
  }

  lemma {:induction false} NonNullKeysWithin(record: Dict)
    ensures forall k :: k in NonNullKeys(record) ==> k in Keys(record)
  {
    if record != [] {
      var init := record[..|record| - 1];
      NonNullKeysWithin(init);
      forall k | k in Keys(init) ensures k in Keys(record) {
        var j :| 0 <= j < |init| && Keys(init)[j] == k;
        assert Keys(record)[j] == k;
      }
      assert Keys(record)[|record| - 1] == record[|record| - 1].0;
    }
  }

  /** Appending a pair with a new key leaves every earlier lookup unchanged. */
  lemma GetExtend(init: Dict, last: (string, Value))
    requires last.0 !in Keys(init)
    ensures forall k :: k in Keys(init) ==> Get(init + [last], k, Null) == Get(init, k, Null)
  {
    forall k | k in Keys(init) ensures Get(init + [last], k, Null) == Get(init, k, Null) {
      var i := IndexOf(init, k);
      IndexOfFirst(init + [last], k, i);
    }
  }

  /** What the sample processing function returns for a record. */
  function ExampleResult(record: Dict): Value {
    var data := Cleaned(record);
    Map([("success", Bool(true)), ("processed_fields", Num(|data|)), ("processed_data", Map(data))])
  }

  /** The sample function always succeeds, and it reports as 'processed_fields' the number of
      entries in 'processed_data'. */
  lemma ExampleResultSpec(record: Dict)
    ensures Classify(Returned(ExampleResult(record))) == Succeeded
    ensures var r := ExampleResult(record).entries;
      && Get(r, "processed_data", Null).Map?
      && Get(r, "processed_fields", Null) == Num(|Get(r, "processed_data", Null).entries|)
  {
    SummaryLookups(Cleaned(record));
  }

  lemma SummaryLookups(data: Dict)
    ensures var r := [("success", Bool(true)), ("processed_fields", Num(|data|)), ("processed_data", Map(data))];
      && Get(r, "success", Bool(false)) == Bool(true)
      && Get(r, "processed_fields", Null) == Num(|data|)
      && Get(r, "processed_data", Null) == Map(data)
  {
    var r := [("success", Bool(true)), ("processed_fields", Num(|data|)), ("processed_data", Map(data))];
    IndexOfFirst(r, "success", 0);
    IndexOfFirst(r, "processed_fields", 1);
    IndexOfFirst(r, "processed_data", 2);
  }

  /** `example_process_function`: keeps the non-null fields, stripping strings. */
  method ExampleProcess(index: int, record: Dict) returns (result: Value)
    ensures result == ExampleResult(record)
  {
    var processed: Dict := [];
    for k := 0 to |record|
      invariant processed == Cleaned(record[..k])
    {
      var (key, value) := record[k];
      if value != Null {
        if value.Str? {
          processed := Put(processed, key, Str(Strip(value.s)));
        } else {
          processed := Put(processed, key, value);
        }
      }
      assert record[..k + 1][..k] == record[..k];
    }
    assert record[..|record|] == record;
    result := Map([("success", Bool(true)), ("processed_fields", Num(|processed|)), ("processed_data", Map(processed))]);
  }

  // ---------------------------------------------------------------------------
  // The processor object.
  // ---------------------------------------------------------------------------

  class ExcelProcessor {
    var excelFilePath: string
    /** Whether a dataframe has been loaded. */
    var loaded: bool
    /** The loaded dataframe's rows, one cell per column. */
    var table: seq<seq<Cell>>
    var columns: seq<string>
    var totalRows: nat
    var currentRow: nat

    /** Column names are unique, and a loaded table has `totalRows` rows of one cell per column. */
    ghost predicate Valid()
      reads this
    {
      && Distinct(columns)
      && (loaded ==> |table| == totalRows && Shaped(columns, table))
    }

    constructor (path: string)
      ensures Valid()
      ensures excelFilePath == path && !loaded
      ensures columns == [] && totalRows == 0 && currentRow == 0
    {
      excelFilePath := path;
      loaded := false;
      table := [];
      columns := [];
      totalRows := 0;
      currentRow := 0;
    }

    /** `load_excel`, given what the spreadsheet reader produced: a header with unique
        names and rows of one cell per column, or None when reading failed. */
    method Load(sheet: Option<(seq<string>, seq<seq<Cell>>)>) returns (ok: bool)
      requires sheet.Some? ==> Distinct(sheet.value.0) && Shaped(sheet.value.0, sheet.value.1)
      requires Valid()
      modifies this
      ensures Valid()
      ensures ok <==> sheet.Some?
      ensures ok ==> loaded && columns == sheet.value.0 && table == sheet.value.1 && totalRows == |table|
      ensures !ok ==> loaded == old(loaded) && columns == old(columns) && table == old(table) && totalRows == old(totalRows)
      ensures excelFilePath == old(excelFilePath) && currentRow == old(currentRow)
    {
      match sheet
      case None =>
        ok := false;
      case Some((header, rows)) =>
        table := rows;
        loaded := true;
        columns := header;
        totalRows := |rows|;
        ok := true;
    }

    /** `get_record`: None without a loaded table or for an index outside `0..totalRows-1`;
        otherwise the row's record, each column in order with nulls for empty cells. */
    method GetRecord(index: int) returns (r: Option<Dict>)
      requires Valid()
      ensures r.None? <==> !loaded || index < 0 || index >= totalRows
      ensures r.Some? ==> Keys(r.value) == columns
      ensures r.Some? ==> forall k :: 0 <= k < |columns| ==> r.value[k].1 == CellValue(table[index][k])
      ensures r.Some? ==> r.value == RowRecord(columns, table[index])
    {
      if !loaded {
        return None;
      }
      if index < 0 || index >= totalRows {
        return None;
      }
      var row := table[index];
      var record: Dict := [];
      for k := 0 to |columns|
        invariant record == RowRecord(columns[..k], row[..k])
      {
        RowRecordSpec(columns[..k], row[..k]);
        assert columns[k] !in Keys(record) by {
          assert forall j :: 0 <= j < k ==> columns[..k][j] == columns[j];
        }
        var value := row[k];
        if value.NaN? {
          record := Put(record, columns[k], Null);
        } else {
          record := Put(record, columns[k], value.v);
        }
        assert record == RowRecord(columns[..k + 1], row[..k + 1]);
      }
      assert columns[..|columns|] == columns && row[..|columns|] == row;
      RowRecordSpec(columns, row);
      return Some(record);
    }

    /** `process_all_records`: None without a loaded table; otherwise every row's record goes
        to `process` in ascending order and the pass is `RunOf` the table. `currentRow` ends
        at the last row number. */
    method ProcessAllRecords(process: (int, Dict) -> Invocation) returns (run: Option<Run>)
      requires Valid()
      modifies this`currentRow
      ensures !loaded ==> run.None? && currentRow == old(currentRow)
      ensures loaded ==> run == Some(RunOf(columns, table, process))
      ensures loaded && totalRows > 0 ==> currentRow == totalRows
      ensures loaded && totalRows == 0 ==> currentRow == old(currentRow)
    {
      if !loaded {
        return None;
      }
      var results: seq<LogEntry> := [];
      var successful, failed := 0, 0;
      for index := 0 to totalRows
        invariant Valid() && loaded
        invariant results == Log(columns, table[..index], process)
        invariant successful == Successes(Invocations(columns, table[..index], process))
        invariant failed == Failures(Invocations(columns, table[..index], process))
        invariant index > 0 ==> currentRow == index
        invariant index == 0 ==> currentRow == old(currentRow)
      {
        currentRow := index + 1;
        var record := GetRecord(index);
        if record.None? {
          // Unreachable: a loaded table has a record for every index below totalRows.
          assert false;
        }
        var rec := record.value;
        var inv := process(index, rec);
        var logged: Value;
        match inv {
          case Raised(message) =>
            failed := failed + 1;
            logged := ErrorResult(message);
          case Returned(result) =>
            if Truthy(result) && !result.Map? {
              // `result.get` raises AttributeError on a truthy non-dict; the handler logs it.
              failed := failed + 1;
              logged := ErrorResult(NoGetMessage(result));
            } else {
              if Truthy(result) && Truthy(Get(result.entries, "success", Bool(false))) {
                successful := successful + 1;
              } else {
                failed := failed + 1;
              }
              logged := result;
            }
        }
        assert logged == LoggedResult(inv);
        results := results + [LogEntry(index, currentRow, logged, Sample(rec))];
        PassStep(columns, table, process, index);
      }
      assert table[..totalRows] == table;
      return Some(Run(results, successful, failed));
    }

    /** The record list that `export_records_to_json` serialises: None without a loaded table;
        otherwise one entry per row in order, numbered from 1, holding the row's record. A row
        whose record is empty (a table without columns) is skipped. */
    method ExportRecords() returns (records: Option<seq<ExportEntry>>)
      requires Valid()
      ensures records.None? <==> !loaded
      ensures records.Some? ==> |records.value| == (if columns == [] then 0 else totalRows)
      ensures records.Some? ==> forall i :: 0 <= i < |records.value| ==>
        records.value[i] == ExportEntry(i + 1, RowRecord(columns, table[i]))
    {
      if !loaded {
        return None;
      }
      var out: seq<ExportEntry> := [];
      for index := 0 to totalRows
        invariant |out| == (if columns == [] then 0 else index)
        invariant forall i :: 0 <= i < |out| ==> out[i] == ExportEntry(i + 1, RowRecord(columns, table[i]))
      {
        var record := GetRecord(index);
        if record.Some? && record.value != [] {
          out := out + [ExportEntry(index + 1, record.value)];
        }
      }
      return Some(out);
    }
  }
}
