/** Rows of the drug table, how one row is read, and the specification
    functions that say what reading a sequence of rows in order adds to the
    project's table of drug names and to its list of sodium-to-potassium
    ratios. Each definition over a sequence recurses on its last element,
    so that one step of the recursion is one more row read after the
    earlier ones. */
module Ingest {

  datatype Option<T> = None | Some(value: T)

  /** One row as the CSV reader yields it: column name to cell text. */
  type Row = map<string, string>

  /** Number parsing (Python's `float` on a cell text): a value, or None when
      the text is not a number. */
  type Parser = string -> Option<real>

  /** The column holding the drug name, used as the table key. */
  const DRUG_COLUMN: string := "Drug"

  /** The column holding the sodium-to-potassium ratio. */
  const RATIO_COLUMN: string := "Na_to_K"

  /** One row that was read successfully. */
  datatype Record = Record(key: string, value: real)

  /** Why a row could not be read: a required column is absent (Python's
      KeyError) or the ratio text is not a number (Python's ValueError). */
  datatype RowError = MissingColumn(column: string) | NotANumber(text: string)

  datatype RowResult = Parsed(record: Record) | Failed(error: RowError)

  /** How reading a sequence of rows ended: every row was read, or reading
      stopped at row `row` (counting from 0) with `error`. */
  datatype Outcome = Completed | Aborted(row: nat, error: RowError)

  /** The records read, in row order, and how reading ended. */
  datatype Load = Load(records: seq<Record>, outcome: Outcome)

  /** Reads one row: the drug name is looked up first, then the ratio text,
      then the ratio text is parsed. */
  function ParseRow(row: Row, parse: Parser): (r: RowResult)
    ensures r.Parsed? <==>
              DRUG_COLUMN in row && RATIO_COLUMN in row && parse(row[RATIO_COLUMN]).Some?
    ensures r.Parsed? ==>
              r.record.key == row[DRUG_COLUMN] && parse(row[RATIO_COLUMN]) == Some(r.record.value)
    ensures r.Failed? && r.error.MissingColumn? ==>
              r.error.column !in row &&
              (r.error.column == DRUG_COLUMN || (r.error.column == RATIO_COLUMN && DRUG_COLUMN in row))
    ensures r.Failed? && r.error.NotANumber? ==>
              DRUG_COLUMN in row && RATIO_COLUMN in row &&
              r.error.text == row[RATIO_COLUMN] && parse(r.error.text) == None
  {
    if DRUG_COLUMN !in row then Failed(MissingColumn(DRUG_COLUMN))
    else if RATIO_COLUMN !in row then Failed(MissingColumn(RATIO_COLUMN))
    else match parse(row[RATIO_COLUMN])
      case None => Failed(NotANumber(row[RATIO_COLUMN]))
      case Some(v) => Parsed(Record(row[DRUG_COLUMN], v))
  }

  /** The reading of each row, in row order. */
  function Readings(rows: seq<Row>, parse: Parser): (rs: seq<RowResult>)
    ensures |rs| == |rows|
  {
    if rows == [] then []
    else Readings(rows[..|rows| - 1], parse) + [ParseRow(rows[|rows| - 1], parse)]
  }

  /** The reading at position `i` is the reading of row `i`. */
  lemma {:induction false} ReadingAt(rows: seq<Row>, parse: Parser, i: nat)
    requires i < |rows|
    ensures Readings(rows, parse)[i] == ParseRow(rows[i], parse)
  {
    if i < |rows| - 1 {
      ReadingAt(rows[..|rows| - 1], parse, i);
    }
  }

  /** The readings of a prefix are a prefix of the readings. */
  lemma ReadingsPrefix(rows: seq<Row>, parse: Parser, n: nat)
    requires n <= |rows|
    ensures Readings(rows, parse)[..n] == Readings(rows[..n], parse)
  {
    forall i | 0 <= i < n
      ensures Readings(rows, parse)[i] == Readings(rows[..n], parse)[i]
    {
      ReadingAt(rows, parse, i);
      ReadingAt(rows[..n], parse, i);
    }
  }

  /** Goes through row readings in order and stops at the first failure:
      one record per reading before it, and its position on an abort. */
  function Collect(rs: seq<RowResult>): (s: Load)
    ensures s.outcome.Completed? ==> |s.records| == |rs|
    ensures s.outcome.Aborted? ==> |s.records| == s.outcome.row < |rs|
  {
    if rs == [] then Load([], Completed)
    else
      var before := Collect(rs[..|rs| - 1]);
      if before.outcome.Aborted? then before
      else match rs[|rs| - 1]
        case Failed(e) => Load(before.records, Aborted(|rs| - 1, e))
        case Parsed(rec) => Load(before.records + [rec], Completed)
  }

  /** Reading `rows` in order, stopping at the first row that cannot be read. */
  function Scan(rows: seq<Row>, parse: Parser): Load
  {
    Collect(Readings(rows, parse))
  }

  /** The records are exactly the successful readings before the first
      failure, and the reported error is that failure. */
  lemma {:induction false} CollectInOrder(rs: seq<RowResult>)
    ensures forall i :: 0 <= i < |Collect(rs).records| ==> rs[i] == Parsed(Collect(rs).records[i])
    ensures Collect(rs).outcome.Aborted? ==> rs[Collect(rs).outcome.row] == Failed(Collect(rs).outcome.error)
  {
    if rs != [] {
      var front := rs[..|rs| - 1];
      CollectInOrder(front);
      assert forall i :: 0 <= i < |front| ==> front[i] == rs[i];
    }
  }

  /** Every record comes from the row at its position, every row before an
      abort was read, and the row an abort names fails with the reported
      error. */
  lemma ScanReadsInOrder(rows: seq<Row>, parse: Parser)
    ensures forall i :: 0 <= i < |Scan(rows, parse).records| ==>
              ParseRow(rows[i], parse) == Parsed(Scan(rows, parse).records[i])
    ensures Scan(rows, parse).outcome.Completed? ==> |Scan(rows, parse).records| == |rows|
    ensures Scan(rows, parse).outcome.Aborted? ==>
              Scan(rows, parse).outcome.row == |Scan(rows, parse).records| < |rows| &&
              ParseRow(rows[Scan(rows, parse).outcome.row], parse) == Failed(Scan(rows, parse).outcome.error)
  {
    var rs := Readings(rows, parse);
    CollectInOrder(rs);
    forall i | 0 <= i < |Collect(rs).records|
      ensures ParseRow(rows[i], parse) == Parsed(Collect(rs).records[i])
    {
      ReadingAt(rows, parse, i);
    }
    if Collect(rs).outcome.Aborted? {
      ReadingAt(rows, parse, Collect(rs).outcome.row);
    }
  }

  /** When every row can be read, the scan completes with one record per
      row, in row order. */
  lemma ScanWellFormed(rows: seq<Row>, parse: Parser)
    requires forall i :: 0 <= i < |rows| ==> ParseRow(rows[i], parse).Parsed?
    ensures Scan(rows, parse).outcome == Completed
    ensures |Scan(rows, parse).records| == |rows|
    ensures forall i :: 0 <= i < |rows| ==> Scan(rows, parse).records[i] == ParseRow(rows[i], parse).record
  {
    ScanReadsInOrder(rows, parse);
  }

  /** One step of going through readings: after the first `i` have been
      gone through without failure, reading `i` either adds its record or
      aborts at `i`. */
  lemma CollectStep(rs: seq<RowResult>, i: nat)
    requires i < |rs|
    requires Collect(rs[..i]).outcome.Completed?
    ensures rs[i].Parsed? ==> Collect(rs[..i + 1]) == Load(Collect(rs[..i]).records + [rs[i].record], Completed)
    ensures rs[i].Failed? ==> Collect(rs[..i + 1]) == Load(Collect(rs[..i]).records, Aborted(i, rs[i].error))
  {
    assert rs[..i + 1][..i] == rs[..i];
  }

  /** Once the readings have aborted, further readings change nothing. */
  lemma {:induction false} CollectStaysAborted(rs: seq<RowResult>, k: nat)
    requires k <= |rs|
    requires Collect(rs[..k]).outcome.Aborted?
    ensures Collect(rs) == Collect(rs[..k])
    decreases |rs|
  {
    if k == |rs| {
      assert rs[..k] == rs;
    } else {
      var front := rs[..|rs| - 1];
      assert front[..k] == rs[..k];
      CollectStaysAborted(front, k);
    }
  }

  /** One more reading after a clean prefix: it either ends the scan or
      extends the clean prefix by its record. */
  lemma CollectNext(rs: seq<RowResult>, i: nat, done: seq<Record>)
    requires i < |rs|
    requires Collect(rs[..i]) == Load(done, Completed)
    ensures rs[i].Failed? ==> Collect(rs) == Load(done, Aborted(i, rs[i].error))
    ensures rs[i].Parsed? ==> Collect(rs[..i + 1]) == Load(done + [rs[i].record], Completed)
  {
    CollectStep(rs, i);
    if rs[i].Failed? {
      CollectStaysAborted(rs, i + 1);
    }
  }

  /** The same step stated on rows: the next row either ends the scan with
      its error or adds its record to the clean prefix. */
  lemma ScanNext(rows: seq<Row>, parse: Parser, i: nat, done: seq<Record>)
    requires i < |rows|
    requires Collect(Readings(rows, parse)[..i]) == Load(done, Completed)
    ensures ParseRow(rows[i], parse).Failed? ==>
              Scan(rows, parse) == Load(done, Aborted(i, ParseRow(rows[i], parse).error))
    ensures ParseRow(rows[i], parse).Parsed? ==>
              Collect(Readings(rows, parse)[..i + 1]) == Load(done + [ParseRow(rows[i], parse).record], Completed)
  {
    ReadingAt(rows, parse, i);
    CollectNext(Readings(rows, parse), i, done);
  }

  /** An abort at `k` is already decided by the readings up to `k`. */
  lemma {:induction false} CollectAbortPrefix(rs: seq<RowResult>)
    requires Collect(rs).outcome.Aborted?
    ensures Collect(rs[..Collect(rs).outcome.row + 1]) == Collect(rs)
  {
    var k := Collect(rs).outcome.row;
    var front := rs[..|rs| - 1];
    if k + 1 < |rs| {
      assert Collect(front).outcome.Aborted?;
      assert front[..k + 1] == rs[..k + 1];
      CollectAbortPrefix(front);
    } else {
      assert rs[..k + 1] == rs;
    }
  }

  /** Once a row fails, the rows after it play no part: any sequence that
      agrees with `rows` up to and including the failing row reads the same. */
  lemma ScanStopsAtFailure(rows: seq<Row>, rest: seq<Row>, parse: Parser)
    requires Scan(rows, parse).outcome.Aborted?
    ensures Scan(rows[..Scan(rows, parse).outcome.row + 1] + rest, parse) == Scan(rows, parse)
  {
    var rs := Readings(rows, parse);
    var k := Collect(rs).outcome.row;
    var other := rows[..k + 1] + rest;
    CollectAbortPrefix(rs);
    ReadingsPrefix(rows, parse, k + 1);
    ReadingsPrefix(other, parse, k + 1);
    assert other[..k + 1] == rows[..k + 1];
    CollectStaysAborted(Readings(other, parse), k + 1);
  }

  /** The ratios of `records`, in order. */
  function Values(records: seq<Record>): (vs: seq<real>)
    ensures |vs| == |records|
  {
    if records == [] then []
    else Values(records[..|records| - 1]) + [records[|records| - 1].value]
  }

  /** The ratio at position `i` is the ratio of record `i`. */
  lemma {:induction false} ValuesAt(records: seq<Record>, i: nat)
    requires i < |records|
    ensures Values(records)[i] == records[i].value
  {
    if i < |records| - 1 {
      ValuesAt(records[..|records| - 1], i);
    }
  }

  /** The drug names of `records`. */
  function KeysOf(records: seq<Record>): set<string>
  {
    if records == [] then {}
    else KeysOf(records[..|records| - 1]) + {records[|records| - 1].key}
  }

  /** A drug name is among the names of `records` exactly when some record
      carries it. */
  lemma {:induction false} KeysOfHas(records: seq<Record>, k: string)
    ensures k in KeysOf(records) <==> exists i :: 0 <= i < |records| && records[i].key == k
  {
    if records != [] {
      var front := records[..|records| - 1];
      KeysOfHas(front, k);
      assert forall i :: 0 <= i < |front| ==> front[i] == records[i];
    }
  }

  /** No two of `records` carry the same drug name. */
  predicate Distinct(records: seq<Record>)
  {
    forall i, j :: 0 <= i < j < |records| ==> records[i].key != records[j].key
  }

  /** Records without repeated names stay so after one more record exactly
      when its name is new. */
  lemma DistinctSnoc(records: seq<Record>)
    requires records != []
    ensures Distinct(records) <==>
              Distinct(records[..|records| - 1]) &&
              records[|records| - 1].key !in KeysOf(records[..|records| - 1])
  {
    var n := |records| - 1;
    var front := records[..n];
    KeysOfHas(front, records[n].key);
    assert forall i :: 0 <= i < n ==> front[i] == records[i];
  }

  /** There are at most as many drug names as records, and exactly as many
      precisely when no name repeats. */
  lemma {:induction false} KeysCount(records: seq<Record>)
    ensures |KeysOf(records)| <= |records|
    ensures |KeysOf(records)| == |records| <==> Distinct(records)
  {
    if records != [] {
      KeysCount(records[..|records| - 1]);
      DistinctSnoc(records);
    }
  }

  /** The table after writing each record's ratio under its drug name, in
      order, so that a later record overwrites an earlier one. */
  function Overwrite(m: map<string, real>, records: seq<Record>): (r: map<string, real>)
    ensures r.Keys == m.Keys + KeysOf(records)
  {
    if records == [] then m
    else
      var last := records[|records| - 1];
      Overwrite(m, records[..|records| - 1])[last.key := last.value]
  }

  /** A drug name that no record carries keeps its entry, or its absence. */
  lemma {:induction false} OverwriteElsewhere(m: map<string, real>, records: seq<Record>, k: string)
    requires k !in KeysOf(records)
    ensures k in Overwrite(m, records) <==> k in m
    ensures k in m ==> Overwrite(m, records)[k] == m[k]
  {
    if records != [] {
      OverwriteElsewhere(m, records[..|records| - 1], k);
    }
  }

  /** Last write wins: a drug name ends up with the ratio of the last record
      that carries it. */
  lemma {:induction false} OverwriteLastWins(m: map<string, real>, records: seq<Record>, i: nat)
    requires i < |records|
    requires forall j :: i < j < |records| ==> records[j].key != records[i].key
    ensures records[i].key in Overwrite(m, records)
    ensures Overwrite(m, records)[records[i].key] == records[i].value
  {
    var n := |records| - 1;
    if i < n {
      var front := records[..n];
      assert forall j :: i < j < |front| ==> front[j] == records[j];
      OverwriteLastWins(m, front, i);
    }
  }

  /** The table gains at most one entry per record, and exactly one per
      record precisely when the records' drug names are all different and
      none was in the table before. */
  lemma OverwriteSize(m: map<string, real>, records: seq<Record>)
    ensures |Overwrite(m, records)| <= |m| + |records|
    ensures |Overwrite(m, records)| == |m| + |records| <==>
              Distinct(records) && m.Keys !! KeysOf(records)
  {
    var r := Overwrite(m, records);
    KeysCount(records);
    assert |r| == |r.Keys| && |m| == |m.Keys|;
    assert |m.Keys + KeysOf(records)| + |m.Keys * KeysOf(records)| == |m.Keys| + |KeysOf(records)|;
    assert m.Keys !! KeysOf(records) <==> |m.Keys * KeysOf(records)| == 0;
  }

  /** Reading one more record appends its ratio and writes its entry. */
  lemma AppendRecord(m: map<string, real>, vs: seq<real>, records: seq<Record>, rec: Record)
    ensures vs + Values(records + [rec]) == vs + Values(records) + [rec.value]
    ensures Overwrite(m, records + [rec]) == Overwrite(m, records)[rec.key := rec.value]
  {
    assert (records + [rec])[..|records|] == records;
  }

  /** Python's `sum`: the values added up from the left, starting at 0. */
  function Sum(s: seq<real>): real
  {
    if s == [] then 0.0 else Sum(s[..|s| - 1]) + s[|s| - 1]
  }

  /** The sum of values that all lie in [lo, hi] lies between |s| * lo and
      |s| * hi. */
  lemma {:induction false} SumBounds(s: seq<real>, lo: real, hi: real)
    requires forall i :: 0 <= i < |s| ==> lo <= s[i] <= hi
    ensures (|s| as real) * lo <= Sum(s) <= (|s| as real) * hi
  {
    if s != [] {
      SumBounds(s[..|s| - 1], lo, hi);
    }
  }
}
