# Drug-abuse project: a verified model of its data core

The program reads a drug table, one row per record, from a CSV file. It
keeps two things on a `DrugAbuseProject` object:

- `data`, a table from drug name (column `Drug`) to a sodium-to-potassium
  ratio (column `Na_to_K`). When a name occurs again, the later row wins.
- the list of every ratio read, in row order. The source calls it
  `sodium_to_potassium_ratios`; here it is `ratios`.

On top of that state, `analyze_data` reports the mean ratio and
`visualize_data` draws a histogram of the ratios. Both answer "no data"
when the list is empty.

The project has two modules:

- `Ingest` (`ingest.dfy`) holds pure definitions. It defines what a row is
  and how one row is read (`ParseRow`). `Scan` says what reading a sequence
  of rows in order yields: the records read and how reading ended.
  `Values` gives the ratios those records append and `Overwrite` the table
  they leave behind. The file also holds the lemmas about these functions.
- `DrugAbuse` (`drug_abuse.dfy`) holds the class `DrugAbuseProject` with the
  two fields. `GatherData` is the row loop. It updates the fields in place
  and is proved against the `Ingest` functions. `AnalyzeData` and
  `VisualizeData` are functions that only read the object, so they change
  no state, and two calls in a row give the same answer.

Design choices:

- **Rows.** A row is a map from column name to cell text, as `csv.DictReader`
  yields it. `GatherData` takes the rows as a parameter.
- **Number parsing.** Python's `float` on a cell text is a parameter of type
  `Parser`. It returns `Some(value)` or `None` when the text does not parse.
- **Exceptions.** A `KeyError` (missing column) or a `ValueError` (text that
  is not a number) in the source becomes the result
  `Aborted(row, error)`. A call that reads every row returns `Completed`.

The fields are initialised only in the constructor. Two behaviours follow:

- Calling `GatherData` twice adds the second batch of rows to the first.
- A failing row leaves every earlier row of the same call applied.

The model follows the code in both cases: a later call does not replace
earlier data, and a failed call is not rolled back.

## Model

| member | source | states |
|---|---|---|
| DrugAbuse.DrugAbuseProject.constructor | code.py:11-13 | A fresh project has an empty table and an empty ratio list. |
| DrugAbuse.DrugAbuseProject.GatherData | code.py:15-28 | The call reads the rows in order and returns how reading ended. The ratio list becomes its old contents followed by the ratios of the rows read. The table becomes the old table with each row's ratio written under its drug name, in row order. A failing row stops the call: earlier rows stay applied, and it and later rows add nothing. The table never has more entries than the list. |
| Ingest.ParseRow | code.py:22-24 | A row gives a record exactly when both columns are present and the ratio text parses. The record's key is the drug cell and its value the parsed ratio. A missing column is reported by name, with `Drug` looked up before `Na_to_K`. A text that does not parse is reported with that text. |
| Ingest.Readings | code.py:21-24 | One reading per row. |
| Ingest.ReadingAt | code.py:21-24 | The reading at position i is the reading of row i. |
| Ingest.Scan | code.py:21-28 | The readings of the rows in order, cut at the first failing row, and how reading ended. |
| Ingest.ReadingsPrefix | code.py:21-24 | Reading a prefix of the rows gives the same prefix of the readings. |
| Ingest.Collect | code.py:21-28 | A completed pass has one record per reading. An aborted pass has as many records as the position where it stopped, and that position is inside the input. |
| Ingest.CollectInOrder | code.py:21-28 | Each record is the successful reading at its own position. An abort reports the error of the reading at the position it names. |
| Ingest.ScanReadsInOrder | code.py:21-28 | Each record comes from the row at its position. A completed scan read every row. An aborted scan stopped at the first row that fails, right after the rows read, and reports that row's error. |
| Ingest.ScanWellFormed | code.py:21-28 | When every row can be read, the scan completes with exactly one record per row, in row order. |
| Ingest.CollectStep | code.py:21-28 | After a clean prefix, the next reading either adds its record or aborts at its position with its error. |
| Ingest.CollectStaysAborted | code.py:21-24 | Once reading has aborted, later readings change nothing. |
| Ingest.CollectNext | code.py:21-28 | After a clean prefix, a failing next reading decides the whole pass. A successful one extends the clean prefix by its record. |
| Ingest.ScanNext | code.py:21-28 | The same step stated on rows: a failing next row ends the scan with its error. A readable one adds its record to the clean prefix. |
| Ingest.CollectAbortPrefix | code.py:21-24 | An abort is already decided by the readings up to and including the failing one. |
| Ingest.ScanStopsAtFailure | code.py:21-24 | Rows after the failing row play no part. Any rows that agree up to and including it scan the same. |
| Ingest.Values | code.py:28 | One ratio per record, so the list grows by exactly the number of records read. |
| Ingest.ValuesAt | code.py:28 | The ratio at position i is the ratio of record i. |
| Ingest.KeysOfHas | code.py:23 | A drug name is among the record names exactly when some record carries it. |
| Ingest.DistinctSnoc | code.py:27 | Names stay distinct after one more record exactly when its name is new. |
| Ingest.KeysCount | code.py:27 | There are at most as many names as records, and exactly as many exactly when no name repeats. |
| Ingest.Overwrite | code.py:27 | The table's names are the old names plus the names of the records. |
| Ingest.OverwriteElsewhere | code.py:27 | A name that no record carries keeps its old entry, or stays absent. |
| Ingest.OverwriteLastWins | code.py:27 | A name ends up with the ratio of the last record that carries it. |
| Ingest.OverwriteSize | code.py:27-28 | The table gains at most one entry per record. It gains exactly one per record exactly when the names are distinct and none was in the table before. |
| Ingest.AppendRecord | code.py:27-28 | The one-row step law of the loop: one more record appends its ratio to the list and writes its ratio under its name in the table. |
| DrugAbuse.BoundKept | code.py:27-28 | Reading records keeps the table no larger than the ratio list. |
| Ingest.Sum | code.py:37 | The ratios added left to right, starting at 0, as Python's `sum` does. |
| Ingest.SumBounds | code.py:37 | The sum of n ratios lies between n times any lower bound and n times any upper bound. |
| DrugAbuse.DrugAbuseProject.AnalyzeData | code.py:30-38 | No data exactly when the list is empty. Otherwise the mean is the sum divided by the length. |
| DrugAbuse.AverageWithinBounds | code.py:37 | The mean of a non-empty list lies between any lower and upper bound of its ratios. |
| DrugAbuse.DrugAbuseProject.VisualizeData | code.py:40-49 | No image exactly when the list is empty. Otherwise a histogram of exactly the ratio list, drawn with 10 bars. |

## Left out

- The Tk interface is not modelled: `develop_interface`, `display_analysis`, `display_visualization`, `collaborate_coding`, the event loop and the message boxes (code.py:33, 44, 66-116). It is user-interface glue with no data logic. The "no data" message box appears in the model only as the `NoData` / `NoImage` result.
- Opening `drug200.csv` and `csv.DictReader` are left out (code.py:17-18). This is file I/O and a library call, so the rows are a parameter. A file that cannot be opened is not modelled.
- A short CSV row is not modelled. There `DictReader` fills the missing cells with `None`, so `float(None)` raises a `TypeError` and a `None` drug name would be a key. In the model a cell is always text, and only a column absent from the row counts as missing.
- ParseRow: Python's `float` syntax is not modelled. The parser is a parameter, and a parsed value is a real number. NaN and the infinities have no real value: the model treats them as text that does not parse, while the source accepts them.
- AnalyzeData: the mean is exact real arithmetic, not IEEE double rounding of `sum` and `/` (code.py:37).
- AnalyzeData: the two-decimal message text (code.py:38) is not modelled. The result carries the mean itself.
- VisualizeData: only the guard and the arguments given to the plot are modelled. The arguments are the ratio list and 10 bars. The bucketing inside the plotting library, the styling and the PNG/image conversion (code.py:48-64) are foreign code.
