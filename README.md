# Budget transactions: loader and categorisers, modelled in Dafny

This project models three Python programs from a household-budget repository.

- **The CSV-to-database Lambda** (`budget-csv-transform/src/lambda/csv_to_rds/handler.py`). It is triggered by an S3 notification, reads the environment and the event, fetches the file and the database secret, and then loads the rows.
  - Each row is coerced field by field (`parse_field`, `to_date`, `to_decimal`, `parse_row`).
  - Each record is inserted into PostgreSQL. A failed insert is caught and skipped.
  - One commit is issued after the loop, then the cursor and connection are closed.
- **The keyword auto-categoriser** (`transactions_ml_model/auto_categorize.py`). It does two things:
  - It glues the physical lines of a bank export back into CSV rows (`clean_csv_newlines`).
  - It fills blank `Category` cells with the first category, in table order, that has a keyword in the row's text (`auto_categorize_transactions`).
- **The simple ML categoriser** (`transactions_ml_model/simple_ml_categorizer.py`). The model covers:
  - the text normaliser `clean_text`;
  - the keyword rule `suggest_category`;
  - the text `prepare_data` builds;
  - the training state of `SimpleTransactionCategorizer` (`is_trained`, and the fitted vectoriser and forest), which `train` and `load_model` set and which guards `predict`, `predict_csv` and `save_model`.

## Modules

| File | Module | What it holds |
|---|---|---|
| `text.dfy` | `Text` | Python whitespace, `strip`, `lower`, `count`, substring test, one-character `replace` |
| `keywords.dfy` | `Keywords` | The ordered (category, keywords) table and the first-match search both categorisers use |
| `frames.dfy` | `Frames` | A data-frame cell: a string or the missing value `NaN` |
| `options.dfy` | `Options` | `Option` |
| `seqs.dfy` | `Seqs` | Small sequence facts and an element-wise map |
| `coercion.dfy` | `Coercion` | `parse_field`, `to_date`, `to_decimal`, `parse_row` |
| `csv_to_rds.dfy` | `CsvToRds` | The database connection as a class, `process_csv_file`, and `main` |
| `auto_categorize.dfy` | `AutoCategorize` | `clean_csv_newlines` and `auto_categorize_transactions` |
| `simple_ml.dfy` | `SimpleMl` | `clean_text`, `suggest_category`, the prepared text, and the `Categorizer` class |

## How the model is built

- **Loops that update state become methods.** Each loop in the source that updates variables or an object is a method with a `while` or `for` loop. Each such method is proved against a specification function:
  - `ProcessCsvFile` against `ExpectedLoad`;
  - `CleanCsvNewlines` against `CleanLines`;
  - `AutoCategorizeTransactions` against `NewCells` and `TotalHits`;
  - `SearchRow`, the loop over the table for one row, against `Search`;
  - `KeywordSearch`, the loop over one entry's keywords, against `EntryMatches`;
  - `PredictCsv` against `PredictAll`.
  
  The lemmas then state what the source promises about those functions. The nested loops of `suggest_category` update nothing and return at the first match, so they stay the recursive function `Keywords.FirstMatch`.
- **Mutable objects become classes.**
  - The database connection is the class `CsvToRds.Sink`. It keeps a log of what was sent, the uncommitted inserts and the committed records.
  - `SimpleTransactionCategorizer` is the class `SimpleMl.Categorizer`, whose fields `train` and `load_model` reassign.
- **The pandas column is an array.** `auto_categorize_transactions` updates the `Category` column in place, so the model uses an `array<Cell>`.
- **Foreign calls are parameters.** Everything the code calls but does not define is a function-valued parameter:
  - S3 `get_object`;
  - Secrets Manager together with `json.loads`;
  - `csv.reader`;
  - `psycopg2.connect`;
  - the database's acceptance of an insert;
  - the fitted scikit-learn pipeline's prediction.
  
  Where the failure of a library step changes what the code does, that step is an input too (`Library` for `train`).
- **Text is ASCII-limited.**
  - Whitespace is Python's `str.isspace` restricted to ASCII: tab through carriage return, the four separators 0x1C-0x1F, and the space.
  - Lower-casing covers A-Z and the nine Polish capitals.

## Where the code and the intended design differ

The model follows the code in each of these cases.

- **Commit.** `process_csv_file` commits unconditionally after the loop, also when every insert failed (handler.py:82). The intended design commits only when some row was stored.
- **Release on failure.** Nothing in `process_csv_file` guards the release of the connection. A row with fewer than 13 fields makes `parse_row` raise `IndexError` outside the `try` (handler.py:73), so the load ends without a commit and without closing anything. The exception is caught only in `main` (handler.py:139-142).
- **Text fields are not trimmed.** `parse_row` passes its text slots through as `row[i] or None`, without stripping (handler.py:42-49). The intended design trims every field. `Coercion.TextSlotsNotStripped` exhibits the difference.
- **Missing categories in the keyword pass.** A missing (`NaN`) category cell, or one holding only whitespace, passes the blank test at auto_categorize.py:114. However, it differs from `''` at line 127, so the search stops after the first table entry. `AutoCategorize.SearchStopsAtFirstEntry` states this.
- **Missing categories in training.** The filter at simple_ml_categorizer.py:119 keeps rows whose category is `NaN`, because `NaN != ''` holds.
- **Partial update in `load_model`.** `load_model` assigns the vectoriser before it looks up the model key. A file without a `model` entry therefore replaces the vectoriser and still returns `False` (simple_ml_categorizer.py:248-249).

## Model

| member | source | states |
|---|---|---|
| Text.TrimStartSpec | budget-csv-transform/src/lambda/csv_to_rds/handler.py:13 | the left half of `strip` cuts a blank prefix and nothing else, and what is left does not start with whitespace |
| Text.TrimEndSpec | budget-csv-transform/src/lambda/csv_to_rds/handler.py:13 | the right half of `strip` cuts a blank suffix and nothing else, and what is left does not end with whitespace |
| Text.StripSpec | budget-csv-transform/src/lambda/csv_to_rds/handler.py:13 | neither end of the result of `strip` is whitespace, and the result is empty exactly when the input is blank |
| Text.StripSlice | budget-csv-transform/src/lambda/csv_to_rds/handler.py:13 | the result of `strip` is a slice of its input, and everything cut away on either side is whitespace |
| Text.StripIdempotent | transactions_ml_model/simple_ml_categorizer.py:73 | stripping twice is stripping once |
| Text.LowerStrSpec | transactions_ml_model/auto_categorize.py:118 | after `lower()` no capital remains, every character that is not a capital is kept in place, and lowering twice is lowering once |
| Text.RemoveCharSpec | budget-csv-transform/src/lambda/csv_to_rds/handler.py:26 | `replace(" ", "")` works piece by piece: removing from a concatenation is concatenating the removals, so every other character stays, in order; one character is dropped exactly when it is the removed one |
| Text.RemoveCharCounts | budget-csv-transform/src/lambda/csv_to_rds/handler.py:26 | removing one character leaves the count of every other character unchanged |
| Text.RemoveStrip | budget-csv-transform/src/lambda/csv_to_rds/handler.py:26 | removing a whitespace character before or after `strip` gives the same text |
| Text.ReplaceCharCounts | budget-csv-transform/src/lambda/csv_to_rds/handler.py:26 | after `replace(",", ".")` no comma remains, the periods are the old periods plus the old commas, and every other character occurs as often as before |
| Text.ReplaceStrip | budget-csv-transform/src/lambda/csv_to_rds/handler.py:26 | replacing one non-whitespace character by another before or after `strip` gives the same text |
| Keywords.FirstMatch | transactions_ml_model/simple_ml_categorizer.py:81-86 | the found entry has a matching keyword and no earlier entry has one; nothing is found exactly when no entry matches |
| Keywords.FirstMatchPrefix | transactions_ml_model/simple_ml_categorizer.py:81-84 | entries after the first matching one are never consulted |
| Keywords.CombinedText | transactions_ml_model/auto_categorize.py:118 | the four fields joined by single spaces: the first field, then a space, and three separators in all |
| Coercion.ParseField | budget-csv-transform/src/lambda/csv_to_rds/handler.py:12-13 | `None` exactly for blank text; otherwise the stripped value, which is non-empty with no whitespace at either end |
| Coercion.DaysInMonth | budget-csv-transform/src/lambda/csv_to_rds/handler.py:20 | every month has 28 to 31 days; February has 29 exactly in Gregorian leap years |
| Coercion.ParseIsoDate | budget-csv-transform/src/lambda/csv_to_rds/handler.py:20 | `strptime` with `%Y-%m-%d` yields only real calendar days |
| Coercion.ToDate | budget-csv-transform/src/lambda/csv_to_rds/handler.py:15-23 | blank text gives `None`; a date is produced only from stripped text of the shape `DDDD-DD-DD`, is the day its digits spell, and is a real calendar day |
| Coercion.ToDateSpec | budget-csv-transform/src/lambda/csv_to_rds/handler.py:15-23 | for every input, whitespace around the text is ignored, and a date comes back exactly when the stripped text has the shape `DDDD-DD-DD` and its digits spell a day that exists; everything else is the caught failure, `None` |
| Coercion.ToDatePaddedExample | budget-csv-transform/src/lambda/csv_to_rds/handler.py:16-20 | `" 2024-01-05 "` is January 5, 2024 |
| Coercion.ToDateShapeExample | budget-csv-transform/src/lambda/csv_to_rds/handler.py:19-23 | `"2024/01/05"` and `"abc"` give `None` |
| Coercion.DateRoundTrip | budget-csv-transform/src/lambda/csv_to_rds/handler.py:15-23 | every real date written as `YYYY-MM-DD` is read back as the same date |
| Coercion.DateTextReads | budget-csv-transform/src/lambda/csv_to_rds/handler.py:15-23 | `to_date` on `YYYY-MM-DD` text built from a year and two digit pairs gives that date when it exists and nothing otherwise |
| Coercion.LeapDayRule | budget-csv-transform/src/lambda/csv_to_rds/handler.py:20 | February 29 parses exactly in leap years; month 13 never parses |
| Coercion.ToDecimalIgnoresSpaces | budget-csv-transform/src/lambda/csv_to_rds/handler.py:25-33 | the value of any text is the value of that text with every space removed |
| Coercion.ToDecimalSpaceAnywhere | budget-csv-transform/src/lambda/csv_to_rds/handler.py:25-33 | inserting one space anywhere in the text never changes its value |
| Coercion.ToDecimalCommaAsPoint | budget-csv-transform/src/lambda/csv_to_rds/handler.py:25-33 | the value of any text is the value of that text with every comma written as a period |
| Coercion.ToDecimalCommaAt | budget-csv-transform/src/lambda/csv_to_rds/handler.py:25-33 | writing any single comma of the text as a period never changes its value |
| Coercion.UnsignedParses | budget-csv-transform/src/lambda/csv_to_rds/handler.py:30 | unsigned text parses exactly when it is digits, or digits with one period inside or at an end, with at least one digit |
| Coercion.ParseDecimalSyntax | budget-csv-transform/src/lambda/csv_to_rds/handler.py:30 | `Decimal` accepts exactly an optional sign followed by that unsigned form |
| Coercion.ToDecimalSyntax | budget-csv-transform/src/lambda/csv_to_rds/handler.py:25-33 | `to_decimal` gives a value exactly when the stripped text, spaces removed and commas written as periods, is in that grammar; otherwise `None` |
| Coercion.DecimalRoundTrip | budget-csv-transform/src/lambda/csv_to_rds/handler.py:30 | the canonical text of any decimal, scale included, parses back to that decimal |
| Coercion.ToDecimalRoundTrip | budget-csv-transform/src/lambda/csv_to_rds/handler.py:25-33 | `to_decimal` reads the canonical text of any decimal back exactly |
| Coercion.ToDecimalCommaRoundTrip | budget-csv-transform/src/lambda/csv_to_rds/handler.py:26 | a decimal comma in place of the period gives the same decimal |
| Coercion.ToDecimalPlainExample | budget-csv-transform/src/lambda/csv_to_rds/handler.py:25-33 | `"12.34"` is 1234 at scale 2 |
| Coercion.ToDecimalGroupedExample | budget-csv-transform/src/lambda/csv_to_rds/handler.py:26-30 | `"1 234,56"`, with a grouping space and a decimal comma, is 123456 at scale 2 |
| Coercion.ParseRow | budget-csv-transform/src/lambda/csv_to_rds/handler.py:35-51 | a record is produced exactly when the row has at least 13 fields; a shorter row raises `IndexError` |
| Coercion.ParseRowSlots | budget-csv-transform/src/lambda/csv_to_rds/handler.py:37-51 | slots 0-2 are the dates of fields 0-2; slots 3, 9 and 12 are the amounts; the other slots are the raw fields, `None` only when empty |
| Coercion.TextSlotsNotStripped | budget-csv-transform/src/lambda/csv_to_rds/handler.py:42-49 | a text slot that is all whitespace is stored as it is, where `parse_field` would give `None` |
| CsvToRds.Sink.constructor | budget-csv-transform/src/lambda/csv_to_rds/handler.py:55-56 | a fresh connection has sent nothing and holds nothing |
| CsvToRds.Sink.Execute | budget-csv-transform/src/lambda/csv_to_rds/handler.py:75 | an insert is logged; if accepted it is pending in the transaction; nothing is stored yet |
| CsvToRds.Sink.Commit | budget-csv-transform/src/lambda/csv_to_rds/handler.py:82 | commit stores every pending insert after the stored ones and clears the transaction |
| CsvToRds.Sink.CloseCursor | budget-csv-transform/src/lambda/csv_to_rds/handler.py:83 | closing the cursor is logged and changes no data |
| CsvToRds.Sink.CloseConnection | budget-csv-transform/src/lambda/csv_to_rds/handler.py:84 | closing the connection is logged and changes no data |
| CsvToRds.FirstShort | budget-csv-transform/src/lambda/csv_to_rds/handler.py:72-73 | the loop gets as far as the first row with fewer than 13 fields: every row before it is well-formed |
| CsvToRds.RecordsAt | budget-csv-transform/src/lambda/csv_to_rds/handler.py:72-73 | the j-th record is `parse_row` of the j-th row |
| CsvToRds.ProcessCsvFile | budget-csv-transform/src/lambda/csv_to_rds/handler.py:53-85 | outcome, log, open transaction and stored rows are those of the expected load: the header dropped, the rows attempted in order, failed inserts skipped, the accepted ones counted, and at the end one commit and the closes, or an `IndexError` at the first short row with nothing committed |
| CsvToRds.ExtendOne | budget-csv-transform/src/lambda/csv_to_rds/handler.py:74-76 | one more attempt adds one execute and, if accepted, one record |
| CsvToRds.AcceptedPlusRejected | budget-csv-transform/src/lambda/csv_to_rds/handler.py:74-80 | every attempted row is either counted or rejected |
| CsvToRds.AcceptedAreAttempted | budget-csv-transform/src/lambda/csv_to_rds/handler.py:72-80 | every record counted was attempted and accepted |
| CsvToRds.AcceptedAppend | budget-csv-transform/src/lambda/csv_to_rds/handler.py:72-80 | counting is done in input order: the records accepted from an earlier stretch of rows come before those accepted from a later one |
| CsvToRds.OneRejection | budget-csv-transform/src/lambda/csv_to_rds/handler.py:74-80 | exactly one rejected insert means exactly one row is not counted |
| CsvToRds.NoRejection | budget-csv-transform/src/lambda/csv_to_rds/handler.py:74-80 | when every insert is accepted, none is rejected |
| CsvToRds.LoadLogStart | budget-csv-transform/src/lambda/csv_to_rds/handler.py:72-80 | every load's log opens with the executes of the attempted rows |
| CsvToRds.AttemptsFollowRows | budget-csv-transform/src/lambda/csv_to_rds/handler.py:58-75 | the header is never inserted: the j-th execute is the record of data row j + 1 |
| CsvToRds.ShortRowNoCommit | budget-csv-transform/src/lambda/csv_to_rds/handler.py:72-84 | a load that meets a short row never commits |
| CsvToRds.WholeLoopCommits | budget-csv-transform/src/lambda/csv_to_rds/handler.py:71-85 | a load whose rows are all well-formed commits, reports the number of stored rows, and stores at most one per data row |
| CsvToRds.CommitOnlyAfterWholeLoop | budget-csv-transform/src/lambda/csv_to_rds/handler.py:72-84 | the load commits exactly when every data row has 13 fields; a finished load's `row_count` is the number of rows stored |
| CsvToRds.AllRowsAttempted | budget-csv-transform/src/lambda/csv_to_rds/handler.py:72-73 | with every data row well-formed, every data row is attempted |
| CsvToRds.RecordOfRow | budget-csv-transform/src/lambda/csv_to_rds/handler.py:72-73 | the j-th attempted record comes from row j + 1 of the file |
| CsvToRds.OneBadRowSkipped | budget-csv-transform/src/lambda/csv_to_rds/handler.py:71-80 | one rejected row out of n data rows still finishes the load, reporting n - 1 |
| CsvToRds.Dispatch | budget-csv-transform/src/lambda/csv_to_rds/handler.py:87-137 | the checks come in the source's order, and each failed check gives its own stop: missing variables, a malformed event, a failed S3 read, a failed secret lookup, a secret without `username` or `password`; a load happens exactly when every check passes, and it uses the bucket from the environment, the first record's key, the fetched content, and host, port and name from the environment with user and password from the secret |
| CsvToRds.NoReadBeforeGuards | budget-csv-transform/src/lambda/csv_to_rds/handler.py:90-107 | missing configuration or a malformed event stops before any S3 read or secret lookup |
| CsvToRds.OnlyFirstRecord | budget-csv-transform/src/lambda/csv_to_rds/handler.py:102 | records after the first in the event never matter |
| CsvToRds.BucketFromEnvironment | budget-csv-transform/src/lambda/csv_to_rds/handler.py:91-112 | two events with the same object key lead to the same run: the bucket comes from the environment |
| CsvToRds.Invoke | budget-csv-transform/src/lambda/csv_to_rds/handler.py:87-142 | an early stop is reported with its reason; a failed connect is caught; otherwise the result is the expected load of the split content |
| AutoCategorize.CleanCsvNewlines | transactions_ml_model/auto_categorize.py:22-49 | the loop's output is `CleanLines` of the input lines |
| AutoCategorize.ScanShape | transactions_ml_model/auto_categorize.py:36-45 | every emitted row has balanced quotes and at least 12 semicolons; the pending text never has both |
| AutoCategorize.CleanLinesShape | transactions_ml_model/auto_categorize.py:36-49 | every output row is complete except possibly the last, which is then a non-blank leftover |
| AutoCategorize.CompleteLinesUnchanged | transactions_ml_model/auto_categorize.py:28-45 | a file whose lines are all complete rows comes out unchanged |
| AutoCategorize.ScanKeepsCounts | transactions_ml_model/auto_categorize.py:28-45 | joining only adds spaces: every other character occurs as often in the emitted and pending text as in the input |
| AutoCategorize.BlankCount | transactions_ml_model/auto_categorize.py:48 | a leftover that strips to nothing holds no non-whitespace character |
| AutoCategorize.CleanLinesKeepCounts | transactions_ml_model/auto_categorize.py:28-49 | the output holds exactly as many quotes, semicolons and other non-space characters as the input |
| AutoCategorize.GlueAllIsJoin | transactions_ml_model/auto_categorize.py:30-33 | a glued run is the `" ".join` of its lines once the leading empty lines, absorbed without a space, are dropped |
| AutoCategorize.FeedCases | transactions_ml_model/auto_categorize.py:36-45 | a step either emits the glued text and clears it, or keeps it pending |
| AutoCategorize.ScanRuns | transactions_ml_model/auto_categorize.py:28-45 | each emitted row is the glue of a non-empty run of consecutive input lines; the pending text glues the lines after them; the runs and pending lines together are the input in order |
| AutoCategorize.AutoCategorizeTransactions | transactions_ml_model/auto_categorize.py:105-128 | the column after the pass is `NewCells` of the starting column (the existing one, or all `''` when it was added), and the count is `TotalHits` |
| AutoCategorize.SearchRow | transactions_ml_model/auto_categorize.py:121-128 | the row's cell becomes the search result, the count is its hits, and no other cell changes |
| AutoCategorize.KeywordSearch | transactions_ml_model/auto_categorize.py:122-126 | true exactly when some keyword of the entry, lowered, occurs in the text |
| AutoCategorize.CategorizeRowCases | transactions_ml_model/auto_categorize.py:113-114 | only a missing or blank cell is searched; any other cell is left alone with no hit |
| AutoCategorize.RowHits | transactions_ml_model/auto_categorize.py:112-125 | one row adds its own hits to the count |
| AutoCategorize.SearchFromEmpty | transactions_ml_model/auto_categorize.py:121-128 | from `''`, the cell gets the first entry in table order with a keyword in the text, counted once, or stays `''` with no count |
| AutoCategorize.SearchStopsAtFirstEntry | transactions_ml_model/auto_categorize.py:127-128 | a `NaN` or whitespace-only cell is checked against the first entry only |
| AutoCategorize.RowAssignedOnce | transactions_ml_model/auto_categorize.py:113-128 | a row is counted at most once, exactly when its cell changes, and a changed cell holds a category |
| AutoCategorize.CountIsChangedRows | transactions_ml_model/auto_categorize.py:112-128 | `auto_categorized` is the number of rows whose category the pass changed |
| AutoCategorize.AddedColumnGetsFirstMatch | transactions_ml_model/auto_categorize.py:105-128 | where the column was added, each row ends with its first matching category or `''` |
| SimpleMl.ScrubSpec | transactions_ml_model/simple_ml_categorizer.py:70 | the scrubbed text holds only kept letters and whitespace, kept characters stay in place, and scrubbing twice is scrubbing once |
| SimpleMl.SqueezeSpec | transactions_ml_model/simple_ml_categorizer.py:73 | no two spaces in a row remain, every other character comes from the input, and a leading run of whitespace becomes a leading space |
| SimpleMl.SqueezeRun | transactions_ml_model/simple_ml_categorizer.py:73 | each run of whitespace becomes exactly one space: a run between two pieces of text is replaced by one space and the pieces are squeezed on their own |
| SimpleMl.SqueezeFixed | transactions_ml_model/simple_ml_categorizer.py:73 | text whose only whitespace is single spaces is its own squeeze |
| SimpleMl.StripToForm | transactions_ml_model/simple_ml_categorizer.py:73 | stripping letters and single spaces gives the clean form |
| SimpleMl.SqueezeScrubbed | transactions_ml_model/simple_ml_categorizer.py:70-73 | scrubbing then squeezing leaves only kept letters and spaces |
| SimpleMl.LowerKeeps | transactions_ml_model/simple_ml_categorizer.py:67 | lower-casing leaves the kept letters and the space alone |
| SimpleMl.CleanTextForm | transactions_ml_model/simple_ml_categorizer.py:61-75 | the output holds only a-z, the letters ąćęłńóśźż and single spaces, with no space at either end |
| SimpleMl.CleanFormFixed | transactions_ml_model/simple_ml_categorizer.py:61-75 | text already in that form is returned unchanged |
| SimpleMl.CleanTextIdempotent | transactions_ml_model/simple_ml_categorizer.py:61-75 | cleaning a cleaned text changes nothing |
| SimpleMl.CleanTextEmpty | transactions_ml_model/simple_ml_categorizer.py:63-64 | missing and empty input give `''` |
| SimpleMl.ScrubKeepsLetters | transactions_ml_model/simple_ml_categorizer.py:70 | scrubbing keeps every kept letter in order |
| SimpleMl.SqueezeKeepsLetters | transactions_ml_model/simple_ml_categorizer.py:73 | squeezing keeps every kept letter in order |
| SimpleMl.StripKeepsLetters | transactions_ml_model/simple_ml_categorizer.py:73 | stripping keeps every kept letter in order |
| SimpleMl.CleanTextKeepsLetters | transactions_ml_model/simple_ml_categorizer.py:61-75 | the cleaned text has exactly the kept letters of the lowered input, in order; for missing or empty input both are empty |
| SimpleMl.SuggestCategorySpec | transactions_ml_model/simple_ml_categorizer.py:77-86 | when some entry's lowered keyword occurs in the lowered text, the result is the name of the first such entry in table order; when none does, it is `OTHER`; with no entry named `OTHER`, `OTHER` means exactly that nothing matched |
| SimpleMl.PreparedTextJoins | transactions_ml_model/simple_ml_categorizer.py:91-102 | when the first and last fields clean to something, the prepared text is the four cleaned fields joined by single spaces, and is what `predict` sees |
| SimpleMl.EmptyMiddleLeavesDoubleSpace | transactions_ml_model/simple_ml_categorizer.py:97-102 | a middle field that cleans to nothing leaves two spaces in a row, because only the ends are stripped |
| SimpleMl.PreparedTextTrimmed | transactions_ml_model/simple_ml_categorizer.py:102 | the prepared text never starts or ends with whitespace |
| SimpleMl.LabelledIsStripped | transactions_ml_model/simple_ml_categorizer.py:119 | a row is kept exactly when its category is missing or strips to something |
| SimpleMl.SelectKeepsLabelled | transactions_ml_model/simple_ml_categorizer.py:119 | every kept category is missing or non-blank |
| SimpleMl.SelectEmpty | transactions_ml_model/simple_ml_categorizer.py:119-121 | nothing is kept exactly when no row has a category |
| SimpleMl.SelectAll | transactions_ml_model/simple_ml_categorizer.py:119 | when every row has a category, every row is kept with its category, in order |
| SimpleMl.PredictAllRows | transactions_ml_model/simple_ml_categorizer.py:206-213 | one prediction per row, in order: the pipeline's category for that row's cleaned, space-joined fields |
| SimpleMl.TrainGuards | transactions_ml_model/simple_ml_categorizer.py:113-123 | with no `Category` column, or no row with a category, `train` returns `False` and leaves every field unchanged |
| SimpleMl.TrainSetsFlagOnSuccess | transactions_ml_model/simple_ml_categorizer.py:106-161 | `is_trained` is set only by a `train` that returns `True`, which leaves both objects fitted on the kept rows; a `train` that fails in any way leaves the flag and the forest unchanged |
| SimpleMl.LoadSetsFlagOnSuccess | transactions_ml_model/simple_ml_categorizer.py:244-255 | `load_model` returns `True` exactly when the file has both entries, and then sets the flag and both objects; a failed load leaves the flag and the forest unchanged |
| SimpleMl.SaveLoadRoundTrip | transactions_ml_model/simple_ml_categorizer.py:230-255 | loading what `save_model` wrote restores the saved state, whatever state the loader was in |
| SimpleMl.UntrainedGuards | transactions_ml_model/simple_ml_categorizer.py:163-167 | a fresh or untrained categoriser predicts nothing and saves nothing |
| SimpleMl.Categorizer.constructor | transactions_ml_model/simple_ml_categorizer.py:18-21 | both objects start unfitted and `is_trained` starts false |
| SimpleMl.Categorizer.Suggest | transactions_ml_model/simple_ml_categorizer.py:77-86 | the suggestion is `OTHER` or a category of the table |
| SimpleMl.Categorizer.Train | transactions_ml_model/simple_ml_categorizer.py:106-161 | the new state and the outcome are those of `TrainState` on the old state |
| SimpleMl.Categorizer.Predict | transactions_ml_model/simple_ml_categorizer.py:163-186 | `None` exactly while untrained; otherwise the pipeline's category for the cleaned fields joined by single spaces |
| SimpleMl.Categorizer.PredictCsv | transactions_ml_model/simple_ml_categorizer.py:188-213 | nothing while untrained; otherwise `PredictAll` of the rows under the current state |
| SimpleMl.Categorizer.Save | transactions_ml_model/simple_ml_categorizer.py:230-242 | nothing while untrained; otherwise a file from which `load_model` restores the current state |
| SimpleMl.Categorizer.Load | transactions_ml_model/simple_ml_categorizer.py:244-255 | the new state and the result are those of `LoadState` on the old state |

## Left out

- **AWS.** The internals of boto3 (S3 `get_object`, Secrets Manager) and `json.loads` are parameters that succeed or fail.
- **Reading the file.** The UTF-8 decode sits in the same `try` as the S3 read (handler.py:108-117), so it is part of the `getObject` parameter: a failed decode is a failed read. Only the splitting and quoting of `csv.reader` are folded into the `split` parameter of `Invoke`.
- **PostgreSQL.** `psycopg2.connect` success and insert acceptance are parameters.
  - The model assumes the per-row isolation the design asks for. The `accepts` parameter judges each record on its own, and `Commit` stores every accepted record. This is what `ExpectedLoad`, `OneRejection` and `OneBadRowSkipped` describe.
  - Under PostgreSQL, the code as written gets the abort cascade instead, because it has no savepoint around `cursor.execute` (handler.py:71-82).
    - After the first failed insert, the transaction is aborted and every later insert fails too, so `row_count` stops at the bad row.
    - `conn.commit()` on the aborted transaction rolls back, so nothing is stored at all, not the accepted records.
  - The model does not capture this cascade. A function of one record cannot express it.
  - `conn.commit()`, `cursor.close()` and `conn.close()` are modelled as never failing.
- CsvToRds.OneBadRowSkipped: describes the per-row isolation the design asks for. Against PostgreSQL with the code as written, its premise (one rejected insert with accepted inserts after it) cannot arise, because of the abort cascade described above.
- **Output.** All `print` output and `traceback` printing, the progress message every 50 rows (handler.py:77-78), and the statistics printouts are left out.
- Coercion.ParseIsoDate: accepts only the zero-padded `YYYY-MM-DD` form. `strptime` also accepts unpadded month and day digits, so those inputs read as `None` here.
- Coercion.ParseDecimal: models the grammar `[+-]? digits ('.' digits)?`, where either side of the point may be empty but not both. Exponents, `NaN`, `Infinity` and underscores, which `Decimal` also accepts, are not modelled. A negative zero keeps no sign.
- **Unicode.** Whitespace outside ASCII and Unicode lower-casing beyond A-Z and the Polish capitals are not modelled.
- **Frames.** pandas `read_csv` and `to_csv` are not modelled; a frame is given as its rows and its `Category` column.
  - `row.get` of an absent column is `Option.None`.
  - The frame is assumed to carry the columns the code reads by subscript: `Opis` and `Produkt` for `AutoCategorize` (auto_categorize.py:118), and `Opis`, `Nadawca`, `Odbiorca` and `Produkt` for `SimpleMl` (simple_ml_categorizer.py:91-94, 207). An absent column raises `KeyError`, which ends the run. In `auto_categorize_transactions` this happens at the first uncategorised row, before anything is written. This case is not modelled: `Row` and `Transaction` always hold those fields.
  - `str(text)` of a non-string cell (a number pandas inferred) is not modelled; cells are strings or `NaN`.
- SimpleMl.TrainState: models only one case where pandas raises at `.str`, a `Category` column that holds only missing values. A column pandas reads as numbers also raises there, and that case is not modelled.
- **The category tables.** The dictionaries at auto_categorize.py:67-103 and simple_ml_categorizer.py:24-59 are given as a `Table` parameter and are not spelled out. The search is proved for every table.
- **`clean_csv_newlines` file handling.** Reading the file, `content.split('\n')`, and writing `'\n'.join(...)` to the output file (auto_categorize.py:18-22, 52-56) are not modelled. The method works on the list of lines and returns the list of rows.
- **scikit-learn and joblib.** TF-IDF, random-forest fitting, `train_test_split`, `predict_proba` confidences, accuracy and classification reports, and `joblib` serialisation are out of scope.
  - A fitted object is reduced to the data it was fitted on.
  - The fitted pipeline's prediction is the `classify` parameter.
  - Which library step raises in `train` is the `library` input.
- **Confidences.** `predict` returns only the category; `predict_csv` returns only the categories, without the confidence column.
- **Other code.** The `main` functions of both categoriser scripts and the infrastructure code are not part of this model.
