# Medicine sales: aggregation with retry, and the January/2016 loader

This project models two scripts of a pipeline for pharmaceutical sales
records of the municipalities of the state of Rio de Janeiro.

**Aggregation** (`agrupamento_vendas_medicamentos.py`,
class `AgrupadorVendasMedicamentos`):
- For each municipality it runs a grouped-sum query. A query whose exception
  mentions "timeout" in any letter case is retried, up to three attempts.
- The `Decimal` results of `SUM` are converted to floats in place.
- The rows are appended to one table, and the loop counts the municipalities
  with and without data.
- It computes statistics over the table. There are two definitions of
  `obter_estatisticas`; the later one replaces the earlier, which also
  cross-checks the per-year subtotals against the direct sum.
- It refuses to write an empty table.

**Loader** (`inserir_janeiro_2016.py`, class `InserirJaneiro2016`):
- It detects the CSV delimiter from the header line and reads the file.
- It deletes the January/2016 rows of the sales table.
- It inserts the file's RJ rows whose municipality is in the list of valid
  municipalities, truncating each field to its column width.
- `executar` chains these steps and stops with an error status at the first
  step that fails.

The model has seven modules. Each source entity keeps its form:
- The aggregator is a class whose methods update its table.
- The retry recursion, the orchestrator loop, the Decimal walk (over an
  array), the delimiter search and the insertion loop are methods with
  loops. `executar`, which has no loop, is a method that runs its steps in
  sequence and returns at the first one that fails.
- Each method except `SalesAggregator.Save` is proved equal to a function
  that specifies it, or to the table that function computes. The properties
  are proved about those functions. `Save` has no such function: its
  ensures give its outcome for every combination of table, path and
  failures directly.

What the model takes as inputs:
- The database and the file system are parameters. A query is a script of
  what each attempt returned or raised.
- A CSV file is its header line plus its rows, already split into cells.
- A database failure, a read failure or a directory failure is a boolean or
  a set of row indices.
- Waits are counted, not slept.

Where the code behaves in ways a caller might not expect, the model
follows the code:
- **The limit.** `processar_todos_municipios` tests the limit for Python
  truthiness, so a limit of 0 processes every municipality. A negative limit
  slices from the end.
- **Empty selection.** A negative limit at least as large as the directory
  selects no municipality. The success-rate division then raises
  `ZeroDivisionError` after the loop. This is `DivisionByZero`.
- **Output directory.** Creating the output directory is outside the `try`
  of `salvar_json`/`salvar_csv`, so a failure there propagates instead of
  returning `False`. This is `DirectoryError`.
- **Missing `UF_VENDA`.** The guard for a missing `UF_VENDA` column in the
  result of `executar` (line 235) is never reached. `inserir_dados` has
  already raised `KeyError` at line 138 by then.
- **Cross-check with missing years.** The cross-check of the earlier
  `obter_estatisticas` is exact only when every row has a year. `unique()`
  keeps a missing year, but filtering by equality against it selects no row.
  So the difference is exactly the total of the rows without a year.

## Model

| member | source | states |
|---|---|---|
| Text.Lower | agrupamento_vendas_medicamentos.py:174 | `str.lower` over Latin-1: same length, each upper-case letter mapped to its lower-case letter and every other character kept |
| Text.Upper | inserir_janeiro_2016.py:162 | `str.upper` over Latin-1: the result is between one and two times as long as the input (ß becomes "SS"). Without a ß it maps character by character, lower-case letters to their capitals (µ and ÿ to Μ and Ÿ) and every other character to itself. A single character maps as `UpperChar` maps it, so with `UpperAppend` this determines `Upper` on every string |
| Text.UpperChar | inserir_janeiro_2016.py:162 | upper-casing one Latin-1 character: a lower-case letter becomes its capital, ß becomes "SS", µ and ÿ become Μ and Ÿ outside Latin-1, and every other character stays |
| Text.UpperAppend | inserir_janeiro_2016.py:162 | upper-casing a concatenation is the concatenation of the upper-cased parts |
| Text.UpperIdempotent | inserir_janeiro_2016.py:162 | upper-casing an already upper-cased municipality name changes nothing |
| Text.Strip | inserir_janeiro_2016.py:162 | `str.strip`: the result is the input with only whitespace before and after it removed, and it neither begins nor ends with whitespace |
| Text.StripOfStripped | inserir_janeiro_2016.py:162 | stripping a string without surrounding whitespace leaves it unchanged |
| Text.Contains | agrupamento_vendas_medicamentos.py:174 | Python's `sub in s`: the empty string is in every string, and a string found is no longer than the one searched. `ContainsAt` gives its meaning as an occurrence at some position |
| Text.ContainsAt | agrupamento_vendas_medicamentos.py:174 | the substring test `in` holds exactly when the substring occurs at some position |
| Text.Take | inserir_janeiro_2016.py:167-176 | the slice `s[:n]` is a prefix of `s` of length `min(n, len(s))` |
| Text.Split | inserir_janeiro_2016.py:46-62 | splitting a header on a delimiter gives at least one column, and no column contains the delimiter |
| Text.JoinSplit | inserir_janeiro_2016.py:46-62 | joining the columns of a split header with the delimiter gives back the header |
| Text.SplitJoin | inserir_janeiro_2016.py:46-62 | splitting a header built from delimiter-free column names gives back exactly those names |
| Records.Cell | agrupamento_vendas_medicamentos.py:213-216 | a column read from a row dictionary is missing (NaN in the DataFrame) or holds a non-null value |
| Records.CellMeaning | agrupamento_vendas_medicamentos.py:213-216 | a column read from a row dictionary is the value of the first entry with that key, missing (NaN in the DataFrame) when that value is None or when no entry has the key |
| Records.ToFloat | agrupamento_vendas_medicamentos.py:132-135 | a Decimal becomes the float of equal value, and any other value is left unchanged |
| Records.ConvertRecord | agrupamento_vendas_medicamentos.py:133-135 | one row after the inner loop: the same length, and each entry keeps its key and has its value passed through `ToFloat` |
| Records.ConvertAll | agrupamento_vendas_medicamentos.py:130-136 | all rows after the walk: the same number of rows, in order, row `i` being row `i` converted on its own |
| Records.ConvertRecordAt | agrupamento_vendas_medicamentos.py:130-136 | converting a row keeps its length and its keys in order, and converts each entry on its own |
| Records.ConvertRecordHasNoDecimal | agrupamento_vendas_medicamentos.py:130-136 | no Decimal is left in a converted row |
| Records.ConvertRecordWithoutDecimal | agrupamento_vendas_medicamentos.py:130-136 | a row without Decimals is not changed by the conversion |
| Records.ConvertAllAt | agrupamento_vendas_medicamentos.py:130-136 | the conversion keeps the number and order of rows, and row i becomes the conversion of row i |
| Records.ConvertAllIdempotent | agrupamento_vendas_medicamentos.py:130-136 | running the conversion twice gives the same rows as running it once |
| Records.CellAfterConversion | agrupamento_vendas_medicamentos.py:130-136 | after the conversion, a column holds the float of its former Decimal, holds its former value otherwise, and stays missing if it was missing |
| Records.ConvertDecimals | agrupamento_vendas_medicamentos.py:130-136 | the in-place double loop leaves the array equal to the converted rows |
| Retry.IsTimeout | agrupamento_vendas_medicamentos.py:174 | an exception is a timeout exactly when `timeout` occurs somewhere in its lower-cased message |
| Retry.Aggregate | agrupamento_vendas_medicamentos.py:138-179 | the retry recursion as written. A call from attempt `a` stops at an attempt between `a` and 3, after one wait fewer than attempts. It returns the converted rows of that attempt when the query returned rows and nothing when it raised. It stops before the third attempt only on an outcome that is not a timeout |
| Retry.AggregateOutcome | agrupamento_vendas_medicamentos.py:138-179 | a query stops at some attempt k ≤ 3 after k-1 waits, and every earlier attempt raised a timeout. It returns the converted rows if attempt k succeeded and nothing if it raised. A timeout at attempt k means k = 3 |
| Retry.PersistentTimeout | agrupamento_vendas_medicamentos.py:170-179 | a query that always times out is executed exactly three times, waits twice and gives no rows |
| Retry.OtherErrorNotRetried | agrupamento_vendas_medicamentos.py:170-179 | an exception that does not mention a timeout ends the query after one attempt with no rows |
| Retry.TimeoutIgnoresCase | agrupamento_vendas_medicamentos.py:174 | a corollary of `Lower` being idempotent: classifying an exception as a timeout gives the same answer on its lower-cased message |
| Retry.QueryMunicipality | agrupamento_vendas_medicamentos.py:138-179 | the retry written as a bounded loop returns what the recursion returns: between 1 and 3 attempts, one wait fewer than attempts |
| TableStatistics.Total | agrupamento_vendas_medicamentos.py:340 | `sum()` of `TOTAL_VENDIDO`: a one-row table sums to that row's amount, and a table whose amounts are all non-negative has a non-negative total. With `TotalAppend` (additivity) this determines it |
| TableStatistics.Distinct | agrupamento_vendas_medicamentos.py:337-339 | the values a `nunique()` counts: none in an empty table, and in a one-row table that row's value, or none when it is missing. With `DistinctAppend` this determines it |
| TableStatistics.UniqueYears | agrupamento_vendas_medicamentos.py:40 | `unique()` of `ANO_VENDA`: no more years than rows, and the first is the first row's year (first-appearance order) |
| TableStatistics.Subtotal | agrupamento_vendas_medicamentos.py:41-42 | the sum over the rows equal to a year: a missing year (NaN) selects no row and sums to 0, and a one-row table sums to that row's amount exactly when its year is the one asked for |
| TableStatistics.UniqueYearsComplete | agrupamento_vendas_medicamentos.py:40 | `unique()` of the year column lists each row's year (a missing year included) exactly once, and lists nothing else |
| TableStatistics.SubtotalOfAbsentYear | agrupamento_vendas_medicamentos.py:41-42 | a year that no row has contributes a zero subtotal |
| TableStatistics.CrossCheck | agrupamento_vendas_medicamentos.py:38-46 | the sum of the per-year subtotals equals the direct sum minus the total of the rows without a year |
| TableStatistics.CrossCheckExact | agrupamento_vendas_medicamentos.py:38-46 | when every row has a year, the per-year subtotals add up to the direct sum |
| TableStatistics.NoMissingYear | agrupamento_vendas_medicamentos.py:38-46 | when every row has a year, no quantity goes uncounted by the per-year check |
| TableStatistics.DistinctBound | agrupamento_vendas_medicamentos.py:337-339 | a `nunique()` count is at most the number of rows |
| TableStatistics.DistinctMembers | agrupamento_vendas_medicamentos.py:337-339 | a value is among the distinct values of a column if and only if some row holds it there |
| TableStatistics.TotalAppend | agrupamento_vendas_medicamentos.py:213-216 | the total of a table with a batch appended is the old total plus the batch's total |
| TableStatistics.DistinctAppend | agrupamento_vendas_medicamentos.py:213-216 | the distinct values after appending a batch are those of the table together with those of the batch |
| TableStatistics.TotalAfterConversion | agrupamento_vendas_medicamentos.py:130-136 | converting Decimals to floats does not change the total sold |
| TableStatistics.Statistics | agrupamento_vendas_medicamentos.py:330-344 | the status is empty exactly when the table is. Otherwise the record count is the number of rows, and the municipality, year and ingredient counts are the numbers of distinct non-missing values in their columns, each at most the record count. The total sold is the direct sum, which equals the per-year subtotals plus the rows without a year |
| TableStatistics.StatisticsAfterAppend | agrupamento_vendas_medicamentos.py:330-344 | appending a batch adds its size to the record count and its total to the total sold, and no distinct count decreases |
| Aggregation.Select | agrupamento_vendas_medicamentos.py:189-194 | the municipalities processed are a prefix of the directory. A missing or zero limit keeps all of them, a positive limit keeps the first `limit`, and a negative limit drops `-limit` from the end |
| Aggregation.Batches | agrupamento_vendas_medicamentos.py:205-211 | one batch per municipality, in directory order, batch i being the rows the retrying query on municipality i returns |
| Aggregation.Step | agrupamento_vendas_medicamentos.py:213-223 | the loop body for one municipality: the batch is appended and its length added to the record count, and exactly one counter grows by one, the with-data counter exactly when the batch is non-empty |
| Aggregation.Accumulate | agrupamento_vendas_medicamentos.py:205-223 | the loop body applied to the batches in order: the two counters add up to the number of municipalities, and the record count is the number of rows appended |
| Aggregation.AccumulateStep | agrupamento_vendas_medicamentos.py:205-223 | a one-step unfolding used by the loop proof: one more batch is the loop body applied once more |
| Aggregation.FlattenAppend | agrupamento_vendas_medicamentos.py:213-216 | concatenating one more batch appends its rows and counts it as with data exactly when it is non-empty |
| Aggregation.AccumulateMeaning | agrupamento_vendas_medicamentos.py:196-222 | each municipality is counted once, with or without data. The municipalities with data are those whose batch is non-empty, the record count is the number of rows appended, and the rows appended are all batches in order |
| Aggregation.AccumulateNoData | agrupamento_vendas_medicamentos.py:213-223 | when no query returned rows, nothing is appended and every municipality counts as without data |
| Aggregation.BatchDecimalFree | agrupamento_vendas_medicamentos.py:163 | the rows one retrying query returns hold no Decimal, whatever attempt it stopped at |
| Aggregation.ConvertAllDecimalFree | agrupamento_vendas_medicamentos.py:163 | rows returned by a query hold no Decimal |
| Aggregation.RunAppendsNoDecimal | agrupamento_vendas_medicamentos.py:211-216 | a whole run appends no Decimal to the table |
| Aggregation.SalesAggregator.constructor | agrupamento_vendas_medicamentos.py:23-30 | a new aggregator starts with an empty table |
| Aggregation.SalesAggregator.ProcessAll | agrupamento_vendas_medicamentos.py:181-245 | an empty directory returns False and leaves the table alone. Otherwise the table grows by the selected municipalities' batches in order, the counters are those given by `Accumulate`, and it waits between municipalities but not after the last. It completes unless the selection is empty, in which case the success rate divides by zero |
| Aggregation.SalesAggregator.QuerySelected | agrupamento_vendas_medicamentos.py:205-223 | the loop over the selected municipalities: the table gains the rows `Accumulate` appends, the three counters are those of `Accumulate`, and there is one wait fewer than municipalities |
| Aggregation.SalesAggregator.StatisticsWithCrossCheck | agrupamento_vendas_medicamentos.py:33-57 | the statistics are those of the later definition. The per-year sum is the direct sum minus the rows without a year, and the two agree when every row has a year |
| Aggregation.DefaultPath | agrupamento_vendas_medicamentos.py:253-256 | the dated default file lies inside the output directory and ends with the extension of its format |
| Aggregation.SalesAggregator.Save | agrupamento_vendas_medicamentos.py:247-316 | `salvar_json` and `salvar_csv`: an empty table is never written. A given non-empty path is written to, and otherwise a dated `.json` or `.csv` file under the output directory; a failure to create that directory escapes the `try`, and any other failure returns False |
| Jan2016Loader.Detects | inserir_janeiro_2016.py:48-62 | a delimiter detects `UF_VENDA` when the header split on it has that column; a delimiter that occurs in `UF_VENDA` itself never does |
| Jan2016Loader.FirstDetected | inserir_janeiro_2016.py:46-69 | the delimiter found is a candidate that splits the header into a `UF_VENDA` column. None is found exactly when no candidate does |
| Jan2016Loader.FirstDetectedIsFirst | inserir_janeiro_2016.py:46-62 | every candidate tried before the one found fails to detect `UF_VENDA` |
| Jan2016Loader.DiagnoseDelimiter | inserir_janeiro_2016.py:39-73 | the loop over `;`, tab, `,` and `|` returns the first delimiter that detects `UF_VENDA`, or None exactly when none does |
| Jan2016Loader.SemicolonDetectedFirst | inserir_janeiro_2016.py:46-62 | a header that splits on `;` into a `UF_VENDA` column is always diagnosed as `;` |
| Jan2016Loader.ParseQuantity | inserir_janeiro_2016.py:168 | a missing quantity is 0, a number is kept, and only an unparseable cell fails |
| Jan2016Loader.Prepare | inserir_janeiro_2016.py:161-180 | a row is inserted if and only if it has the needed columns, its municipality key is valid and its quantity parses. The tuple is for January 2016, each text field is cut to its column width, and the quantity is the parsed one |
| Jan2016Loader.MunicipalityKey | inserir_janeiro_2016.py:162 | the normalised municipality is at most twice as long as the cell read, and a missing municipality (NaN) is read as `nan` and becomes `NAN` |
| Jan2016Loader.MissingMunicipalityKey | inserir_janeiro_2016.py:162 | `str(nan).strip().upper()` is `NAN` |
| Jan2016Loader.MunicipalityKeyUpperCased | inserir_janeiro_2016.py:162 | the municipality key is already upper-cased |
| Jan2016Loader.IsRj | inserir_janeiro_2016.py:138 | a row is RJ when its `UF_VENDA` equals `RJ`; a missing (NaN) `UF_VENDA` never does |
| Jan2016Loader.RjIndices | inserir_janeiro_2016.py:138 | `df[df['UF_VENDA'] == 'RJ']` keeps exactly the RJ rows, in file order |
| Jan2016Loader.InsertedTuples | inserir_janeiro_2016.py:159-183 | the tuples inserted, in file order, for the considered rows: at most one per row. `InsertedTuplesMeaning`, `AcceptedPositionInserted` and `InsertedTuplesStep` give which ones |
| Jan2016Loader.InsertedTuplesStep | inserir_janeiro_2016.py:154-191 | a one-step unfolding used by the loop proof of `InsertRows`: one more RJ row adds its prepared tuple if it is accepted and the database takes it, and nothing otherwise |
| Jan2016Loader.InsertedTuplesMeaning | inserir_janeiro_2016.py:154-191 | at most one tuple per RJ row is inserted, every tuple is well formed, and each comes from an accepted RJ row |
| Jan2016Loader.AcceptedPositionInserted | inserir_janeiro_2016.py:154-191 | every considered position whose row is prepared and which the database does not reject has its tuple among those inserted |
| Jan2016Loader.AcceptedRowInserted | inserir_janeiro_2016.py:138-191 | every RJ row of the file that is prepared and accepted by the database is inserted. With `InsertedRowsAreValidRj` this is both directions |
| Jan2016Loader.InsertedRowsAreValidRj | inserir_janeiro_2016.py:138-164 | every inserted tuple comes from an RJ row of the file whose municipality is valid |
| Jan2016Loader.InsertOutcome | inserir_janeiro_2016.py:128-198 | `KeyError` escapes exactly when the frame has no `UF_VENDA` column. No frame, no RJ row or a failed connection inserts nothing. With a `UF_VENDA` column and a working connection, the tuples inserted are `InsertedTuples` over the RJ rows: the prepared tuple of each RJ row that is accepted, in file order. The count returned is the number of tuples inserted, at most the number of RJ rows, and every tuple is well formed |
| Jan2016Loader.InsertRows | inserir_janeiro_2016.py:128-198 | the insertion loop, with its per-row skips, returns what `InsertOutcome` gives |
| Jan2016Loader.WithoutPeriod | inserir_janeiro_2016.py:115-119 | the table after the DELETE: no longer than before, and no tuple kept is dated January 2016 |
| Jan2016Loader.WithoutPeriodMembers | inserir_janeiro_2016.py:115-119 | a tuple is kept by the DELETE exactly when it was in the table and is not dated January 2016. `WithoutPeriodAppend` keeps the order |
| Jan2016Loader.WithoutPeriodAppend | inserir_janeiro_2016.py:115-119 | the rows outside January/2016 of two tables together are those of each, in order |
| Jan2016Loader.OfPeriodAppend | inserir_janeiro_2016.py:115-119 | the January/2016 rows of two tables together are those of each, in order |
| Jan2016Loader.PeriodFiltersOfPeriod | inserir_janeiro_2016.py:172-175 | tuples all dated January/2016 are all kept by the period filter and none by its complement |
| Jan2016Loader.WithoutPeriodHasNone | inserir_janeiro_2016.py:115-119 | after the DELETE no January/2016 row remains, and deleting again changes nothing |
| Jan2016Loader.ReloadReplacesPeriod | inserir_janeiro_2016.py:108-126 | delete followed by insert leaves exactly the new tuples as January/2016 and every other row as it was |
| Jan2016Loader.ReadFrame | inserir_janeiro_2016.py:75-106 | the read gives the header split on the delimiter used plus the rows. It fails exactly when the read raises, or when it finds RJ rows but no `MUNICIPIO_VENDA` column |
| Jan2016Loader.ExpectedRun | inserir_janeiro_2016.py:200-248 | a run performs a prefix of verify, diagnose, read, clean, insert and stops at the first step that fails, with that step's message: a missing file, no delimiter detected, a failed read or a failed clean give their own error after 1, 2, 3 or 4 steps, with the table untouched. A run that passes all four inserts, and then either crashes with `KeyError`, with the period deleted, or succeeds with the delimiter reported, the RJ row count and the tuples inserted |
| Jan2016Loader.Execute | inserir_janeiro_2016.py:200-248 | `executar` as written (read with `;`, report `;`) gives the steps, result and table of `ExpectedRun` in the as-written mode |
| Jan2016Loader.ExecuteWithDetectedDelimiter | inserir_janeiro_2016.py:200-248 | `executar` reading with the delimiter it detected gives the steps, result and table of `ExpectedRun` in the corrected mode |
| Jan2016Loader.AsWrittenCrashesOnOtherDelimiters | inserir_janeiro_2016.py:210-226 | as written, a run that reaches the insert crashes with `KeyError` exactly when the detected delimiter is not `;`. It then leaves the table with January/2016 deleted and nothing inserted |
| Jan2016Loader.CorrectedNeverCrashes | inserir_janeiro_2016.py:210-226 | reading with the detected delimiter, no run ends in `KeyError` |
| Jan2016Loader.CorrectionAgreesOnSemicolonFiles | inserir_janeiro_2016.py:210-226 | on files diagnosed as `;` (or not diagnosed), the corrected run and the run as written coincide |
| Jan2016Loader.SuccessfulRunReloadsPeriod | inserir_janeiro_2016.py:221-236 | after a successful run the January/2016 rows are exactly the tuples inserted, which number at most the RJ rows found, and all other rows are unchanged |
| Jan2016Loader.TabHeaderOnTab | inserir_janeiro_2016.py:46-62 | a tab-separated header splits on tab into `UF_VENDA` and `MUNICIPIO_VENDA` |
| Jan2016Loader.TabHeaderOnSemicolon | inserir_janeiro_2016.py:82-85 | the same header read with `;` is one column, which is not `UF_VENDA` |
| Jan2016Loader.TabSeparatedFileDetected | inserir_janeiro_2016.py:46-62 | the tab-separated header is diagnosed as tab, not as `;` |
| Jan2016Loader.TabFileReadAsWritten | inserir_janeiro_2016.py:210-226 | read with `;` as written, a tab-separated file over a table with one January/2016 sale is run through every step, ends in `KeyError` and leaves the table empty |
| Jan2016Loader.TabFileReadCorrected | inserir_janeiro_2016.py:210-226 | read with the detected tab, the same file finds no RJ row, succeeds reporting tab, and leaves the table empty |
| Jan2016Loader.TabSeparatedFileLosesPeriod | inserir_janeiro_2016.py:210-226 | on a tab-separated file, the code as written deletes the January/2016 rows and then crashes, leaving the period empty. The corrected run succeeds and reports tab |

## Left out

- Database and SQL: the grouped query, the DELETE and the INSERT are not
  modelled as SQL. A query is a script of outcomes, and the table is a
  sequence of tuples filtered by period. `GROUP BY` and `ORDER BY` are what
  the script returns.
- `obter_municipios_rj` is an input: the directory. Its failure returns an
  empty list, the same as an empty directory.
- `criar_set_municipios_rj` is an input: the set of valid municipality names.
- `pd.read_csv` tokenising is not modelled: quoting, encodings, `nrows`, and
  parse errors that differ by delimiter. The header is split on the
  delimiter, and the rows are given already split. A read failure is a flag.
- The parse `int(float(str(x).replace(',', '.')))` is abstracted. A quantity
  cell is a number or unparseable, so fractional quantities are not
  modelled.
- Floating point: quantities and sums are whole numbers. Rounding in
  `float(...)` sums is not modelled.
- `Distinct` treats `Int(5)` and `Float(5)` as distinct values, while pandas
  `nunique` would equate them.
- Aggregation.DefaultPath: it joins with `/`, the separator of
  `os.path.join` on POSIX systems. The Windows separator is not modelled.
- Characters outside Latin-1: `lower`, `upper` and `strip` are modelled over
  Latin-1 only.
- Sleeps, clocks and timestamps are left out. Waits are counted, but their
  length (`tempo_espera`, one second) is not modelled. The timestamp in the
  default file name is an input. `data_geracao` is not
  modelled.
- Printing, the progress bar and the query timing are left out.
- Aggregation.SalesAggregator.Save: the JSON and CSV content written is not
  modelled, only which path is written and whether the call fails. Any
  exception inside the `try` is one flag, including `astype(int)` on a
  missing year.
- TableStatistics.Statistics: it requires every total to be numeric.
  `sum()` over a text total, which pandas would reject or concatenate, is
  not modelled.
- Aggregation.SalesAggregator.StatisticsWithCrossCheck: it requires every
  total to be numeric, for the same reason.
- Jan2016Loader.InsertRows: the transaction of `get_db_cursor` is not
  modelled.
  - A per-row database failure is a set of row indices, and such rows are
    independent of each other.
  - A connection failure means nothing was inserted.
  - A failure of the commit after rows were executed is not modelled.
- The idempotence of the statistics follows from `Statistics` being a
  function of the table. No separate lemma states it.
- The delete of January/2016 always succeeds in the model, or fails before
  changing anything.
- `analisar_dados_por_ano`, `mostrar_amostra_2016`, `salvar_ambos_formatos`,
  `executar_processamento_completo`, both `main` functions and the
  `DecimalEncoder` are presentation or entry points.
- `inserir_municipios_do_rj.py` is not part of this model. It is the seed
  loader for the municipality list.

## Findings

| source | as written | input that shows it | evidently intended | confidence | as-written member | corrected member |
|---|---|---|---|---|---|---|
| inserir_janeiro_2016.py:82-85 | `ler_arquivo_corretamente` always reads with `;`, whatever `diagnosticar_arquivo` detected | a tab-separated file whose header is `UF_VENDA<tab>MUNICIPIO_VENDA`: detection returns tab, and the `;` read gives one column. The January/2016 rows are deleted, then `df['UF_VENDA']` raises `KeyError`, so the period is left empty | read, and report, with the detected delimiter | not executed | Jan2016Loader.Execute, Jan2016Loader.TabSeparatedFileLosesPeriod, Jan2016Loader.AsWrittenCrashesOnOtherDelimiters | Jan2016Loader.ExecuteWithDetectedDelimiter, Jan2016Loader.CorrectedNeverCrashes, Jan2016Loader.CorrectionAgreesOnSemicolonFiles |
