/**
 * The aggregation run of `AgrupadorVendasMedicamentos`: the municipality
 * loop that fills `df_final` (`processar_todos_municipios`), the first,
 * shadowed definition of `obter_estatisticas` with its per-year cross-check,
 * and the empty-table guards of the two writers.
 *
 * The municipality directory (`obter_municipios_rj`) is an input: a failed
 * lookup reaches the loop as an empty list, exactly as the source's
 * `except` turns it into `[]`. The database is an input too: `scripts[i]`
 * holds what the grouped query for the `i`-th municipality of the directory
 * does on its first, second and third attempt.
 */
module Aggregation {
  import opened Wrappers
  import opened Records
  import opened Retry
  import opened TableStatistics

  /** An entry of the municipality directory, `{'id': ..., 'nome': ...}`. */
  datatype Municipality = Municipality(id: int, name: string)

  // ---------------------------------------------------------------------------
  // Selecting the municipalities to process
  // ---------------------------------------------------------------------------

  /**
   * `if municipios_limit: municipios = municipios[:municipios_limit]`:
   * None and 0 are false in Python and keep the whole list; any other limit
   * slices it, a negative one dropping entries from the end.
   */
  function Select(municipalities: seq<Municipality>, limit: Option<int>): (selected: seq<Municipality>)
    ensures |selected| <= |municipalities| && selected == municipalities[..|selected|]
    ensures limit.None? || limit == Some(0) ==> selected == municipalities
    ensures limit.Some? && limit.value > 0 ==>
      |selected| == if limit.value < |municipalities| then limit.value else |municipalities|
    ensures limit.Some? && limit.value < 0 ==>
      |selected| == if -limit.value < |municipalities| then |municipalities| + limit.value else 0
  {
    if limit.None? || limit.value == 0 then municipalities
    else if limit.value > 0 then
      (if limit.value < |municipalities| then municipalities[..limit.value] else municipalities)
    else
      (if -limit.value < |municipalities| then municipalities[..|municipalities| + limit.value] else [])
  }

  // ---------------------------------------------------------------------------
  // The loop, as a function of the batches the queries returned
  // ---------------------------------------------------------------------------

  /** Every municipality's script says what each of the attempts does. */
  predicate ScriptsCover(scripts: seq<seq<QueryOutcome>>) {
    forall i :: 0 <= i < |scripts| ==> MaxAttempts <= |scripts[i]|
  }

  /** The rows `agrupar_por_municipio` returns for each municipality, in order. */
  function Batches(scripts: seq<seq<QueryOutcome>>): (batches: seq<seq<Record>>)
    requires ScriptsCover(scripts)
    ensures |batches| == |scripts|
    ensures forall i :: 0 <= i < |scripts| ==> batches[i] == Aggregate(scripts[i], 1).rows
  {
    if scripts == [] then []
    else
      var front := scripts[..|scripts| - 1];
      assert forall i :: 0 <= i < |front| ==> front[i] == scripts[i];
      Batches(front) + [Aggregate(scripts[|scripts| - 1], 1).rows]
  }

  /** What the loop has built after some municipalities: the rows appended and its three counters. */
  datatype Progress = Progress(appended: seq<Record>, totalRecords: nat, withData: nat, withoutData: nat)

  /** The loop body for one municipality's batch. */
  function Step(p: Progress, b: seq<Record>): (q: Progress)
    ensures q.appended == p.appended + b && q.totalRecords == p.totalRecords + |b|
    ensures q.withData + q.withoutData == p.withData + p.withoutData + 1
    ensures q.withData > p.withData <==> b != []
  {
    if b != [] then Progress(p.appended + b, p.totalRecords + |b|, p.withData + 1, p.withoutData)
    else Progress(p.appended, p.totalRecords, p.withData, p.withoutData + 1)
  }

  /** The effect of the loop body, municipality after municipality. */
  function Accumulate(batches: seq<seq<Record>>): (q: Progress)
    ensures q.withData + q.withoutData == |batches|
    ensures q.totalRecords == |q.appended|
  {
    if batches == [] then Progress([], 0, 0, 0)
    else Step(Accumulate(batches[..|batches| - 1]), batches[|batches| - 1])
  }

  /** Concatenation of row sequences associates. */
  lemma AppendAssociates(a: seq<Record>, b: seq<Record>, c: seq<Record>)
    ensures (a + b) + c == a + (b + c)
  {
  }

  /** One more batch processed is one more step of the loop body. */
  lemma AccumulateStep(batches: seq<seq<Record>>, i: nat)
    requires i < |batches|
    ensures Accumulate(batches[..i + 1]) == Step(Accumulate(batches[..i]), batches[i])
  {
    assert batches[..i + 1][..i] == batches[..i];
  }

  /** All batches one after the other. */
  function Flatten(batches: seq<seq<Record>>): seq<Record> {
    if batches == [] then [] else batches[0] + Flatten(batches[1..])
  }

  /** The number of batches that hold rows. */
  function NonEmptyCount(batches: seq<seq<Record>>): nat {
    if batches == [] then 0 else (if batches[0] != [] then 1 else 0) + NonEmptyCount(batches[1..])
  }

  lemma {:induction false} FlattenAppend(batches: seq<seq<Record>>, b: seq<Record>)
    ensures Flatten(batches + [b]) == Flatten(batches) + b
    ensures NonEmptyCount(batches + [b]) == NonEmptyCount(batches) + (if b != [] then 1 else 0)
  {
    if batches == [] {
      assert [b][1..] == [];
    } else {
      assert (batches + [b])[1..] == batches[1..] + [b];
      FlattenAppend(batches[1..], b);
    }
  }

  /**
   * What the counters of the loop mean: every municipality is counted once,
   * with or without data; `total_registros` is the number of rows appended;
   * and the rows appended are all batches in municipality order.
   */
  lemma {:induction false} AccumulateMeaning(batches: seq<seq<Record>>)
    ensures var p := Accumulate(batches);
      && p.withData + p.withoutData == |batches|
      && p.withData == NonEmptyCount(batches)
      && p.totalRecords == |p.appended|
      && p.appended == Flatten(batches)
  {
    if batches != [] {
      var front := batches[..|batches| - 1];
      AccumulateMeaning(front);
      FlattenAppend(front, batches[|batches| - 1]);
      assert front + [batches[|batches| - 1]] == batches;
    }
  }

  /** A run in which no municipality returned rows appends nothing and counts all of them as without data. */
  lemma {:induction false} AccumulateNoData(batches: seq<seq<Record>>)
    requires forall i :: 0 <= i < |batches| ==> batches[i] == []
    ensures Accumulate(batches) == Progress([], 0, 0, |batches|)
  {
    if batches != [] {
      AccumulateNoData(batches[..|batches| - 1]);
    }
  }

  /** A table none of whose rows holds a Decimal value. */
  ghost predicate DecimalFree(t: seq<Record>) {
    forall i :: 0 <= i < |t| ==> !HasDecimal(t[i])
  }

  lemma ConvertAllDecimalFree(rs: seq<Record>)
    ensures DecimalFree(ConvertAll(rs))
  {
    ConvertAllLength(rs);
    forall i | 0 <= i < |rs| ensures !HasDecimal(ConvertAll(rs)[i]) {
      ConvertAllAt(rs, i);
      ConvertRecordHasNoDecimal(rs[i]);
    }
  }

  /**
   * Everything a run appends to the table has passed through the Decimal
   * walk: no appended row holds a Decimal.
   */
  lemma {:induction false} RunAppendsNoDecimal(scripts: seq<seq<QueryOutcome>>)
    requires ScriptsCover(scripts)
    ensures DecimalFree(Accumulate(Batches(scripts)).appended)
  {
    if scripts != [] {
      var front := scripts[..|scripts| - 1];
      RunAppendsNoDecimal(front);
      var bs := Batches(scripts);
      assert bs[..|bs| - 1] == Batches(front);
      var b := bs[|bs| - 1];
      BatchDecimalFree(scripts[|scripts| - 1]);
      var before := Accumulate(Batches(front));
      assert Accumulate(bs) == Step(before, b);
      DecimalFreeAppend(before.appended, b);
    }
  }

  /** The rows one query returns hold no Decimal. */
  lemma BatchDecimalFree(script: seq<QueryOutcome>)
    requires MaxAttempts <= |script|
    ensures DecimalFree(Aggregate(script, 1).rows)
  {
    var k := Aggregate(script, 1).attempts;
    if script[k - 1].Rows? {
      ConvertAllDecimalFree(script[k - 1].records);
    }
  }

  lemma DecimalFreeAppend(a: seq<Record>, b: seq<Record>)
    requires DecimalFree(a) && DecimalFree(b)
    ensures DecimalFree(a + b)
  {
    forall i | 0 <= i < |a + b| ensures !HasDecimal((a + b)[i]) {
      if i >= |a| {
        assert (a + b)[i] == b[i - |a|];
      }
    }
  }


  // ---------------------------------------------------------------------------
  // The aggregator object
  // ---------------------------------------------------------------------------

  /** How `processar_todos_municipios` ends. */
  datatype RunStatus =
    | NoMunicipalities   // returns False: the directory was empty
    | Completed          // returns True
    | DivisionByZero     // the success-rate line divides by len(municipios) == 0 and raises

  /** The counters the loop keeps and reports, and the waits between queries. */
  datatype RunReport = RunReport(processed: nat, totalRecords: nat, withData: nat, withoutData: nat, waits: nat)

  /** What a writer returns: False, the path written, or the exception of `os.makedirs`, which escapes. */
  datatype SaveOutcome = NotSaved | SavedTo(path: string) | DirectoryError

  const OutputDirectory := "dados_agrupados"

  /** The two writers, `salvar_json` and `salvar_csv`. */
  datatype OutputFormat = Json | Csv

  function Extension(format: OutputFormat): string {
    match format
    case Json => ".json"
    case Csv => ".csv"
  }

  /**
   * `os.path.join('dados_agrupados', f'vendas_agrupadas_{timestamp}{extension}')`:
   * a file inside the output directory, with the given extension.
   */
  function DefaultPath(timestamp: string, extension: string): (path: string)
    ensures |OutputDirectory| < |path| && path[..|OutputDirectory| + 1] == OutputDirectory + "/"
    ensures |extension| <= |path| && path[|path| - |extension|..] == extension
  {
    OutputDirectory + "/vendas_agrupadas_" + timestamp + extension
  }

  class SalesAggregator {
    /** `df_final`: the accumulated table, one row dictionary per aggregated group. */
    var table: seq<Record>

    constructor ()
      ensures table == []
    {
      table := [];
    }

    /**
     * `processar_todos_municipios(municipios_limit)`: queries the selected
     * municipalities in directory order, appends every non-empty batch to
     * the table, counts the municipalities with and without data and waits
     * between two queries but not after the last.
     */
    method ProcessAll(directory: seq<Municipality>, limit: Option<int>, scripts: seq<seq<QueryOutcome>>)
      returns (status: RunStatus, report: RunReport)
      requires |scripts| == |directory| && ScriptsCover(scripts)
      modifies this
      ensures directory == [] ==> status == NoMunicipalities && table == old(table)
      ensures directory != [] ==> (status == Completed <==> Select(directory, limit) != [])
      ensures directory != [] && Select(directory, limit) == [] ==> status == DivisionByZero
      ensures directory != [] ==>
        var n := |Select(directory, limit)|;
        var p := Accumulate(Batches(scripts[..n]));
        && table == old(table) + p.appended
        && report == RunReport(n, p.totalRecords, p.withData, p.withoutData, if n == 0 then 0 else n - 1)
    {
      if directory == [] {
        return NoMunicipalities, RunReport(0, 0, 0, 0, 0);
      }
      var n := |Select(directory, limit)|;
      var totalRecords, withData, withoutData, waits := QuerySelected(scripts, n);
      report := RunReport(n, totalRecords, withData, withoutData, waits);
      status := if n == 0 then DivisionByZero else Completed;
    }

    /**
     * The loop of `processar_todos_municipios` over the first `n` selected
     * municipalities: one query each, a non-empty batch appended to the
     * table, and a wait between two queries.
     */
    method QuerySelected(scripts: seq<seq<QueryOutcome>>, n: nat)
      returns (totalRecords: nat, withData: nat, withoutData: nat, waits: nat)
      requires n <= |scripts| && ScriptsCover(scripts)
      modifies this
      ensures var p := Accumulate(Batches(scripts[..n]));
        && table == old(table) + p.appended
        && totalRecords == p.totalRecords && withData == p.withData && withoutData == p.withoutData
      ensures waits == if n == 0 then 0 else n - 1
    {
      totalRecords, withData, withoutData, waits := 0, 0, 0, 0;
      ghost var start := table;
      ghost var progress := Progress([], 0, 0, 0);
      assert ScriptsCover(scripts[..n]);
      ghost var batches := Batches(scripts[..n]);
      var i := 0;
      while i < n
        invariant 0 <= i <= n
        invariant progress == Accumulate(batches[..i])
        invariant table == start + progress.appended
        invariant totalRecords == progress.totalRecords && withData == progress.withData && withoutData == progress.withoutData
        invariant waits == if i == n && n > 0 then i - 1 else i
      {
        // scripts[i] is what the database does for the query on the i-th selected municipality
        var rows, _, _ := QueryMunicipality(scripts[i]);
        assert rows == batches[i] by {
          assert scripts[..n][i] == scripts[i];
        }
        AccumulateStep(batches, i);
        ghost var before := progress;
        progress := Step(progress, rows);
        if rows != [] {
          AppendAssociates(start, before.appended, rows);
          table := table + rows;
          totalRecords := totalRecords + |rows|;
          withData := withData + 1;
        } else {
          withoutData := withoutData + 1;
        }
        if i + 1 < n {
          waits := waits + 1;
        }
        i := i + 1;
      }
      assert batches[..n] == batches;
    }

    /**
     * The first definition of `obter_estatisticas`, which Python replaces by
     * the later one: besides the statistics it adds up the per-year
     * subtotals over `unique()` years and compares them with the direct sum.
     */
    method StatisticsWithCrossCheck() returns (stats: Stats, directSum: int, perYearSum: int)
      requires NumericTotals(table)
      ensures stats == Statistics(table)
      ensures table != [] ==> directSum == Total(table) && perYearSum == directSum - MissingYearTotal(table)
      ensures table != [] && (forall i :: 0 <= i < |table| ==> YearOf(table[i]).Some?) ==> perYearSum == directSum
    {
      if table == [] {
        return Empty, 0, 0;
      }
      directSum := Total(table);
      perYearSum := 0;
      var years := UniqueYears(table);
      var k := 0;
      while k < |years|
        invariant 0 <= k <= |years|
        invariant perYearSum == SumOfSubtotals(table, years[..k])
      {
        assert years[..k + 1][..k] == years[..k];
        perYearSum := perYearSum + Subtotal(table, years[k]);
        k := k + 1;
      }
      assert years[..k] == years;
      CrossCheck(table);
      if forall i :: 0 <= i < |table| ==> YearOf(table[i]).Some? {
        NoMissingYear(table);
      }
      stats := Statistics(table);
    }

    /**
     * `salvar_json(caminho_arquivo)` and `salvar_csv(caminho_arquivo)`, which
     * differ only in the format written: nothing is written for an empty
     * table; otherwise the file goes to the given path or, when none (or an
     * empty one) is given, to a dated file under the output directory, whose
     * creation is outside the `try`. `writeFails` stands for any exception
     * inside the `try`.
     */
    method Save(format: OutputFormat, path: Option<string>, timestamp: string, makeDirFails: bool, writeFails: bool)
      returns (outcome: SaveOutcome)
      ensures table == [] ==> outcome == NotSaved
      ensures table != [] && path.Some? && path.value != [] ==>
        outcome == if writeFails then NotSaved else SavedTo(path.value)
      ensures table != [] && (path.None? || path.value == []) ==>
        outcome == if makeDirFails then DirectoryError else if writeFails then NotSaved else SavedTo(DefaultPath(timestamp, Extension(format)))
    {
      if table == [] {
        return NotSaved;
      }
      var target: string;
      if path.None? || path.value == [] {
        if makeDirFails {
          return DirectoryError;
        }
        target := DefaultPath(timestamp, Extension(format));
      } else {
        target := path.value;
      }
      outcome := if writeFails then NotSaved else SavedTo(target);
    }
  }
}
