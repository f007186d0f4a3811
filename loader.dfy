/**
 * The January 2016 loader (`InserirJaneiro2016`): delimiter detection on
 * the header line, preparation and insertion of the RJ rows, and the
 * ordered steps of `executar`.
 *
 * The file system, pandas and the database are inputs: whether the file
 * exists, its header line, the rows pandas yields for it, whether reading or
 * the DELETE fails, whether the connection can be opened, and which rows the
 * database rejects. The set of valid municipality names, which the source
 * takes from `criar_set_municipios_rj`, is a parameter. The sales table is a
 * sequence of inserted tuples.
 */
module Jan2016Loader {
  import opened Wrappers
  import opened Text

  const Year: int := 2016
  const Month: int := 1
  const FileName := "EDA_Industrializados_201601.csv"

  const UfColumn := "UF_VENDA"
  const MunicipalityColumn := "MUNICIPIO_VENDA"
  const IngredientColumn := "PRINCIPIO_ATIVO"
  const QuantityColumn := "QTD_VENDIDA"
  const CouncilColumn := "CONSELHO_PRESCRITOR"
  const CouncilUfColumn := "UF_CONSELHO_PRESCRITOR"

  /** The delimiters `diagnosticar_arquivo` tries, in order. */
  const Delimiters: seq<char> := [';', '\t', ',', '|']

  /** The column limits of the insert: principle, municipality, council, council state. */
  const IngredientWidth: nat := 255
  const MunicipalityWidth: nat := 100
  const CouncilWidth: nat := 50
  const CouncilUfWidth: nat := 2

  // ---------------------------------------------------------------------------
  // diagnosticar_arquivo
  // ---------------------------------------------------------------------------

  /** Reading the file with separator `d` yields a `UF_VENDA` column. */
  predicate Detects(header: string, d: char)
    ensures d in UfColumn ==> !Detects(header, d)
  {
    UfColumn in Split(header, d)
  }

  /** The first of `candidates` that yields a `UF_VENDA` column. */
  function FirstDetected(header: string, candidates: seq<char>): (found: Option<char>)
    ensures found.Some? ==> found.value in candidates && Detects(header, found.value)
    ensures found.None? <==> forall k :: 0 <= k < |candidates| ==> !Detects(header, candidates[k])
  {
    if candidates == [] then None
    else if Detects(header, candidates[0]) then Some(candidates[0])
    else
      var rest := FirstDetected(header, candidates[1..]);
      assert forall k :: 1 <= k < |candidates| ==> candidates[k] == candidates[1..][k - 1];
      rest
  }

  /** No delimiter tried before the one found yields `UF_VENDA`. */
  lemma {:induction false} FirstDetectedIsFirst(header: string, candidates: seq<char>, k: nat)
    requires k < |candidates| && FirstDetected(header, candidates) == Some(candidates[k])
    requires forall i, j :: 0 <= i < j < |candidates| ==> candidates[i] != candidates[j]
    ensures forall j :: 0 <= j < k ==> !Detects(header, candidates[j])
  {
    if k > 0 {
      assert candidates[0] != candidates[k];
      assert candidates[1..][k - 1] == candidates[k];
      FirstDetectedIsFirst(header, candidates[1..], k - 1);
      forall j | 1 <= j < k ensures !Detects(header, candidates[j]) {
        assert candidates[j] == candidates[1..][j - 1];
      }
    }
  }

  /** `Delimiters[k]` yields `UF_VENDA` and none tried before it does. */
  predicate FirstAt(header: string, k: int) {
    && 0 <= k < |Delimiters| && Detects(header, Delimiters[k])
    && (forall j :: 0 <= j < k ==> !Detects(header, Delimiters[j]))
  }

  /**
   * `diagnosticar_arquivo()`: tries the delimiters in order and returns the
   * first with which the header has a `UF_VENDA` column, or None.
   */
  method DiagnoseDelimiter(header: string) returns (found: Option<char>)
    ensures found == FirstDetected(header, Delimiters)
    ensures found.None? <==> forall k :: 0 <= k < |Delimiters| ==> !Detects(header, Delimiters[k])
    ensures found.Some? ==> exists k :: FirstAt(header, k) && Delimiters[k] == found.value
  {
    var k := 0;
    while k < |Delimiters|
      invariant 0 <= k <= |Delimiters|
      invariant forall j :: 0 <= j < k ==> !Detects(header, Delimiters[j])
      invariant FirstDetected(header, Delimiters) == FirstDetected(header, Delimiters[k..])
    {
      var d := Delimiters[k];
      if Detects(header, d) {
        assert Delimiters[k..][0] == d;
        assert FirstAt(header, k);
        return Some(d);
      }
      assert Delimiters[k..][1..] == Delimiters[k + 1..];
      k := k + 1;
    }
    assert Delimiters[k..] == [];
    return None;
  }

  /** Whenever `;` yields `UF_VENDA`, it is the delimiter detected. */
  lemma SemicolonDetectedFirst(header: string)
    requires Detects(header, ';')
    ensures FirstDetected(header, Delimiters) == Some(';')
  {
  }

  // ---------------------------------------------------------------------------
  // Rows and their preparation (inserir_dados)
  // ---------------------------------------------------------------------------

  /** `int(float(str(q).replace(',', '.')))`, or the ValueError it raises. */
  datatype QuantityCell = Number(units: int) | Unparseable

  /** One row of the DataFrame; None is NaN. */
  datatype CsvRow = CsvRow(
    uf: Option<string>,
    municipality: Option<string>,
    ingredient: Option<string>,
    quantity: Option<QuantityCell>,
    council: Option<string>,
    councilUf: Option<string>)

  /** A DataFrame: its column names and its rows, indexed by position. */
  datatype Frame = Frame(columns: seq<string>, rows: seq<CsvRow>)

  /** The values of one INSERT: year, month, principle, municipality, quantity, council, council state. */
  datatype SaleTuple = SaleTuple(
    year: int,
    month: int,
    ingredient: string,
    municipality: string,
    quantity: int,
    council: string,
    councilUf: string)

  /** The shape every inserted tuple has. */
  predicate WellFormedTuple(t: SaleTuple) {
    && t.year == Year && t.month == Month
    && |t.ingredient| <= IngredientWidth
    && |t.municipality| <= MunicipalityWidth
    && |t.council| <= CouncilWidth
    && |t.councilUf| <= CouncilUfWidth
  }

  /** `df['UF_VENDA'] == 'RJ'` */
  predicate IsRj(row: CsvRow)
    ensures row.uf.None? ==> !IsRj(row)
  {
    row.uf == Some("RJ")
  }

  /** The columns each row reads after `UF_VENDA`; a missing one raises KeyError for that row. */
  predicate HasRowColumns(columns: seq<string>) {
    && MunicipalityColumn in columns && IngredientColumn in columns && QuantityColumn in columns
    && CouncilColumn in columns && CouncilUfColumn in columns
  }

  /** `str(x)` of a text cell; NaN prints as "nan". */
  function Str(cell: Option<string>): string {
    if cell.Some? then cell.value else "nan"
  }

  /** `str(x) if pd.notna(x) else ''` */
  function OrEmpty(cell: Option<string>): string {
    if cell.Some? then cell.value else ""
  }

  /** `str(row['MUNICIPIO_VENDA']).strip().upper()` */
  function MunicipalityKey(row: CsvRow): (key: string)
    ensures |key| <= 2 * |Str(row.municipality)|
    ensures row.municipality.None? ==> key == "NAN"
  {
    if row.municipality.None? then MissingMunicipalityKey(); Upper(Strip(Str(row.municipality)))
    else Upper(Strip(Str(row.municipality)))
  }

  /** A missing municipality is read as the string `nan`, which normalises to `NAN`. */
  lemma MissingMunicipalityKey()
    ensures Upper(Strip("nan")) == "NAN"
  {
    var k :| StrippedAt("nan", Strip("nan"), k);
    assert !IsSpace('n') && !IsSpace('a');
    assert Strip("nan") == "nan";
    var u := Upper("nan");
    assert |u| == 3 && [u[0]] == UpperChar('n') && [u[1]] == UpperChar('a') && [u[2]] == UpperChar('n');
  }

  /**
   * `int(float(str(q).replace(',', '.'))) if pd.notna(q) else 0`: the
   * quantity inserted, or None when the parse raises ValueError.
   */
  function ParseQuantity(cell: Option<QuantityCell>): (q: Option<int>)
    ensures q.None? <==> cell == Some(Unparseable)
    ensures cell.None? ==> q == Some(0)
    ensures cell.Some? && cell.value.Number? ==> q == Some(cell.value.units)
  {
    match cell
    case None => Some(0)
    case Some(Number(n)) => Some(n)
    case Some(Unparseable) => None
  }

  /**
   * The tuple an RJ row becomes, or None when the row is skipped: a column
   * it reads is missing, its municipality is not a valid one, or its
   * quantity does not parse.
   */
  function Prepare(row: CsvRow, columns: seq<string>, valid: set<string>): (r: Option<SaleTuple>)
    ensures r.Some? <==> HasRowColumns(columns) && MunicipalityKey(row) in valid && ParseQuantity(row.quantity).Some?
    ensures r.Some? ==> WellFormedTuple(r.value)
    ensures r.Some? ==> r.value.municipality == Take(MunicipalityKey(row), MunicipalityWidth)
    ensures r.Some? ==> r.value.ingredient == Take(OrEmpty(row.ingredient), IngredientWidth)
    ensures r.Some? ==> r.value.council == Take(OrEmpty(row.council), CouncilWidth)
    ensures r.Some? ==> r.value.councilUf == Take(OrEmpty(row.councilUf), CouncilUfWidth)
    ensures r.Some? ==> r.value.quantity == ParseQuantity(row.quantity).value
  {
    var key := MunicipalityKey(row);
    var quantity := ParseQuantity(row.quantity);
    if !HasRowColumns(columns) || key !in valid || quantity.None? then None
    else
      Some(SaleTuple(
        Year, Month,
        Take(OrEmpty(row.ingredient), IngredientWidth),
        Take(key, MunicipalityWidth),
        quantity.value,
        Take(OrEmpty(row.council), CouncilWidth),
        Take(OrEmpty(row.councilUf), CouncilUfWidth)))
  }

  /** The normalised name of a municipality is a fixed point of the normalisation's upper-casing. */
  lemma MunicipalityKeyUpperCased(row: CsvRow)
    ensures Upper(MunicipalityKey(row)) == MunicipalityKey(row)
  {
    UpperIdempotent(Strip(Str(row.municipality)));
  }

  /** The positions of the RJ rows, `df[df['UF_VENDA'] == 'RJ']`, in order. */
  function RjIndices(rows: seq<CsvRow>): (idx: seq<nat>)
    ensures |idx| <= |rows|
    ensures forall k :: 0 <= k < |idx| ==> idx[k] < |rows| && IsRj(rows[idx[k]])
    ensures forall k, l :: 0 <= k < l < |idx| ==> idx[k] < idx[l]
    ensures forall i :: 0 <= i < |rows| && IsRj(rows[i]) ==> i in idx
  {
    if rows == [] then []
    else
      var front := RjIndices(rows[..|rows| - 1]);
      assert forall k :: 0 <= k < |front| ==> rows[front[k]] == rows[..|rows| - 1][front[k]];
      assert forall i :: 0 <= i < |rows| - 1 ==> rows[i] == rows[..|rows| - 1][i];
      if IsRj(rows[|rows| - 1]) then front + [|rows| - 1] else front
  }

  /** The tuples inserted for the rows at positions `idx`: prepared, and not rejected by the database. */
  function InsertedTuples(rows: seq<CsvRow>, idx: seq<nat>, columns: seq<string>, valid: set<string>, dbFails: set<nat>): (ts: seq<SaleTuple>)
    requires forall k :: 0 <= k < |idx| ==> idx[k] < |rows|
    ensures |ts| <= |idx|
  {
    if idx == [] then []
    else
      var front := InsertedTuples(rows, idx[..|idx| - 1], columns, valid, dbFails);
      var i := idx[|idx| - 1];
      var prepared := Prepare(rows[i], columns, valid);
      if prepared.Some? && i !in dbFails then front + [prepared.value] else front
  }

  /** `t` is the preparation of the row at `idx[k]`, which the database accepted. */
  predicate AcceptedAt(rows: seq<CsvRow>, idx: seq<nat>, columns: seq<string>, valid: set<string>, dbFails: set<nat>, k: int, t: SaleTuple) {
    && 0 <= k < |idx| && idx[k] < |rows| && idx[k] !in dbFails
    && Prepare(rows[idx[k]], columns, valid) == Some(t)
  }

  /** One more position considered adds its prepared tuple when the database accepts it. */
  lemma InsertedTuplesStep(rows: seq<CsvRow>, idx: seq<nat>, k: nat, columns: seq<string>, valid: set<string>, dbFails: set<nat>)
    requires forall m :: 0 <= m < |idx| ==> idx[m] < |rows|
    requires k < |idx|
    ensures var prepared := Prepare(rows[idx[k]], columns, valid);
      InsertedTuples(rows, idx[..k + 1], columns, valid, dbFails)
        == InsertedTuples(rows, idx[..k], columns, valid, dbFails)
           + (if prepared.Some? && idx[k] !in dbFails then [prepared.value] else [])
  {
    assert idx[..k + 1][..k] == idx[..k];
  }

  /**
   * What is inserted: at most one tuple per RJ row considered, each of the
   * insert's shape, and each one the preparation of a considered row that
   * the database accepted.
   */
  lemma {:induction false} InsertedTuplesMeaning(rows: seq<CsvRow>, idx: seq<nat>, columns: seq<string>, valid: set<string>, dbFails: set<nat>)
    requires forall k :: 0 <= k < |idx| ==> idx[k] < |rows|
    ensures |InsertedTuples(rows, idx, columns, valid, dbFails)| <= |idx|
    ensures forall t :: t in InsertedTuples(rows, idx, columns, valid, dbFails) ==> WellFormedTuple(t)
    ensures forall t :: t in InsertedTuples(rows, idx, columns, valid, dbFails) ==>
      exists k :: AcceptedAt(rows, idx, columns, valid, dbFails, k, t)
  {
    if idx != [] {
      var front := idx[..|idx| - 1];
      var i := idx[|idx| - 1];
      InsertedTuplesMeaning(rows, front, columns, valid, dbFails);
      var fts := InsertedTuples(rows, front, columns, valid, dbFails);
      var ts := InsertedTuples(rows, idx, columns, valid, dbFails);
      forall t | t in fts ensures exists k :: AcceptedAt(rows, idx, columns, valid, dbFails, k, t) {
        var k :| AcceptedAt(rows, front, columns, valid, dbFails, k, t);
        assert AcceptedAt(rows, idx, columns, valid, dbFails, k, t);
      }
      var prepared := Prepare(rows[i], columns, valid);
      if prepared.Some? && i !in dbFails {
        var v := prepared.value;
        assert ts == fts + [v];
        assert WellFormedTuple(v);
        assert AcceptedAt(rows, idx, columns, valid, dbFails, |idx| - 1, v);
        forall t | t in ts ensures t in fts || t == v {
        }
      } else {
        assert ts == fts;
      }
    }
  }

  /** `t` is the preparation of row `i`, an RJ row whose normalised municipality is a valid one. */
  predicate FromValidRjRow(rows: seq<CsvRow>, columns: seq<string>, valid: set<string>, i: int, t: SaleTuple) {
    && 0 <= i < |rows| && IsRj(rows[i]) && MunicipalityKey(rows[i]) in valid
    && Prepare(rows[i], columns, valid) == Some(t)
  }

  /** Every inserted tuple comes from an RJ row whose normalised municipality is a valid one. */
  lemma InsertedRowsAreValidRj(rows: seq<CsvRow>, columns: seq<string>, valid: set<string>, dbFails: set<nat>)
    ensures forall t :: t in InsertedTuples(rows, RjIndices(rows), columns, valid, dbFails) ==>
      exists i :: FromValidRjRow(rows, columns, valid, i, t)
  {
    var idx := RjIndices(rows);
    InsertedTuplesMeaning(rows, idx, columns, valid, dbFails);
    forall t | t in InsertedTuples(rows, idx, columns, valid, dbFails) ensures exists i :: FromValidRjRow(rows, columns, valid, i, t) {
      var k :| AcceptedAt(rows, idx, columns, valid, dbFails, k, t);
      assert FromValidRjRow(rows, columns, valid, idx[k], t);
    }
  }

  /** A considered position whose row is prepared and not rejected by the database has its tuple inserted. */
  lemma {:induction false} AcceptedPositionInserted(rows: seq<CsvRow>, idx: seq<nat>, k: nat, columns: seq<string>, valid: set<string>, dbFails: set<nat>, t: SaleTuple)
    requires forall m :: 0 <= m < |idx| ==> idx[m] < |rows|
    requires AcceptedAt(rows, idx, columns, valid, dbFails, k, t)
    ensures t in InsertedTuples(rows, idx, columns, valid, dbFails)
  {
    var front := idx[..|idx| - 1];
    var fts := InsertedTuples(rows, front, columns, valid, dbFails);
    var ts := InsertedTuples(rows, idx, columns, valid, dbFails);
    var last := Prepare(rows[idx[|idx| - 1]], columns, valid);
    assert ts == fts + (if last.Some? && idx[|idx| - 1] !in dbFails then [last.value] else []);
    if k == |idx| - 1 {
      assert ts[|fts|] == t;
    } else {
      assert AcceptedAt(rows, front, columns, valid, dbFails, k, t);
      AcceptedPositionInserted(rows, front, k, columns, valid, dbFails, t);
      var j :| 0 <= j < |fts| && fts[j] == t;
      assert ts[j] == t;
    }
  }

  lemma AcceptedRowInserted(rows: seq<CsvRow>, columns: seq<string>, valid: set<string>, dbFails: set<nat>, i: nat)
    requires i < |rows| && IsRj(rows[i]) && i !in dbFails && Prepare(rows[i], columns, valid).Some?
    ensures Prepare(rows[i], columns, valid).value in InsertedTuples(rows, RjIndices(rows), columns, valid, dbFails)
  {
    var idx := RjIndices(rows);
    assert i in idx;
    var k :| 0 <= k < |idx| && idx[k] == i;
    var t := Prepare(rows[i], columns, valid).value;
    assert AcceptedAt(rows, idx, columns, valid, dbFails, k, t);
    AcceptedPositionInserted(rows, idx, k, columns, valid, dbFails, t);
  }

  /** What `inserir_dados` ends in. */
  datatype InsertReport =
    | KeyError                                     // the frame has no UF_VENDA column: the filter raises
    | Inserted(count: nat, tuples: seq<SaleTuple>) // registros_inseridos and the INSERTs executed

  /**
   * What `inserir_dados(df)` ends in: nothing for a missing frame, KeyError
   * for a frame without `UF_VENDA`, nothing when there are no RJ rows or the
   * connection cannot be opened, and otherwise the tuples of the RJ rows
   * that were prepared and accepted, counted.
   */
  function InsertOutcome(frame: Option<Frame>, valid: set<string>, connectionFails: bool, dbFails: set<nat>): (report: InsertReport)
    ensures frame.Some? ==> (report.KeyError? <==> UfColumn !in frame.value.columns)
    ensures frame.None? ==> report == Inserted(0, [])
    ensures frame.Some? && UfColumn in frame.value.columns && (RjIndices(frame.value.rows) == [] || connectionFails) ==>
      report == Inserted(0, [])
    ensures report.Inserted? ==> report.count == |report.tuples|
    ensures report.Inserted? && frame.Some? ==> report.count <= |RjIndices(frame.value.rows)|
    ensures report.Inserted? ==> forall t :: t in report.tuples ==> WellFormedTuple(t)
    ensures frame.Some? && UfColumn in frame.value.columns && !connectionFails ==>
      var ts := InsertedTuples(frame.value.rows, RjIndices(frame.value.rows), frame.value.columns, valid, dbFails);
      report == Inserted(|ts|, ts)
  {
    if frame.None? then Inserted(0, [])
    else if UfColumn !in frame.value.columns then KeyError
    else
      var rj := RjIndices(frame.value.rows);
      if rj == [] || connectionFails then Inserted(0, [])
      else
        var ts := InsertedTuples(frame.value.rows, rj, frame.value.columns, valid, dbFails);
        InsertedTuplesMeaning(frame.value.rows, rj, frame.value.columns, valid, dbFails);
        Inserted(|ts|, ts)
  }

  /**
   * `inserir_dados(df)`: each RJ row in turn, skipped when a column is
   * missing, its municipality is not valid, its quantity does not parse or
   * the database rejects it, and counted when inserted.
   */
  method InsertRows(frame: Option<Frame>, valid: set<string>, connectionFails: bool, dbFails: set<nat>)
    returns (report: InsertReport)
    ensures report == InsertOutcome(frame, valid, connectionFails, dbFails)
  {
    if frame.None? {
      return Inserted(0, []);
    }
    var df := frame.value;
    if UfColumn !in df.columns {
      return KeyError;
    }
    var rj := RjIndices(df.rows);
    if |rj| == 0 || connectionFails {
      return Inserted(0, []);
    }
    var count := 0;
    var tuples: seq<SaleTuple> := [];
    var k := 0;
    while k < |rj|
      invariant 0 <= k <= |rj|
      invariant tuples == InsertedTuples(df.rows, rj[..k], df.columns, valid, dbFails)
      invariant count == |tuples|
    {
      InsertedTuplesStep(df.rows, rj, k, df.columns, valid, dbFails);
      var i := rj[k];
      var row := df.rows[i];
      k := k + 1;
      if !HasRowColumns(df.columns) {
        continue;  // KeyError on a column, caught per row
      }
      var key := MunicipalityKey(row);
      if key !in valid {
        continue;
      }
      var quantity := ParseQuantity(row.quantity);
      if quantity.None? {
        continue;  // ValueError from the quantity parse, caught per row
      }
      var tuple := SaleTuple(
        Year, Month,
        Take(OrEmpty(row.ingredient), IngredientWidth),
        Take(key, MunicipalityWidth),
        quantity.value,
        Take(OrEmpty(row.council), CouncilWidth),
        Take(OrEmpty(row.councilUf), CouncilUfWidth));
      assert Prepare(row, df.columns, valid) == Some(tuple);
      if i in dbFails {
        continue;  // cursor.execute raised, caught per row
      }
      tuples := tuples + [tuple];
      count := count + 1;
    }
    assert rj[..k] == rj;
    return Inserted(count, tuples);
  }

  // ---------------------------------------------------------------------------
  // The sales table and the reload of one period
  // ---------------------------------------------------------------------------

  predicate InPeriod(t: SaleTuple) {
    t.year == Year && t.month == Month
  }

  /** The table after `DELETE ... WHERE ANO_VENDA = 2016 AND MES_VENDA = 1`. */
  function WithoutPeriod(db: seq<SaleTuple>): (kept: seq<SaleTuple>)
    ensures |kept| <= |db|
    ensures forall i :: 0 <= i < |kept| ==> !InPeriod(kept[i])
  {
    if db == [] then []
    else WithoutPeriod(db[..|db| - 1]) + (if InPeriod(db[|db| - 1]) then [] else [db[|db| - 1]])
  }

  /** A tuple survives the DELETE exactly when it was in the table and is not dated January 2016. */
  lemma {:induction false} WithoutPeriodMembers(db: seq<SaleTuple>)
    ensures forall t :: t in WithoutPeriod(db) <==> t in db && !InPeriod(t)
  {
    if db != [] {
      var front := db[..|db| - 1];
      WithoutPeriodMembers(front);
      assert db == front + [db[|db| - 1]];
    }
  }

  /** The January 2016 rows of the table. */
  function OfPeriod(db: seq<SaleTuple>): seq<SaleTuple> {
    if db == [] then []
    else OfPeriod(db[..|db| - 1]) + (if InPeriod(db[|db| - 1]) then [db[|db| - 1]] else [])
  }

  lemma {:induction false} WithoutPeriodAppend(a: seq<SaleTuple>, b: seq<SaleTuple>)
    ensures WithoutPeriod(a + b) == WithoutPeriod(a) + WithoutPeriod(b)
    decreases |b|
  {
    if b == [] {
      assert a + b == a;
    } else {
      var front := b[..|b| - 1];
      WithoutPeriodAppend(a, front);
      assert (a + b)[..|a + b| - 1] == a + front;
      assert (a + b)[|a + b| - 1] == b[|b| - 1];
    }
  }

  lemma {:induction false} OfPeriodAppend(a: seq<SaleTuple>, b: seq<SaleTuple>)
    ensures OfPeriod(a + b) == OfPeriod(a) + OfPeriod(b)
    decreases |b|
  {
    if b == [] {
      assert a + b == a;
    } else {
      var front := b[..|b| - 1];
      OfPeriodAppend(a, front);
      assert (a + b)[..|a + b| - 1] == a + front;
      assert (a + b)[|a + b| - 1] == b[|b| - 1];
    }
  }

  lemma {:induction false} PeriodFiltersOfPeriod(ts: seq<SaleTuple>)
    requires forall t :: t in ts ==> InPeriod(t)
    ensures WithoutPeriod(ts) == [] && OfPeriod(ts) == ts
  {
    if ts != [] {
      PeriodFiltersOfPeriod(ts[..|ts| - 1]);
    }
  }

  lemma {:induction false} WithoutPeriodHasNone(db: seq<SaleTuple>)
    ensures OfPeriod(WithoutPeriod(db)) == []
    ensures WithoutPeriod(WithoutPeriod(db)) == WithoutPeriod(db)
  {
    if db != [] {
      var front := db[..|db| - 1];
      var last := db[|db| - 1];
      WithoutPeriodHasNone(front);
      var tail := if InPeriod(last) then [] else [last];
      WithoutPeriodAppend(WithoutPeriod(front), tail);
      OfPeriodAppend(WithoutPeriod(front), tail);
      if !InPeriod(last) {
        assert [last][..0] == [];
      }
    }
  }

  /**
   * Deleting the period and inserting tuples of that period leaves exactly
   * those tuples as the period's rows and every other row as it was.
   */
  lemma ReloadReplacesPeriod(db: seq<SaleTuple>, ts: seq<SaleTuple>)
    requires forall t :: t in ts ==> InPeriod(t)
    ensures OfPeriod(WithoutPeriod(db) + ts) == ts
    ensures WithoutPeriod(WithoutPeriod(db) + ts) == WithoutPeriod(db)
  {
    WithoutPeriodAppend(WithoutPeriod(db), ts);
    OfPeriodAppend(WithoutPeriod(db), ts);
    PeriodFiltersOfPeriod(ts);
    WithoutPeriodHasNone(db);
  }

  // ---------------------------------------------------------------------------
  // executar
  // ---------------------------------------------------------------------------

  datatype Step = VerifyFile | DiagnoseFile | ReadFile | CleanExisting | InsertData

  /** The steps of `executar`, in the order it runs them. */
  const AllSteps: seq<Step> := [VerifyFile, DiagnoseFile, ReadFile, CleanExisting, InsertData]

  const NotFoundMessage := "Arquivo não encontrado"
  const NoDelimiterMessage := "Não foi possível detectar o delimitador"
  const ReadErrorMessage := "Erro ao ler arquivo"
  const CleanErrorMessage := "Erro ao limpar dados existentes"

  /** What the file system, pandas and the database do during one run. */
  datatype LoaderInput = LoaderInput(
    fileExists: bool,
    header: string,
    rows: seq<CsvRow>,
    readFails: bool,
    cleanFails: bool,
    valid: set<string>,
    connectionFails: bool,
    dbFails: set<nat>)

  /** The dictionary `executar` returns, or the exception that escapes it. */
  datatype RunResult =
    | Failed(message: string)
    | Succeeded(year: int, month: int, file: string, delimiterUsed: string, rjFound: nat, inserted: nat)
    | CrashedWithKeyError

  /** The result of a run, the steps it reached and the sales table it leaves. */
  datatype Run = Run(result: RunResult, steps: seq<Step>, dbAfter: seq<SaleTuple>)

  /**
   * How the file is read once its delimiter is known: as written, always
   * with `;` (reporting ";"); corrected, with the delimiter detected.
   */
  datatype ReadMode = AlwaysSemicolon | DetectedDelimiter

  function ReadDelimiter(mode: ReadMode, detected: char): char {
    if mode.AlwaysSemicolon? then ';' else detected
  }

  function ReportedDelimiter(mode: ReadMode, detected: char): string {
    if mode.AlwaysSemicolon? then ";" else [detected]
  }

  /**
   * `ler_arquivo_corretamente` with separator `d`: the frame read, or None
   * when pandas raises or when the RJ summary it prints asks for a missing
   * `MUNICIPIO_VENDA` column.
   */
  function ReadFrame(input: LoaderInput, d: char): (frame: Option<Frame>)
    ensures frame.Some? ==> frame.value == Frame(Split(input.header, d), input.rows)
    ensures frame.None? <==> (input.readFails
      || (Detects(input.header, d) && RjIndices(input.rows) != [] && MunicipalityColumn !in Split(input.header, d)))
  {
    if input.readFails then None
    else
      var columns := Split(input.header, d);
      if UfColumn in columns && RjIndices(input.rows) != [] && MunicipalityColumn !in columns then None
      else Some(Frame(columns, input.rows))
  }

  /**
   * One run of `executar`: verify, diagnose, read, clean, insert, stopping
   * with an error status and the table untouched at the first of the first
   * four steps that fails; an escaping KeyError leaves the table cleaned.
   */
  function ExpectedRun(input: LoaderInput, db: seq<SaleTuple>, mode: ReadMode): (run: Run)
    ensures 1 <= |run.steps| <= |AllSteps| && run.steps == AllSteps[..|run.steps|]
    ensures run.result.Failed? <==> |run.steps| < |AllSteps|
    ensures run.result.Failed? ==> run.dbAfter == db
    ensures !input.fileExists ==> run == Run(Failed(NotFoundMessage), AllSteps[..1], db)
    ensures var detected := FirstDetected(input.header, Delimiters);
      input.fileExists && detected.None? ==> run == Run(Failed(NoDelimiterMessage), AllSteps[..2], db)
    ensures var detected := FirstDetected(input.header, Delimiters);
      input.fileExists && detected.Some? && ReadFrame(input, ReadDelimiter(mode, detected.value)).None? ==>
        run == Run(Failed(ReadErrorMessage), AllSteps[..3], db)
    ensures var detected := FirstDetected(input.header, Delimiters);
      input.fileExists && detected.Some? && ReadFrame(input, ReadDelimiter(mode, detected.value)).Some? && input.cleanFails ==>
        run == Run(Failed(CleanErrorMessage), AllSteps[..4], db)
    ensures ReachesInsert(input, mode) <==> run.steps == AllSteps
    ensures var detected := FirstDetected(input.header, Delimiters);
      ReachesInsert(input, mode) ==>
        match InsertOutcome(ReadFrame(input, ReadDelimiter(mode, detected.value)), input.valid, input.connectionFails, input.dbFails)
        case KeyError => run.result == CrashedWithKeyError && run.dbAfter == WithoutPeriod(db)
        case Inserted(count, tuples) =>
          && run.result == Succeeded(Year, Month, FileName, ReportedDelimiter(mode, detected.value), |RjIndices(input.rows)|, count)
          && run.dbAfter == WithoutPeriod(db) + tuples
  {
    if !input.fileExists then Run(Failed(NotFoundMessage), AllSteps[..1], db)
    else
      var detected := FirstDetected(input.header, Delimiters);
      if detected.None? then Run(Failed(NoDelimiterMessage), AllSteps[..2], db)
      else
        var frame := ReadFrame(input, ReadDelimiter(mode, detected.value));
        if frame.None? then Run(Failed(ReadErrorMessage), AllSteps[..3], db)
        else if input.cleanFails then Run(Failed(CleanErrorMessage), AllSteps[..4], db)
        else
          match InsertOutcome(frame, input.valid, input.connectionFails, input.dbFails)
          case KeyError => Run(CrashedWithKeyError, AllSteps, WithoutPeriod(db))
          case Inserted(count, tuples) =>
            Run(Succeeded(Year, Month, FileName, ReportedDelimiter(mode, detected.value), |RjIndices(input.rows)|, count),
              AllSteps, WithoutPeriod(db) + tuples)
  }

  /**
   * `executar()` as written: the file is read with `;` whatever delimiter
   * was detected, and `;` is reported.
   */
  method Execute(input: LoaderInput, db: seq<SaleTuple>)
    returns (result: RunResult, steps: seq<Step>, dbAfter: seq<SaleTuple>)
    ensures Run(result, steps, dbAfter) == ExpectedRun(input, db, AlwaysSemicolon)
  {
    steps := AllSteps[..1];
    dbAfter := db;
    if !input.fileExists {
      return Failed(NotFoundMessage), steps, dbAfter;
    }
    steps := AllSteps[..2];
    var delimiter := DiagnoseDelimiter(input.header);
    if delimiter.None? {
      return Failed(NoDelimiterMessage), steps, dbAfter;
    }
    steps := AllSteps[..3];
    var frame := ReadFrame(input, ';');
    if frame.None? {
      return Failed(ReadErrorMessage), steps, dbAfter;
    }
    steps := AllSteps[..4];
    if input.cleanFails {
      return Failed(CleanErrorMessage), steps, dbAfter;
    }
    dbAfter := WithoutPeriod(db);
    steps := AllSteps;
    var report := InsertRows(frame, input.valid, input.connectionFails, input.dbFails);
    if report.KeyError? {
      return CrashedWithKeyError, steps, dbAfter;
    }
    dbAfter := dbAfter + report.tuples;
    result := Succeeded(Year, Month, FileName, ";", |RjIndices(frame.value.rows)|, report.count);
  }

  /**
   * `executar()` reading the file with the delimiter it detected and
   * reporting that delimiter.
   */
  method ExecuteWithDetectedDelimiter(input: LoaderInput, db: seq<SaleTuple>)
    returns (result: RunResult, steps: seq<Step>, dbAfter: seq<SaleTuple>)
    ensures Run(result, steps, dbAfter) == ExpectedRun(input, db, DetectedDelimiter)
  {
    steps := AllSteps[..1];
    dbAfter := db;
    if !input.fileExists {
      return Failed(NotFoundMessage), steps, dbAfter;
    }
    steps := AllSteps[..2];
    var delimiter := DiagnoseDelimiter(input.header);
    if delimiter.None? {
      return Failed(NoDelimiterMessage), steps, dbAfter;
    }
    steps := AllSteps[..3];
    var frame := ReadFrame(input, delimiter.value);
    if frame.None? {
      return Failed(ReadErrorMessage), steps, dbAfter;
    }
    steps := AllSteps[..4];
    if input.cleanFails {
      return Failed(CleanErrorMessage), steps, dbAfter;
    }
    dbAfter := WithoutPeriod(db);
    steps := AllSteps;
    var report := InsertRows(frame, input.valid, input.connectionFails, input.dbFails);
    assert Detects(input.header, delimiter.value);
    assert report.Inserted?;
    dbAfter := dbAfter + report.tuples;
    result := Succeeded(Year, Month, FileName, [delimiter.value], |RjIndices(frame.value.rows)|, report.count);
  }

  /** The run reached the insert step. */
  predicate ReachesInsert(input: LoaderInput, mode: ReadMode) {
    && input.fileExists
    && FirstDetected(input.header, Delimiters).Some?
    && ReadFrame(input, ReadDelimiter(mode, FirstDetected(input.header, Delimiters).value)).Some?
    && !input.cleanFails
  }

  /**
   * As written, a run that reaches the insert step raises KeyError exactly
   * when the delimiter detected is not `;`, and then the period's rows have
   * already been deleted.
   */
  lemma AsWrittenCrashesOnOtherDelimiters(input: LoaderInput, db: seq<SaleTuple>)
    ensures var run := ExpectedRun(input, db, AlwaysSemicolon);
      run.result.CrashedWithKeyError? <==>
        (ReachesInsert(input, AlwaysSemicolon) && FirstDetected(input.header, Delimiters) != Some(';'))
    ensures var run := ExpectedRun(input, db, AlwaysSemicolon);
      run.result.CrashedWithKeyError? ==> run.dbAfter == WithoutPeriod(db) && OfPeriod(run.dbAfter) == []
  {
    var detected := FirstDetected(input.header, Delimiters);
    if detected.Some? && detected != Some(';') {
      assert !Detects(input.header, ';');
    }
    if detected == Some(';') {
      assert Detects(input.header, ';');
    }
    WithoutPeriodHasNone(db);
  }

  /** Reading with the delimiter detected, the run never raises KeyError. */
  lemma CorrectedNeverCrashes(input: LoaderInput, db: seq<SaleTuple>)
    ensures !ExpectedRun(input, db, DetectedDelimiter).result.CrashedWithKeyError?
  {
    var detected := FirstDetected(input.header, Delimiters);
    if input.fileExists && detected.Some? {
      assert Detects(input.header, detected.value);
    }
  }

  /** For a file whose delimiter is `;` (or none is found) the correction changes nothing. */
  lemma CorrectionAgreesOnSemicolonFiles(input: LoaderInput, db: seq<SaleTuple>)
    requires FirstDetected(input.header, Delimiters).None? || FirstDetected(input.header, Delimiters) == Some(';')
    ensures ExpectedRun(input, db, AlwaysSemicolon) == ExpectedRun(input, db, DetectedDelimiter)
  {
  }

  /**
   * A successful run, in either mode, inserts the tuples of the RJ rows it
   * accepted and leaves them as exactly the period's rows, every other row
   * of the table as it was, and no more tuples than RJ rows.
   */
  lemma SuccessfulRunReloadsPeriod(input: LoaderInput, db: seq<SaleTuple>, mode: ReadMode)
    ensures var run := ExpectedRun(input, db, mode);
      run.result.Succeeded? ==>
        && run.steps == AllSteps
        && OfPeriod(run.dbAfter) == run.dbAfter[|WithoutPeriod(db)|..]
        && |OfPeriod(run.dbAfter)| == run.result.inserted <= run.result.rjFound
        && WithoutPeriod(run.dbAfter) == WithoutPeriod(db)
  {
    var run := ExpectedRun(input, db, mode);
    if run.result.Succeeded? {
      var detected := FirstDetected(input.header, Delimiters).value;
      var frame := ReadFrame(input, ReadDelimiter(mode, detected));
      var report := InsertOutcome(frame, input.valid, input.connectionFails, input.dbFails);
      assert run.dbAfter == WithoutPeriod(db) + report.tuples;
      ReloadReplacesPeriod(db, report.tuples);
      assert run.dbAfter[|WithoutPeriod(db)|..] == report.tuples;
    }
  }

  /** The header of a tab-separated export. */
  const TabHeader := "UF_VENDA\tMUNICIPIO_VENDA"

  lemma TabHeaderOnTab()
    ensures Split(TabHeader, '\t') == [UfColumn, MunicipalityColumn]
  {
    var parts := [UfColumn, MunicipalityColumn];
    assert '\t' !in UfColumn && '\t' !in MunicipalityColumn;
    assert Join(parts, '\t') == TabHeader;
    SplitJoin(parts, '\t');
  }

  lemma TabHeaderOnSemicolon()
    ensures Split(TabHeader, ';') == [TabHeader]
    ensures TabHeader != UfColumn
  {
    assert ';' !in TabHeader;
    SplitJoin([TabHeader], ';');
    assert |UfColumn| != |TabHeader|;
  }

  /** For a tab-separated file the delimiter detected is the tab, which `;` does not split. */
  lemma TabSeparatedFileDetected()
    ensures FirstDetected(TabHeader, Delimiters) == Some('\t')
    ensures !Detects(TabHeader, ';')
  {
    TabHeaderOnTab();
    TabHeaderOnSemicolon();
    assert Delimiters[1..][0] == '\t';
  }

  /**
   * A tab-separated file with no RJ rows, loaded over a table holding one
   * January 2016 sale: as written the run deletes that sale and then raises
   * KeyError; corrected, it deletes it and completes, reporting the tab.
   */
  lemma TabSeparatedFileLosesPeriod(sale: SaleTuple)
    requires InPeriod(sale)
    ensures var input := LoaderInput(true, TabHeader, [], false, false, {}, false, {});
      && ExpectedRun(input, [sale], AlwaysSemicolon) == Run(CrashedWithKeyError, AllSteps, [])
      && ExpectedRun(input, [sale], DetectedDelimiter).result == Succeeded(Year, Month, FileName, "\t", 0, 0)
      && ExpectedRun(input, [sale], DetectedDelimiter).dbAfter == []
  {
    TabFileReadAsWritten(sale);
    TabFileReadCorrected(sale);
  }

  /** Read with `;`, the tab-separated file has no `UF_VENDA` column, after the period was deleted. */
  lemma TabFileReadAsWritten(sale: SaleTuple)
    requires InPeriod(sale)
    ensures var input := LoaderInput(true, TabHeader, [], false, false, {}, false, {});
      ExpectedRun(input, [sale], AlwaysSemicolon) == Run(CrashedWithKeyError, AllSteps, [])
  {
    var input := LoaderInput(true, TabHeader, [], false, false, {}, false, {});
    TabSeparatedFileDetected();
    TabHeaderOnSemicolon();
    assert ReadFrame(input, ';') == Some(Frame([TabHeader], []));
    assert InsertOutcome(Some(Frame([TabHeader], [])), {}, false, {}) == KeyError;
    assert WithoutPeriod([sale]) == [];
  }

  /** Read with the detected tab, the same file is read, finds no RJ row and completes. */
  lemma TabFileReadCorrected(sale: SaleTuple)
    requires InPeriod(sale)
    ensures var input := LoaderInput(true, TabHeader, [], false, false, {}, false, {});
      && ExpectedRun(input, [sale], DetectedDelimiter).result == Succeeded(Year, Month, FileName, "\t", 0, 0)
      && ExpectedRun(input, [sale], DetectedDelimiter).dbAfter == []
  {
    var input := LoaderInput(true, TabHeader, [], false, false, {}, false, {});
    TabSeparatedFileDetected();
    TabHeaderOnTab();
    assert RjIndices(input.rows) == [];
    var columns := [UfColumn, MunicipalityColumn];
    assert ReadFrame(input, '\t') == Some(Frame(columns, []));
    assert InsertOutcome(Some(Frame(columns, [])), {}, false, {}) == Inserted(0, []);
    assert WithoutPeriod([sale]) == [];
  }

}
