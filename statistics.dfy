/**
 * Summary statistics over the accumulated table (`obter_estatisticas`) and
 * the per-year cross-check of its earlier definition.
 *
 * The table is read the way pandas reads a DataFrame column: a row without
 * the key, or holding None there, is NaN. `nunique()` counts the distinct
 * values that are not NaN, `sum()` skips NaN, `unique()` lists the distinct
 * values in order of first appearance with NaN among them, and a filter
 * `column == NaN` selects no row.
 */
module TableStatistics {
  import opened Wrappers
  import opened Records

  const YearColumn := "ANO_VENDA"
  const MunicipalityColumn := "MUNICIPIO_VENDA"
  const IngredientColumn := "PRINCIPIO_ATIVO"
  const TotalColumn := "TOTAL_VENDIDO"

  function YearOf(r: Record): Option<Value> { Cell(r, YearColumn) }

  /** The quantity a row adds to `sum()`: NaN adds nothing. */
  function Amount(r: Record): int {
    match Cell(r, TotalColumn)
    case Some(Decimal(n)) => n
    case Some(Float(n)) => n
    case Some(Int(n)) => n
    case _ => 0
  }

  /** `sum()` raises on a text quantity; a table the statistics can be taken of has none. */
  predicate NumericTotals(t: seq<Record>) {
    forall i :: 0 <= i < |t| ==> !(Cell(t[i], TotalColumn).Some? && Cell(t[i], TotalColumn).value.Text?)
  }

  /** `df['TOTAL_VENDIDO'].sum()`, added up row by row. */
  function Total(t: seq<Record>): (sum: int)
    ensures |t| == 1 ==> sum == Amount(t[0])
    ensures (forall i :: 0 <= i < |t| ==> Amount(t[i]) >= 0) ==> sum >= 0
  {
    if t == [] then 0 else Total(t[..|t| - 1]) + Amount(t[|t| - 1])
  }

  /** The distinct non-NaN values of a column; `nunique()` is its size. */
  function Distinct(t: seq<Record>, key: string): (values: set<Value>)
    ensures t == [] ==> values == {}
    ensures |t| == 1 ==> values == (if Cell(t[0], key).Some? then {Cell(t[0], key).value} else {})
  {
    if t == [] then {}
    else
      var c := Cell(t[|t| - 1], key);
      Distinct(t[..|t| - 1], key) + (if c.Some? then {c.value} else {})
  }

  /** The statistics dictionary; the `data_geracao` timestamp is not modelled. */
  datatype Stats =
    | Empty   // {"status": "vazio"}
    | Summary(totalRecords: nat, municipalities: nat, years: nat, ingredients: nat, totalSold: int)

  // ---------------------------------------------------------------------------
  // The per-year view of the table
  // ---------------------------------------------------------------------------

  /** `df['ANO_VENDA'].unique()`: first appearances, NaN (None) included. */
  function UniqueYears(t: seq<Record>): (years: seq<Option<Value>>)
    ensures |years| <= |t|
    ensures t != [] ==> years != [] && years[0] == YearOf(t[0])
  {
    if t == [] then []
    else
      var u := UniqueYears(t[..|t| - 1]);
      var y := YearOf(t[|t| - 1]);
      if y in u then u else u + [y]
  }

  /** `df[df['ANO_VENDA'] == ano]['TOTAL_VENDIDO'].sum()`; NaN equals nothing. */
  function Subtotal(t: seq<Record>, year: Option<Value>): (sum: int)
    ensures year.None? ==> sum == 0
    ensures |t| == 1 ==> sum == (if year.Some? && YearOf(t[0]) == year then Amount(t[0]) else 0)
  {
    if t == [] then 0
    else
      var r := t[|t| - 1];
      Subtotal(t[..|t| - 1], year) + (if year.Some? && YearOf(r) == year then Amount(r) else 0)
  }

  /** The sum of the subtotals of the given years, in order. */
  function SumOfSubtotals(t: seq<Record>, years: seq<Option<Value>>): int {
    if years == [] then 0 else SumOfSubtotals(t, years[..|years| - 1]) + Subtotal(t, years[|years| - 1])
  }

  /** The quantity held by rows whose year is NaN. */
  function MissingYearTotal(t: seq<Record>): int {
    if t == [] then 0
    else
      var r := t[|t| - 1];
      MissingYearTotal(t[..|t| - 1]) + (if YearOf(r).None? then Amount(r) else 0)
  }

  predicate NoDuplicates<T(==)>(s: seq<T>) {
    forall i, j :: 0 <= i < j < |s| ==> s[i] != s[j]
  }

  lemma {:induction false} UniqueYearsComplete(t: seq<Record>)
    ensures NoDuplicates(UniqueYears(t))
    ensures forall i :: 0 <= i < |t| ==> YearOf(t[i]) in UniqueYears(t)
    ensures forall y :: y in UniqueYears(t) ==> exists i :: 0 <= i < |t| && YearOf(t[i]) == y
  {
    if t != [] {
      var p := t[..|t| - 1];
      UniqueYearsComplete(p);
      forall y | y in UniqueYears(t) ensures exists i :: 0 <= i < |t| && YearOf(t[i]) == y {
        if y in UniqueYears(p) {
          var i :| 0 <= i < |p| && YearOf(p[i]) == y;
          assert t[i] == p[i];
        } else {
          assert YearOf(t[|t| - 1]) == y;
        }
      }
      forall i | 0 <= i < |t| ensures YearOf(t[i]) in UniqueYears(t) {
        if i < |p| {
          assert t[i] == p[i];
        }
      }
    }
  }

  /** A year that no row carries has subtotal zero. */
  lemma {:induction false} SubtotalOfAbsentYear(t: seq<Record>, year: Option<Value>)
    requires forall i :: 0 <= i < |t| ==> YearOf(t[i]) != year
    ensures Subtotal(t, year) == 0
  {
    if t != [] {
      var p := t[..|t| - 1];
      assert forall i :: 0 <= i < |p| ==> p[i] == t[i];
      SubtotalOfAbsentYear(p, year);
    }
  }

  /** Appending one row to the table adds its quantity to the subtotal of its year, once. */
  lemma {:induction false} SumOfSubtotalsStep(p: seq<Record>, r: Record, years: seq<Option<Value>>)
    requires NoDuplicates(years)
    ensures SumOfSubtotals(p + [r], years)
         == SumOfSubtotals(p, years) + (if YearOf(r).Some? && YearOf(r) in years then Amount(r) else 0)
  {
    assert (p + [r])[..|p|] == p;
    if years != [] {
      var front := years[..|years| - 1];
      var last := years[|years| - 1];
      assert NoDuplicates(front);
      SumOfSubtotalsStep(p, r, front);
      assert last !in front;
      assert YearOf(r) in years <==> YearOf(r) in front || YearOf(r) == last;
    }
  }

  /**
   * The cross-check of `obter_estatisticas` (first definition): adding up the
   * subtotals of the years `unique()` lists gives the direct total minus the
   * quantity of rows without a year, which no year filter selects.
   */
  lemma {:induction false} CrossCheck(t: seq<Record>)
    ensures SumOfSubtotals(t, UniqueYears(t)) == Total(t) - MissingYearTotal(t)
  {
    if t != [] {
      var p := t[..|t| - 1];
      var r := t[|t| - 1];
      assert t == p + [r];
      var u := UniqueYears(p);
      CrossCheck(p);
      UniqueYearsComplete(p);
      SumOfSubtotalsStep(p, r, u);
      var y := YearOf(r);
      if y !in u {
        assert UniqueYears(t) == u + [y];
        assert (u + [y])[..|u|] == u;
        assert forall i :: 0 <= i < |p| ==> YearOf(p[i]) != y;
        SubtotalOfAbsentYear(p, y);
      }
    }
  }

  /** When every row carries a year, the debug difference of the cross-check is zero. */
  lemma {:induction false} CrossCheckExact(t: seq<Record>)
    requires forall i :: 0 <= i < |t| ==> YearOf(t[i]).Some?
    ensures SumOfSubtotals(t, UniqueYears(t)) == Total(t)
  {
    CrossCheck(t);
    NoMissingYear(t);
  }

  lemma {:induction false} NoMissingYear(t: seq<Record>)
    requires forall i :: 0 <= i < |t| ==> YearOf(t[i]).Some?
    ensures MissingYearTotal(t) == 0
  {
    if t != [] {
      var p := t[..|t| - 1];
      assert forall i :: 0 <= i < |p| ==> p[i] == t[i];
      NoMissingYear(p);
    }
  }

  // ---------------------------------------------------------------------------
  // Distinct counts and totals over a growing table
  // ---------------------------------------------------------------------------

  /** `nunique()` never exceeds the number of rows. */
  lemma {:induction false} DistinctBound(t: seq<Record>, key: string)
    ensures |Distinct(t, key)| <= |t|
  {
    if t != [] {
      DistinctBound(t[..|t| - 1], key);
    }
  }

  /** Row `i` of the table holds `v` in column `key`. */
  predicate RowHolds(t: seq<Record>, key: string, v: Value, i: int) {
    0 <= i < |t| && Cell(t[i], key) == Some(v)
  }

  /** A value is counted by `nunique()` exactly when some row holds it. */
  lemma {:induction false} DistinctMembers(t: seq<Record>, key: string, v: Value)
    ensures v in Distinct(t, key) <==> exists i :: RowHolds(t, key, v, i)
  {
    if t != [] {
      var p := t[..|t| - 1];
      DistinctMembers(p, key, v);
      if v in Distinct(p, key) {
        var i :| RowHolds(p, key, v, i);
        assert p[i] == t[i];
        assert RowHolds(t, key, v, i);
      } else if Cell(t[|t| - 1], key) == Some(v) {
        assert RowHolds(t, key, v, |t| - 1);
      }
      if exists i :: RowHolds(t, key, v, i) {
        var i :| RowHolds(t, key, v, i);
        if i < |p| {
          assert p[i] == t[i];
          assert RowHolds(p, key, v, i);
        }
      }
    }
  }

  /** The total of a table grown by a batch is the old total plus the batch's. */
  lemma {:induction false} TotalAppend(t: seq<Record>, batch: seq<Record>)
    ensures Total(t + batch) == Total(t) + Total(batch)
  {
    if batch == [] {
      assert t + batch == t;
    } else {
      var front := batch[..|batch| - 1];
      TotalAppend(t, front);
      assert (t + batch)[..|t + batch| - 1] == t + front;
    }
  }

  /** The distinct values of a table grown by a batch are the old ones and the batch's. */
  lemma {:induction false} DistinctAppend(t: seq<Record>, batch: seq<Record>, key: string)
    ensures Distinct(t + batch, key) == Distinct(t, key) + Distinct(batch, key)
  {
    if batch == [] {
      assert t + batch == t;
    } else {
      var front := batch[..|batch| - 1];
      DistinctAppend(t, front, key);
      assert (t + batch)[..|t + batch| - 1] == t + front;
    }
  }

  /** Converting Decimals to floats leaves every quantity, and so the total, unchanged. */
  lemma {:induction false} TotalAfterConversion(t: seq<Record>)
    ensures Total(ConvertAll(t)) == Total(t)
  {
    if t != [] {
      var p := t[..|t| - 1];
      TotalAfterConversion(p);
      ConvertAllAppend(p, t[|t| - 1]);
      assert t == p + [t[|t| - 1]];
      CellAfterConversion(t[|t| - 1], TotalColumn);
      ConvertAllLength(p);
      assert ConvertAll(t)[..|ConvertAll(t)| - 1] == ConvertAll(p);
    }
  }

  lemma {:induction false} ConvertAllAppend(p: seq<Record>, r: Record)
    ensures ConvertAll(p + [r]) == ConvertAll(p) + [ConvertRecord(r)]
  {
    if p == [] {
      assert [r][1..] == [];
    } else {
      assert (p + [r])[1..] == p[1..] + [r];
      ConvertAllAppend(p[1..], r);
    }
  }

  // ---------------------------------------------------------------------------
  // obter_estatisticas
  // ---------------------------------------------------------------------------

  /**
   * `obter_estatisticas` as Python runs it (the later definition): the empty
   * sentinel for an empty table, otherwise the row count, the three
   * `nunique()` counts and the direct `sum()` of the quantities.
   */
  function Statistics(t: seq<Record>): (r: Stats)
    requires NumericTotals(t)
    ensures r.Empty? <==> t == []
    ensures r.Summary? ==> r.totalRecords == |t|
    ensures r.Summary? ==> 1 <= r.totalRecords
    ensures r.Summary? ==> r.municipalities == |Distinct(t, MunicipalityColumn)|
    ensures r.Summary? ==> r.years == |Distinct(t, YearColumn)|
    ensures r.Summary? ==> r.ingredients == |Distinct(t, IngredientColumn)|
    ensures r.Summary? ==> r.municipalities <= r.totalRecords && r.years <= r.totalRecords && r.ingredients <= r.totalRecords
    ensures r.Summary? ==> r.totalSold == Total(t)
    ensures r.Summary? ==> r.totalSold == SumOfSubtotals(t, UniqueYears(t)) + MissingYearTotal(t)
  {
    if t == [] then Empty
    else
      DistinctBound(t, MunicipalityColumn);
      DistinctBound(t, YearColumn);
      DistinctBound(t, IngredientColumn);
      CrossCheck(t);
      Summary(|t|, |Distinct(t, MunicipalityColumn)|, |Distinct(t, YearColumn)|,
              |Distinct(t, IngredientColumn)|, Total(t))
  }

  /**
   * What a batch appended to the table does to the statistics: the row count
   * and the total grow by the batch's, and no distinct count shrinks.
   */
  lemma StatisticsAfterAppend(t: seq<Record>, batch: seq<Record>)
    requires NumericTotals(t + batch) && t != []
    ensures NumericTotals(t)
    ensures Statistics(t + batch).totalRecords == Statistics(t).totalRecords + |batch|
    ensures Statistics(t + batch).totalSold == Statistics(t).totalSold + Total(batch)
    ensures Statistics(t).municipalities <= Statistics(t + batch).municipalities
    ensures Statistics(t).years <= Statistics(t + batch).years
    ensures Statistics(t).ingredients <= Statistics(t + batch).ingredients
  {
    assert forall i :: 0 <= i < |t| ==> t[i] == (t + batch)[i];
    TotalAppend(t, batch);
    DistinctAppend(t, batch, MunicipalityColumn);
    DistinctAppend(t, batch, YearColumn);
    DistinctAppend(t, batch, IngredientColumn);
    SubsetCardinality(Distinct(t, MunicipalityColumn), Distinct(t + batch, MunicipalityColumn));
    SubsetCardinality(Distinct(t, YearColumn), Distinct(t + batch, YearColumn));
    SubsetCardinality(Distinct(t, IngredientColumn), Distinct(t + batch, IngredientColumn));
  }

  lemma SubsetCardinality<T>(a: set<T>, b: set<T>)
    requires a <= b
    ensures |a| <= |b|
  {
    assert b == a + (b - a);
  }
}
