/**
 * Rows as the database driver hands them over: dictionaries from column name
 * to value, with `decimal.Decimal` for the results of SQL `SUM`. This module
 * also holds the in-place walk that replaces every Decimal by a float
 * (`converter_decimals_para_float`).
 *
 * Quantities in this system are whole numbers of units, so a numeric value is
 * kept as its integer magnitude and converting a Decimal to a float keeps
 * that magnitude.
 */
module Records {
  import opened Wrappers

  datatype Value =
    | Decimal(units: int)   // decimal.Decimal, as SUM(...) returns it
    | Float(units: int)     // float
    | Int(n: int)           // int
    | Text(s: string)       // str
    | Null                  // None (NULL in SQL, NaN in a DataFrame)

  /** One `key: value` entry of a row dictionary. */
  datatype Field = Field(key: string, value: Value)

  /** A row dictionary, its entries in insertion order. */
  type Record = seq<Field>

  /**
   * The value of column `key` in a row as a DataFrame built from the rows
   * sees it: `None` when the row has no such key or holds None there (NaN).
   */
  function Cell(r: Record, key: string): (v: Option<Value>)
    ensures v.Some? ==> !v.value.Null?
  {
    if r == [] then None
    else if r[0].key == key then (if r[0].value.Null? then None else Some(r[0].value))
    else Cell(r[1..], key)
  }

  /** Entry `j` is the first entry with key `key`; a row dictionary's keys are unique, so it is the entry with that key. */
  predicate FirstKeyAt(r: Record, key: string, j: int) {
    0 <= j < |r| && r[j].key == key && forall i :: 0 <= i < j ==> r[i].key != key
  }

  /**
   * What `Cell` reads: the value of the first entry with the key, missing
   * when that value is None or when no entry has the key.
   */
  lemma {:induction false} CellMeaning(r: Record, key: string)
    ensures forall j :: FirstKeyAt(r, key, j) ==> Cell(r, key) == (if r[j].value.Null? then None else Some(r[j].value))
    ensures (forall j :: 0 <= j < |r| ==> r[j].key != key) ==> Cell(r, key) == None
  {
    if r != [] && r[0].key != key {
      CellMeaning(r[1..], key);
      forall j | FirstKeyAt(r, key, j) ensures FirstKeyAt(r[1..], key, j - 1) {
        assert r[1..][j - 1] == r[j];
      }
      if forall j :: 0 <= j < |r| ==> r[j].key != key {
        assert forall j :: 0 <= j < |r| - 1 ==> r[1..][j].key != key;
      }
    }
  }

  /** `float(valor)` applied where `isinstance(valor, decimal.Decimal)` holds. */
  function ToFloat(v: Value): (w: Value)
    ensures v.Decimal? ==> w == Float(v.units)
    ensures !v.Decimal? ==> w == v
  {
    if v.Decimal? then Float(v.units) else v
  }

  /** A row after the inner loop of the walk: its Decimal entries replaced. */
  function ConvertRecord(r: Record): (c: Record)
    ensures |c| == |r|
    ensures forall j :: 0 <= j < |r| ==> c[j].key == r[j].key && c[j].value == ToFloat(r[j].value)
  {
    if r == [] then [] else [Field(r[0].key, ToFloat(r[0].value))] + ConvertRecord(r[1..])
  }

  /** All rows after the walk. */
  function ConvertAll(rs: seq<Record>): (cs: seq<Record>)
    ensures |cs| == |rs|
    ensures forall i :: 0 <= i < |rs| ==> cs[i] == ConvertRecord(rs[i])
  {
    if rs == [] then [] else [ConvertRecord(rs[0])] + ConvertAll(rs[1..])
  }

  predicate HasDecimal(r: Record) {
    exists j :: 0 <= j < |r| && r[j].value.Decimal?
  }

  /**
   * The walk changes a row entry by entry: same length, same keys in the same
   * order, each Decimal replaced by the float of equal value and every other
   * value left as it was.
   */
  lemma {:induction false} ConvertRecordAt(r: Record, j: nat)
    requires j < |r|
    ensures |ConvertRecord(r)| == |r|
    ensures ConvertRecord(r)[j].key == r[j].key
    ensures ConvertRecord(r)[j].value == ToFloat(r[j].value)
  {
    if j > 0 {
      ConvertRecordAt(r[1..], j - 1);
    } else if |r| > 1 {
      ConvertRecordAt(r[1..], 0);
    }
  }

  /** The walk leaves no Decimal behind in a row. */
  lemma ConvertRecordHasNoDecimal(r: Record)
    ensures |ConvertRecord(r)| == |r|
    ensures !HasDecimal(ConvertRecord(r))
  {
    if r != [] {
      ConvertRecordAt(r, 0);
    }
    forall j | 0 <= j < |r| ensures !ConvertRecord(r)[j].value.Decimal? {
      ConvertRecordAt(r, j);
    }
  }

  /** The walk keeps the number of rows and their order, converting each row alone. */
  lemma {:induction false} ConvertAllAt(rs: seq<Record>, i: nat)
    requires i < |rs|
    ensures |ConvertAll(rs)| == |rs|
    ensures ConvertAll(rs)[i] == ConvertRecord(rs[i])
  {
    if i > 0 {
      ConvertAllAt(rs[1..], i - 1);
    } else if |rs| > 1 {
      ConvertAllAt(rs[1..], 0);
    }
  }

  lemma {:induction false} ConvertAllLength(rs: seq<Record>)
    ensures |ConvertAll(rs)| == |rs|
  {
    if rs != [] {
      ConvertAllLength(rs[1..]);
    }
  }

  /** Converting rows that hold no Decimal changes nothing. */
  lemma {:induction false} ConvertRecordWithoutDecimal(r: Record)
    requires !HasDecimal(r)
    ensures ConvertRecord(r) == r
  {
    if r != [] {
      assert !r[0].value.Decimal?;
      assert !HasDecimal(r[1..]) by {
        forall j | 0 <= j < |r| - 1 ensures !r[1..][j].value.Decimal? {
          assert r[1..][j] == r[j + 1];
        }
      }
      ConvertRecordWithoutDecimal(r[1..]);
    }
  }

  /** Running the walk a second time changes nothing. */
  lemma {:induction false} ConvertAllIdempotent(rs: seq<Record>)
    ensures ConvertAll(ConvertAll(rs)) == ConvertAll(rs)
  {
    if rs != [] {
      ConvertRecordHasNoDecimal(rs[0]);
      ConvertRecordWithoutDecimal(ConvertRecord(rs[0]));
      ConvertAllIdempotent(rs[1..]);
    }
  }

  /** The walk turns a column's Decimal into a float of equal value and leaves other values alone. */
  lemma {:induction false} CellAfterConversion(r: Record, key: string)
    ensures Cell(ConvertRecord(r), key) == (if Cell(r, key).Some? then Some(ToFloat(Cell(r, key).value)) else None)
  {
    if r != [] {
      CellAfterConversion(r[1..], key);
    }
  }

  /**
   * `converter_decimals_para_float`: walks the rows and, in each row, the
   * entries, replacing in place every Decimal value by its float.
   */
  method ConvertDecimals(rows: array<Record>)
    modifies rows
    ensures rows[..] == ConvertAll(old(rows[..]))
  {
    ghost var original := rows[..];
    var i := 0;
    while i < rows.Length
      invariant 0 <= i <= rows.Length
      invariant forall k :: 0 <= k < i ==> rows[k] == ConvertRecord(original[k])
      invariant forall k :: i <= k < rows.Length ==> rows[k] == original[k]
    {
      var j := 0;
      while j < |rows[i]|
        invariant 0 <= j <= |rows[i]| == |original[i]|
        invariant forall k :: 0 <= k < i ==> rows[k] == ConvertRecord(original[k])
        invariant forall k :: i < k < rows.Length ==> rows[k] == original[k]
        invariant forall m :: 0 <= m < j ==> rows[i][m] == Field(original[i][m].key, ToFloat(original[i][m].value))
        invariant forall m :: j <= m < |rows[i]| ==> rows[i][m] == original[i][m]
      {
        var entry := rows[i][j];
        if entry.value.Decimal? {
          rows[i] := rows[i][j := Field(entry.key, Float(entry.value.units))];
        }
        j := j + 1;
      }
      if original[i] != [] {
        ConvertRecordAt(original[i], 0);
      }
      forall m | 0 <= m < |original[i]| ensures ConvertRecord(original[i])[m] == rows[i][m] {
        ConvertRecordAt(original[i], m);
      }
      i := i + 1;
    }
    ConvertAllLength(original);
    forall k | 0 <= k < rows.Length ensures rows[..][k] == ConvertAll(original)[k] {
      ConvertAllAt(original, k);
    }
  }
}
