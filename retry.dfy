/**
 * One municipality's grouped-sum query with its retry rule
 * (`AgrupadorVendasMedicamentos.agrupar_por_municipio`).
 *
 * The database is replaced by a script: the outcome of the first, second and
 * third attempt of the query, each either the rows it returned or the text of
 * the exception it raised. An exception whose text contains "timeout", in any
 * letter case, is retried while fewer than three attempts have been made;
 * every other exception, and a timeout on the third attempt, gives no rows.
 */
module Retry {
  import opened Text
  import opened Records

  /** What one execution of the query produced. */
  datatype QueryOutcome =
    | Rows(records: seq<Record>)
    | Raised(message: string)

  /** The number of attempts after which a timeout is no longer retried. */
  const MaxAttempts: nat := 3

  /** `"timeout" in str(e).lower()` */
  predicate IsTimeout(message: string)
    ensures IsTimeout(message) <==> exists k :: OccursAt(Lower(message), "timeout", k)
  {
    ContainsAt(Lower(message), "timeout");
    Contains(Lower(message), "timeout")
  }

  /**
   * What a call returned: the rows (Decimals already converted), how many
   * times the query was executed and how many waits came between them.
   */
  datatype QueryResult = QueryResult(rows: seq<Record>, attempts: nat, waits: nat)

  /** The source's recursion, attempt by attempt, read from the script. */
  function Aggregate(script: seq<QueryOutcome>, attempt: nat): (r: QueryResult)
    requires 1 <= attempt <= MaxAttempts <= |script|
    ensures attempt <= r.attempts <= MaxAttempts && r.waits == r.attempts - 1
    ensures script[r.attempts - 1].Rows? ==> r.rows == ConvertAll(script[r.attempts - 1].records)
    ensures script[r.attempts - 1].Raised? ==> r.rows == []
    ensures r.attempts < MaxAttempts ==> !(script[r.attempts - 1].Raised? && IsTimeout(script[r.attempts - 1].message))
    decreases MaxAttempts - attempt
  {
    match script[attempt - 1]
    case Rows(records) => QueryResult(ConvertAll(records), attempt, attempt - 1)
    case Raised(message) =>
      if IsTimeout(message) && attempt < MaxAttempts then Aggregate(script, attempt + 1)
      else QueryResult([], attempt, attempt - 1)
  }

  /**
   * Everything a call starting at `attempt` can end in: it stops at some
   * attempt `k`, every attempt before `k` raised a timeout, it waited once
   * between consecutive attempts, and it returns the converted rows of
   * attempt `k` if that one succeeded and nothing otherwise; if attempt `k`
   * was itself a timeout, `k` is the last allowed attempt.
   */
  lemma {:induction false} AggregateOutcome(script: seq<QueryOutcome>, attempt: nat)
    requires 1 <= attempt <= MaxAttempts <= |script|
    ensures var r := Aggregate(script, attempt);
      && attempt <= r.attempts <= MaxAttempts
      && r.waits == r.attempts - 1
      && (forall k :: attempt - 1 <= k < r.attempts - 1 ==> script[k].Raised? && IsTimeout(script[k].message))
      && (script[r.attempts - 1].Rows? ==> r.rows == ConvertAll(script[r.attempts - 1].records))
      && (script[r.attempts - 1].Raised? ==> r.rows == [])
      && (script[r.attempts - 1].Raised? && IsTimeout(script[r.attempts - 1].message) ==> r.attempts == MaxAttempts)
    decreases MaxAttempts - attempt
  {
    match script[attempt - 1]
    case Rows(_) =>
    case Raised(message) =>
      if IsTimeout(message) && attempt < MaxAttempts {
        AggregateOutcome(script, attempt + 1);
      }
  }

  /** A query that times out on every attempt is executed exactly three times and gives no rows. */
  lemma PersistentTimeout(script: seq<QueryOutcome>)
    requires MaxAttempts <= |script|
    requires forall k :: 0 <= k < MaxAttempts ==> script[k].Raised? && IsTimeout(script[k].message)
    ensures Aggregate(script, 1) == QueryResult([], MaxAttempts, MaxAttempts - 1)
  {
    AggregateOutcome(script, 1);
  }

  /** Any other exception on the first attempt ends the call at once with no rows. */
  lemma OtherErrorNotRetried(script: seq<QueryOutcome>)
    requires MaxAttempts <= |script|
    requires script[0].Raised? && !IsTimeout(script[0].message)
    ensures Aggregate(script, 1) == QueryResult([], 1, 0)
  {
  }

  /** The timeout test does not depend on letter case. */
  lemma TimeoutIgnoresCase(message: string)
    ensures IsTimeout(message) == IsTimeout(Lower(message))
  {
    assert Lower(Lower(message)) == Lower(message);
  }

  /**
   * `agrupar_por_municipio(nome)`: the recursion on `tentativa` written as a
   * bounded loop, with the rows of a successful attempt converted in place.
   */
  method QueryMunicipality(script: seq<QueryOutcome>) returns (rows: seq<Record>, attempts: nat, waits: nat)
    requires MaxAttempts <= |script|
    ensures QueryResult(rows, attempts, waits) == Aggregate(script, 1)
    ensures 1 <= attempts <= MaxAttempts && waits == attempts - 1
  {
    var attempt := 1;
    waits := 0;
    while true
      invariant 1 <= attempt <= MaxAttempts
      invariant waits == attempt - 1
      invariant Aggregate(script, attempt) == Aggregate(script, 1)
      decreases MaxAttempts - attempt
    {
      match script[attempt - 1]
      case Rows(records) =>
        var buffer := new Record[|records|](k requires 0 <= k < |records| => records[k]);
        assert buffer[..] == records;
        ConvertDecimals(buffer);
        return buffer[..], attempt, waits;
      case Raised(message) =>
        if IsTimeout(message) && attempt < MaxAttempts {
          waits := waits + 1;
          attempt := attempt + 1;
        } else {
          return [], attempt, waits;
        }
    }
  }
}
