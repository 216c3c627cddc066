/** One question-and-answer exchange of the session, as stored in the chat
    history, and the Python truthiness tests the application applies to it. */
module Exchanges {

  datatype Option<T> = None | Some(value: T)

  /** A result row; each cell is the text `str()` gives for its value. */
  type Row = seq<string>

  /** The record appended per submission: the question as typed, the generated
      SQL, and the three fields `run_sql` returns. */
  datatype Exchange = Exchange(
    user: string,
    sql: string,
    results: Option<seq<Row>>,
    error: Option<string>,
    columns: Option<seq<string>>)

  /** What `run_sql` returns: column names and rows, or the error's text. */
  datatype QueryOutcome = Rows(names: seq<string>, rows: seq<Row>) | Failed(message: string)

  /** Python truthiness of a field that is `None` or a list or string: it is
      present and non-empty. */
  predicate Truthy<T>(o: Option<seq<T>>)
  {
    o.Some? && |o.value| > 0
  }

  /** Every result row has one cell per column, as rows fetched from SQLite do. */
  predicate Shaped(e: Exchange)
  {
    e.results.Some? && e.columns.Some? ==>
      forall i :: 0 <= i < |e.results.value| ==> |e.results.value[i]| == |e.columns.value|
  }

  /** A query outcome whose rows are as wide as its column list. */
  predicate WellFormed(o: QueryOutcome)
  {
    o.Rows? ==> forall i :: 0 <= i < |o.rows| ==> |o.rows[i]| == |o.names|
  }

  /** The record stored for a question, its SQL and the outcome of running the
      SQL: on success the columns and rows and no error; on failure the error
      and neither columns nor rows. */
  function Record(question: string, sql: string, outcome: QueryOutcome): (e: Exchange)
    ensures e.user == question && e.sql == sql
    ensures e.results.Some? <==> e.error.None?
    ensures e.results.Some? <==> e.columns.Some?
    ensures WellFormed(outcome) ==> Shaped(e)
    ensures outcome.Rows? ==>
              e.results == Some(outcome.rows) && e.columns == Some(outcome.names) && e.error == None
    ensures outcome.Failed? ==>
              e.error == Some(outcome.message) && e.results == None && e.columns == None
  {
    match outcome
    case Rows(names, rows) => Exchange(question, sql, Some(rows), None, Some(names))
    case Failed(message) => Exchange(question, sql, None, Some(message), None)
  }
}
