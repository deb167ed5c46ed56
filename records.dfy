/**
 * The tabular dataset and the outcomes the HTTP layer turns into status
 * codes. A row is a mapping from column name to cell, as a pandas row is.
 */
module Records {
  import opened Wrappers

  /** A cell: a number (coordinates and ages are integers here) or text. */
  datatype Value = Num(n: int) | Text(s: string)

  type Row = map<string, Value>

  /** The column holding a patient's name, which both servers read. */
  const NameColumn: string := "name"

  /**
   * A data frame: its column names, the columns whose dtype is int64 or
   * float64, and its rows in order.
   */
  datatype Table = Table(columns: set<string>, numeric: set<string>, rows: seq<Row>)

  /** Every row has exactly the frame's columns, and numeric columns hold numbers. */
  ghost predicate RowFits(t: Table, r: Row) {
    && r.Keys == t.columns
    && forall c :: c in t.numeric ==> c in r && r[c].Num?
  }

  ghost predicate WellFormed(t: Table) {
    && t.numeric <= t.columns
    && forall i :: 0 <= i < |t.rows| ==> RowFits(t, t.rows[i])
  }

  /**
   * What an endpoint answers: a token (200), result records (200), a
   * stored row (200), or one of the error statuses 401, 400, 404 and 500.
   */
  datatype Response =
    | Issued(token: string)
    | Results(records: seq<Row>)
    | Added
    | Unauthorized
    | BadRequest
    | NotFound
    | ServerError

  /** Python truthiness of an optional string: neither None nor "". */
  predicate Truthy(s: Option<string>) {
    s.Some? && s.value != ""
  }
}
