/**
 * The catalogue as the recommender sees it: a table of rows keyed by column
 * name, whose cells are either pandas' missing value or a value held as text,
 * and the three ways the code reads a cell (`_nz`, `astype(str)` and
 * `dict.get`).
 */
module Frame {
  import opened Wrappers

  /** A cell of the table: pandas' missing value (NaN, as `read_csv` produces) or a value, as its text. */
  datatype Cell = NA | Str(s: string)

  /** One row, as `row.get(...)` and `iloc[i].to_dict()` see it. */
  type Row = map<string, Cell>

  /** A DataFrame after `reset_index(drop=True)`: its column set and its rows in positional order. */
  datatype Table = Table(columns: set<string>, rows: seq<Row>)

  /** Every row has exactly the table's columns. */
  predicate WellFormed(t: Table) {
    forall i :: 0 <= i < |t.rows| ==> t.rows[i].Keys == t.columns
  }

  /** `_nz`: a missing value becomes the empty string, anything else its text. */
  function Nz(c: Cell): (r: string)
    ensures c.NA? ==> r == ""
    ensures c.Str? ==> r == c.s
  {
    match c
    case NA => ""
    case Str(s) => s
  }

  /** `astype(str)`: a missing value becomes the text "nan". */
  function AsStr(c: Cell): (r: string)
    ensures c.NA? ==> r == "nan"
    ensures c.Str? ==> r == c.s
  {
    match c
    case NA => "nan"
    case Str(s) => s
  }

  /** `row.get(key, default)`. */
  function Get(r: Row, key: string, default: Cell): Cell {
    if key in r then r[key] else default
  }

  /** `dict.get(key)`: `None` when the key is absent. */
  function Lookup(r: Row, key: string): Option<Cell> {
    if key in r then Some(r[key]) else None
  }
}
