/** Tables as the simulator sees them: a pandas DataFrame becomes an ordered list of column
    names and a sequence of rows, each row a map from column name to cell value. */
module Frames {

  /** One cell of a table.
      - `Label`: a category or text value;
      - `Int`: an integer, e.g. a cell id after `astype(int)`;
      - `Num`: a finite floating-point number, modelled as a real;
      - `NaN`: a missing or not-a-number value (also stands for the infinities a division by
        zero produces). */
  datatype Value = Label(text: string) | Int(n: int) | Num(x: real) | NaN

  type Row = map<string, Value>

  datatype Frame = Frame(columns: seq<string>, rows: seq<Row>)

  function ColumnSet(columns: seq<string>): set<string>
  {
    set c | c in columns
  }

  /** Every row has exactly the frame's columns. */
  predicate WellFormed(f: Frame)
  {
    forall k :: 0 <= k < |f.rows| ==> f.rows[k].Keys == ColumnSet(f.columns)
  }
}
