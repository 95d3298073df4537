/** The data frame `clean` works on: column labels and rows of cells, the
    cell at position j of a row lying under label j. */
module Frames {
  import opened Wrappers
  import opened Scalars
  import opened Sequences

  type Row = seq<Cell>

  datatype Frame = Frame(columns: seq<string>, rows: seq<Row>)

  /** Every row has one cell per label, as in any DataFrame. */
  predicate WellFormed(f: Frame) {
    forall r :: r in f.rows ==> |r| == |f.columns|
  }

  /** No cell of the row is missing. */
  predicate Complete(r: Row) {
    forall j :: 0 <= j < |r| ==> r[j].Some?
  }

  /** The cell of row i under the label `name` (the first column so labelled). */
  function CellAt(f: Frame, i: nat, name: string): Cell
    requires WellFormed(f) && i < |f.rows| && name in f.columns
  {
    assert f.rows[i] in f.rows;
    f.rows[i][IndexOf(f.columns, name)]
  }
}
