/** The row-scoring pass of `addFuzzyCalculations`: each row gets one cell
    pushed onto its end. */
module Scorer {
  import opened Table
  import opened Columns

  /** The label pushed onto the header row. */
  const ScoreLabel := "TSR_score"

  /** A data row from which both scored cells can be read as strings. */
  predicate ScorableRow(row: seq<Cell>, cols: Columns) {
    cols.target < |row| && cols.response < |row| &&
    row[cols.target].Text? && row[cols.response].Text?
  }

  /** The cell pushed onto row `i`: the label for the header row; for every
      other row the similarity of its target and response cells, passed on
      unchanged whatever the cells hold (empty strings included). */
  function NewCell(row: seq<Cell>, i: nat, cols: Columns, sim: (string, string) -> int): Cell
    requires i == 0 || ScorableRow(row, cols)
  {
    if i == 0 then Text(ScoreLabel)
    else Score(sim(row[cols.target].text, row[cols.response].text))
  }

  /** The `map` over the rows with `row.push(...)`: every row, in order, gets
      exactly one cell appended, and its existing cells stay as they were.
      The number of rows does not change (the array is the same). */
  method AddScores(rows: array<seq<Cell>>, cols: Columns, sim: (string, string) -> int)
    requires forall k :: 1 <= k < rows.Length ==> ScorableRow(rows[k], cols)
    modifies rows
    ensures forall k :: 0 <= k < rows.Length ==>
      rows[k] == old(rows[k]) + [NewCell(old(rows[k]), k, cols, sim)]
  {
    var i := 0;
    while i < rows.Length
      invariant 0 <= i <= rows.Length
      invariant forall k :: 0 <= k < i ==>
        rows[k] == old(rows[k]) + [NewCell(old(rows[k]), k, cols, sim)]
      invariant forall k :: i <= k < rows.Length ==> rows[k] == old(rows[k])
    {
      var row := rows[i];
      if i == 0 {
        row := row + [Text(ScoreLabel)];
      } else {
        var target := row[cols.target].text;
        var response := row[cols.response].text;
        row := row + [Score(sim(target, response))];
      }
      rows[i] := row;
      i := i + 1;
    }
  }
}
