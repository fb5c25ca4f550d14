/** The table the CSV parser hands to the pipeline, and the cells of the
    table the pipeline hands back. */
module Table {

  /** One parsed record: every cell is a string. */
  type Row = seq<string>

  /** The parsed file: row 0 is the header row. */
  type Table = seq<Row>

  /** After scoring, a row holds the original strings followed by either the
      score-column label (a string) or the numeric score. */
  datatype Cell = Text(text: string) | Score(value: int)

  datatype Option<T> = None | Some(value: T)

  /** A parsed row seen as output cells: the same strings, in the same order. */
  function AsCells(row: Row): (r: seq<Cell>)
    ensures |r| == |row|
    ensures forall j :: 0 <= j < |row| ==> r[j] == Text(row[j])
  {
    seq(|row|, j requires 0 <= j < |row| => Text(row[j]))
  }
}
