/** `addFuzzyCalculations`: validate, resolve the two columns, score every
    row; nothing is produced when validation fails. */
module Pipeline {
  import opened Text
  import opened Table
  import opened Validator
  import opened Columns
  import opened Scorer

  /** Runs the pipeline on a parsed, non-empty table. The outcome is the
      validator's verdict; a scored table exists exactly when it is `Valid`.
      That table has the input's rows in the input's order, each with its
      original cells followed by exactly one new cell: the label on the
      header row, and on each data row the similarity of its target and
      response cells, as resolved from the header. */
  method AddFuzzyCalculations(data: Table, sim: (string, string) -> int)
    returns (outcome: Outcome, output: Option<seq<seq<Cell>>>)
    requires |data| > 0
    ensures outcome == Validate(data)
    ensures output.None? <==> outcome != Valid
    ensures output.Some? ==>
      var out := output.value;
      var cols := Resolve(data);
      && |out| == |data|
      && out[0] == AsCells(data[0]) + [Text(ScoreLabel)]
      && (forall k :: 1 <= k < |data| ==>
            out[k] == AsCells(data[k]) + [Score(sim(data[k][cols.target], data[k][cols.response]))])
  {
    outcome := Validate(data);
    if outcome != Valid {
      output := None;
      return;
    }
    var cols := Resolve(data);
    var rows := new seq<Cell>[|data|](k requires 0 <= k < |data| => AsCells(data[k]));
    assert forall k :: 0 <= k < |data| ==> rows[k] == AsCells(data[k]);
    AddScores(rows, cols, sim);
    forall k | 1 <= k < |data|
      ensures rows[k] == AsCells(data[k]) + [Score(sim(data[k][cols.target], data[k][cols.response]))]
    {
      assert AsCells(data[k])[cols.target] == Text(data[k][cols.target]);
      assert AsCells(data[k])[cols.response] == Text(data[k][cols.response]);
    }
    output := Some(rows[..]);
  }
}
