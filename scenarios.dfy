/** Facts about concrete tables: a well-formed file, a missing `response`
    column, an extra delimiter, a wrong delimiter, a duplicated header, an
    empty second cell and empty scored cells. */
module Scenarios {
  import opened Text
  import opened Table
  import opened Validator
  import opened Columns
  import opened Scorer
  import opened Pipeline

  /** `target;response` / `hello world;world hello`: the output gains the
      label column and the similarity of the two cells. */
  method HelloWorld(sim: (string, string) -> int) returns (output: Option<seq<seq<Cell>>>)
    ensures output == Some([
      [Text("target"), Text("response"), Text("TSR_score")],
      [Text("hello world"), Text("world hello"), Score(sim("hello world", "world hello"))]])
  {
    var data := [["target", "response"], ["hello world", "world hello"]];
    HelloWorldColumns(data);
    var outcome;
    outcome, output := AddFuzzyCalculations(data, sim);
    var out := output.value;
    assert out[1] == AsCells(data[1]) + [Score(sim(data[1][0], data[1][1]))];
    HelloWorldRows(out, sim);
  }

  /** The table of `HelloWorld` passes validation with `target` in column 0
      and `response` in column 1. */
  lemma HelloWorldColumns(data: Table)
    requires data == [["target", "response"], ["hello world", "world hello"]]
    ensures Validate(data) == Valid && Resolve(data) == Columns(0, 1)
  {
    assert Lower(data[0][0]) == TargetName;
    assert Lower(data[0][1]) == ResponseName;
  }

  /** The rows `AddFuzzyCalculations` promises for the table of `HelloWorld`,
      written out cell by cell. */
  lemma HelloWorldRows(out: seq<seq<Cell>>, sim: (string, string) -> int)
    requires |out| == 2
    requires out[0] == AsCells(["target", "response"]) + [Text(ScoreLabel)]
    requires out[1] == AsCells(["hello world", "world hello"]) + [Score(sim("hello world", "world hello"))]
    ensures out == [
      [Text("target"), Text("response"), Text("TSR_score")],
      [Text("hello world"), Text("world hello"), Score(sim("hello world", "world hello"))]]
  {
    var header, row := AsCells(["target", "response"]), AsCells(["hello world", "world hello"]);
    assert header[0] == Text("target") && header[1] == Text("response");
    assert header == [Text("target"), Text("response")];
    assert row[0] == Text("hello world") && row[1] == Text("world hello");
    assert row == [Text("hello world"), Text("world hello")];
    assert out[0] == [Text("target"), Text("response"), Text("TSR_score")];
    assert out[1] == [Text("hello world"), Text("world hello"), Score(sim("hello world", "world hello"))];
  }

  /** A header row without a `response` column fails on check 4. */
  lemma MissingResponse()
    ensures Validate([["Target", "answer"], ["a", "b"]]) == MissingColumn(ResponseName)
  {
    var data := [["Target", "answer"], ["a", "b"]];
    assert Lower(data[0][0]) == TargetName;
    forall j | 0 <= j < |data[0]| ensures Lower(data[0][j]) != ResponseName {
      assert |Lower(data[0][j])| != |ResponseName|;
    }
  }

  /** A semicolon inside the text of row 3 splits it into an extra cell, so
      row 3 is reported, even though row 4 is irregular too. */
  lemma ExtraDelimiter()
    ensures Validate([["target", "response"], ["a", "b"], ["c", "d", "e"], ["f"]])
      == RowLengthMismatch(3)
  {
  }

  /** A tab-separated file read with `;` parses as one cell per line. */
  lemma WrongDelimiter()
    ensures Validate([["target\tresponse"], ["hello\tworld"]]) == InsufficientColumns
  {
  }

  /** With `Target` and `TARGET` both in the header, the first one is scored. */
  lemma DuplicateHeader()
    ensures
      var data := [["Target", "response", "TARGET"], ["a", "b", "c"]];
      Validate(data) == Valid && Resolve(data) == Columns(0, 1)
  {
    var data := [["Target", "response", "TARGET"], ["a", "b", "c"]];
    assert Lower(data[0][0]) == TargetName;
    assert Lower(data[0][1]) == ResponseName;
    var cols := Resolve(data);
    assert Lower(data[0][2]) == TargetName;
  }

  /** Empty target and response cells are handed to the similarity function
      as they are, and its value is stored without adjustment. */
  method EmptyCells(sim: (string, string) -> int) returns (output: Option<seq<seq<Cell>>>)
    ensures output == Some([
      [Text("target"), Text("id"), Text("response"), Text("TSR_score")],
      [Text(""), Text("1"), Text(""), Score(sim("", ""))]])
  {
    var data := [["target", "id", "response"], ["", "1", ""]];
    EmptyCellsColumns(data);
    var outcome;
    outcome, output := AddFuzzyCalculations(data, sim);
    var out := output.value;
    assert out[1] == AsCells(data[1]) + [Score(sim(data[1][0], data[1][2]))];
    EmptyCellsRows(out, sim);
  }

  /** The rows `AddFuzzyCalculations` promises for the table of `EmptyCells`,
      written out cell by cell. */
  lemma EmptyCellsRows(out: seq<seq<Cell>>, sim: (string, string) -> int)
    requires |out| == 2
    requires out[0] == AsCells(["target", "id", "response"]) + [Text(ScoreLabel)]
    requires out[1] == AsCells(["", "1", ""]) + [Score(sim("", ""))]
    ensures out == [
      [Text("target"), Text("id"), Text("response"), Text("TSR_score")],
      [Text(""), Text("1"), Text(""), Score(sim("", ""))]]
  {
    var header, row := AsCells(["target", "id", "response"]), AsCells(["", "1", ""]);
    assert header[0] == Text("target") && header[1] == Text("id") && header[2] == Text("response");
    assert header == [Text("target"), Text("id"), Text("response")];
    assert row[0] == Text("") && row[1] == Text("1") && row[2] == Text("");
    assert row == [Text(""), Text("1"), Text("")];
    assert out[0] == [Text("target"), Text("id"), Text("response"), Text("TSR_score")];
    assert out[1] == [Text(""), Text("1"), Text(""), Score(sim("", ""))];
  }

  /** The table of `EmptyCells` passes validation with `target` in column 0
      and `response` in column 2. */
  lemma EmptyCellsColumns(data: Table)
    requires data == [["target", "id", "response"], ["", "1", ""]]
    ensures Validate(data) == Valid && Resolve(data) == Columns(0, 2)
  {
    assert Lower(data[0][0]) == TargetName;
    assert Lower(data[0][2]) == ResponseName;
    assert |Lower(data[0][0])| != |ResponseName|;
    assert |Lower(data[0][1])| != |ResponseName|;
  }

  /** A genuinely empty second column is rejected as if the delimiter were
      wrong: check 2 looks only at whether the second cell has content. */
  lemma EmptySecondColumn()
    ensures Validate([["target", "response"], ["hello", ""]]) == InsufficientColumns
  {
  }
}
