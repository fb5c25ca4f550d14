/** The shape check `isInputDataValid` runs on the parsed table before any
    column is looked up. */
module Validator {
  import opened Text
  import opened Table

  const TargetName := "target"
  const ResponseName := "response"

  /** The result of validation: either the table passed all four checks, or
      the first check that failed. */
  datatype Outcome =
    | Valid
    | RowLengthMismatch(rowNr: nat)   // 1-based number of the first deviating row
    | InsufficientColumns
    | MissingColumn(name: string)

  /** Check 1: every row has as many cells as the header row. */
  predicate UniformLength(data: Table)
    requires |data| > 0
  {
    forall k :: 0 <= k < |data| ==> |data[k]| == |data[0]|
  }

  /** Check 2: every row has a second cell, and it is not empty. */
  predicate HasSecondColumn(data: Table) {
    forall k :: 0 <= k < |data| ==> |data[k]| > 1 && data[k][1] != ""
  }

  /** Checks 3 and 4: some header cell lower-cases to `name`. */
  predicate HasHeader(header: Row, name: string) {
    exists j :: 0 <= j < |header| && Lower(header[j]) == name
  }

  /** `isInputDataValid`: the four checks in order, stopping at the first one
      that fails. The row-length failure names the lowest deviating row,
      counted from 1; since row 0 never deviates, that number is at least 2. */
  function Validate(data: Table): (r: Outcome)
    requires |data| > 0
    ensures r.RowLengthMismatch? <==> !UniformLength(data)
    ensures r.RowLengthMismatch? ==>
      2 <= r.rowNr <= |data| &&
      |data[r.rowNr - 1]| != |data[0]| &&
      forall k :: 0 <= k < r.rowNr - 1 ==> |data[k]| == |data[0]|
    ensures r == InsufficientColumns <==> UniformLength(data) && !HasSecondColumn(data)
    ensures r == MissingColumn(TargetName) <==>
      UniformLength(data) && HasSecondColumn(data) && !HasHeader(data[0], TargetName)
    ensures r == MissingColumn(ResponseName) <==>
      UniformLength(data) && HasSecondColumn(data) && HasHeader(data[0], TargetName) &&
      !HasHeader(data[0], ResponseName)
    ensures r == Valid <==>
      UniformLength(data) && HasSecondColumn(data) &&
      HasHeader(data[0], TargetName) && HasHeader(data[0], ResponseName)
    ensures r.MissingColumn? ==> r.name == TargetName || r.name == ResponseName
  {
    var width := |data[0]|;
    var deviating := FindIndex(data, (row: Row) => |row| != width);
    if deviating != -1 then
      RowLengthMismatch(deviating + 1)
    else if !HasSecondColumn(data) then
      InsufficientColumns
    else if !HasHeader(data[0], TargetName) then
      MissingColumn(TargetName)
    else if !HasHeader(data[0], ResponseName) then
      MissingColumn(ResponseName)
    else
      Valid
  }
}
