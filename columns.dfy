/** Locating the `target` and `response` columns in the header row. */
module Columns {
  import opened Text
  import opened Table
  import opened Validator

  /** The zero-based positions of the two scored columns. */
  datatype Columns = Columns(target: nat, response: nat)

  /** `header.findIndex(cell => cell.toLowerCase() === name)`: the first
      header position whose cell lower-cases to `name`, or -1. */
  function ColumnIndex(header: Row, name: string): (r: int)
    ensures -1 <= r < |header|
    ensures r == -1 <==> !HasHeader(header, name)
    ensures 0 <= r ==>
      Lower(header[r]) == name &&
      forall j :: 0 <= j < r ==> Lower(header[j]) != name
  {
    FindIndex(header, (cell: string) => Lower(cell) == name)
  }

  /** Both lookups, done once after validation succeeded. Each index is the
      first header match (a duplicate header loses to the earlier one), the
      two indices differ, and both are in bounds for every row because every
      row has the header row's length. */
  function Resolve(data: Table): (c: Columns)
    requires |data| > 0 && Validate(data) == Valid
    ensures forall k :: 0 <= k < |data| ==> c.target < |data[k]| && c.response < |data[k]|
    ensures Lower(data[0][c.target]) == TargetName
    ensures Lower(data[0][c.response]) == ResponseName
    ensures forall j :: 0 <= j < c.target ==> Lower(data[0][j]) != TargetName
    ensures forall j :: 0 <= j < c.response ==> Lower(data[0][j]) != ResponseName
    ensures c.target != c.response
  {
    Columns(ColumnIndex(data[0], TargetName), ColumnIndex(data[0], ResponseName))
  }
}
