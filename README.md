# TSR_score: checking and scoring pipeline

TSR_score is a browser tool. It reads a semicolon-separated file of
transcription pairs and appends a token-sort-ratio similarity score to every
row. This project models what happens after the CSV parser has turned the
file into a table, an array of rows with string cells:

- **Validator** (`Validator.Validate`). These are the four shape checks of
  `isInputDataValid`, in their order. Checking stops at the first that fails:
  1. every row has the header row's cell count, and a failure names the first
     deviating row, counted from 1;
  2. every row has a non-empty second cell;
  3. some header cell lower-cases to `target`;
  4. some header cell lower-cases to `response`.
- **Column resolver** (`Columns.ColumnIndex`, `Columns.Resolve`). It finds the
  first header cell that lower-cases to each name.
- **Scorer** (`Scorer.AddScores`). It goes over the array of rows in place.
  Row 0 gets the label `TSR_score` pushed onto its end. Every other row gets
  `sim(row[target], row[response])`.
- **Orchestration** (`Pipeline.AddFuzzyCalculations`). It validates, and
  returns no table when validation fails. Otherwise it resolves the two
  columns once and scores every row.

Module layout: `Text` models the JavaScript built-ins used
(`toLowerCase`, `findIndex`). `Table` holds the parsed table and the cell
type of the output. `Validator`, `Columns`, `Scorer` and `Pipeline` follow
the four steps. `Scenarios` states and proves facts about concrete tables.

Modelling decisions:

- The similarity function `fuzzball.token_sort_ratio` is a parameter
  `sim: (string, string) -> int`. Its value is stored unchanged, including
  for empty strings.
- The output row mixes types: the original string cells, then either the
  string label or a number. So output cells are `Cell = Text(string) |
  Score(int)`.
- `toLowerCase` is modelled as ASCII lower-casing: only `A`-`Z` change.
  `Text.LowerMatchesCaseVariants` proves what that means for the column
  names: a cell matches exactly when it is the name in some mixture of upper
  and lower case.
- In the source, an empty table gets past checks 1 and 2 and then throws at
  `data[0].some(...)` (js/main.js:54). The model instead requires a
  non-empty table.
- The score is pushed as a number (js/main.js:100). Turning it into text is
  left to `Papa.unparse` (js/main.js:112), and the model keeps the number.
- The code never reads the parser's error list, so the model has no
  parse-failure outcome.

## Model

| member | source | states |
|---|---|---|
| `Text.Lower` | js/main.js:54 | Lower-casing keeps the length and maps each character independently (ASCII letters to lower case, all else unchanged). |
| `Text.LowerMatchesCaseVariants` | js/main.js:54-63 | A string lower-cases to an all-lower-case word exactly when it has the word's length and each character is the word's letter or its upper-case form, so a header matches in any case mixture. |
| `Text.FindIndex` | js/main.js:30 | `findIndex` returns -1 exactly when no element satisfies the predicate; otherwise an in-bounds index whose element satisfies it, with no earlier element doing so. |
| `Validator.Validate` | js/main.js:29-73 | Row-length mismatch is reported exactly when some row's length differs from row 0's, with the 1-based number (at least 2) of the lowest such row. `InsufficientColumns` is reported exactly when lengths are uniform but some row lacks a non-empty second cell. `MissingColumn("target")` is reported exactly when the first two checks pass and no header cell lower-cases to `target`. `MissingColumn("response")` is reported exactly when the first three pass and none lower-cases to `response`. `Valid` is returned exactly when all four hold. |
| `Columns.ColumnIndex` | js/main.js:84-85 | The header lookup returns -1 exactly when no header cell lower-cases to the name; otherwise the lowest such position. |
| `Columns.Resolve` | js/main.js:83-85 | After `Valid`, the target and response indices are in bounds for every row. Each is the lowest header position matching its name, and the two differ. |
| `Scorer.AddScores` | js/main.js:89-106 | Every row of the array, in order, becomes its old cells followed by exactly one new cell. The header row's new cell is the label `TSR_score`. Each data row's new cell is `sim` of its own target and response cells. The number of rows is unchanged. |
| `Pipeline.AddFuzzyCalculations` | js/main.js:75-109 | The outcome is the validator's verdict. A scored table is returned exactly when the verdict is `Valid`. It has the input's rows in order, each with its original cells followed by the label (header row) or `sim(row[target], row[response])` at the resolved columns (data rows). |
| `Scenarios.HelloWorld` | js/main.js:75-109 | `target;response` / `hello world;world hello` yields the header plus `TSR_score`, and the data row plus `sim("hello world", "world hello")`. |
| `Scenarios.MissingResponse` | js/main.js:63-70 | A header without any `response` cell fails with `MissingColumn("response")`. |
| `Scenarios.ExtraDelimiter` | js/main.js:30-32 | With rows 3 and 4 both irregular, the mismatch names row 3, the first one. |
| `Scenarios.WrongDelimiter` | js/main.js:44-52 | Tab-separated lines read as one cell each fail with `InsufficientColumns`. |
| `Scenarios.EmptySecondColumn` | js/main.js:44 | A genuinely empty second cell is rejected with `InsufficientColumns`, even though the delimiter is right. |
| `Scenarios.DuplicateHeader` | js/main.js:84 | With `Target` and `TARGET` both in the header, the first one is the target column. |
| `Scenarios.EmptyCells` | js/main.js:96-100 | Empty target and response cells are passed to `sim` as empty strings, and its value is appended unchanged. |

## Left out

- CSV parsing and writing (`Papa.parse` with the `;` delimiter and
  `skipEmptyLines`, and `Papa.unparse`, js/main.js:16-20 and 112). These are
  a foreign library. The model starts from the parsed table, a sequence of
  string sequences, and ends with the scored table.
- The similarity function (js/main.js:98) is a foreign library. It is the
  parameter `sim`, and the 0-100 range of its results is not modelled.
- The error messages shown with `alert` and `console.error`
  (js/main.js:23-27 and 33-69). They are UI output. The model returns the
  classified `Outcome` instead, and the row number it carries is the one
  the message shows.
- DOM, file and UI plumbing: the file input, `FileReader`, the `confirm`
  consent gate, `Blob`, `saveAs`, and clearing the input value
  (js/main.js:9 and 111-149).
- The asynchronous reader/parser callbacks. In effect they run one after
  another.
- `Text.Lower`: does not model Unicode case mapping. JavaScript's
  `toLowerCase` also lower-cases non-ASCII letters (`Ä` becomes `ä`, and
  `İ` becomes two characters), which `Lower` leaves unchanged. For the two
  column names, `target` and `response`, the header tests give the same
  answer either way.
- `Scorer.AddScores`: each row is a sequence stored in an array slot, and
  `push` is modelled by replacing that slot with a longer sequence. The
  source's aliasing goes unmodelled: `map` returns the very same row arrays
  it mutated.
- `Validator.Validate`: does not model the empty table. The source throws
  a `TypeError` at js/main.js:54 for it, and the model requires at least
  one row.
