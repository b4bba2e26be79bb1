# Sheets read function of the cantina app, in Dafny

The cantina app keeps its sales and inventory data in a cloud spreadsheet.
Its `sheets` serverless function answers any request carrying
`?sheet=<tab>` (it never looks at the HTTP method, so the model takes none): it reads the
whole tab, takes the first row as the column headers, and turns every later
row into a JSON object keyed by those headers. This project models that
function as pure Dafny functions and proves what the conversion guarantees.

- `wrappers.dfy` (`Wrappers`): `Option` (with `None` standing for
  JavaScript's `undefined`) and `Result` (a value, or the message of the
  error thrown instead).
- `table.dfy` (`Table`): the header-row/data-row conversion. A row is a
  `seq<string>`. A record is a `map<string, Option<string>>`. `RowToRecord`
  follows the `headers.forEach` loop column by column, so a later
  assignment under a repeated name overrides an earlier one. `LastIndex` is
  the independent reference for "the last column with this name". Every
  property of a record is stated against it.
- `handler.dfy` (`SheetsHandler`): the `sheet` parameter guard, the
  conversion, and the response shaping, including the catch-all 500. The
  spreadsheet read is the parameter `fetch`. Its outcome is either the
  reply's optional `values` field or the message of the error it threw.

Two JavaScript details are modelled as the code behaves:

- `obj[header] = row[i]` with `row[i]` past the end of a short row stores
  `undefined` under the key. The key is present and its value is `None`,
  which is different from an empty cell `Some("")`.
- A header cell reading `__proto__` never becomes a key. On a plain object,
  that assignment runs the inherited prototype setter. The setter ignores
  string and `undefined` values. So the key set of a record is the set of
  header names that are neither empty nor `__proto__` (`StoredKeys`).

## Model

| member | source | states |
|---|---|---|
| `Table.RowToRecord` | netlify/functions/sheets.js:49-55 | the object's key set is exactly the header names that are non-empty (and not `__proto__`); each key holds the data row's cell at the LAST column carrying that name, and it holds `undefined` exactly when the row is too short to reach that column |
| `Table.LastIndex` | netlify/functions/sheets.js:50-54 | the column whose assignment survives for a name is the one that holds the name and has no later column with it; it is -1 exactly when no column has the name |
| `Table.MapRows` | netlify/functions/sheets.js:48-56 | one record per data row, same count, same order, each built against the same header |
| `Table.ToRecords` | netlify/functions/sheets.js:38-56 | an absent or empty `values` gives no records; otherwise there are exactly `rows - 1` records, record i comes from row i+1 and the header row is never emitted; a header-only tab gives none; every record has the header's key set |
| `Table.LastOccurrenceReadByPosition` | netlify/functions/sheets.js:50-53 | when no later column repeats a stored column's name (blank or repeated names elsewhere are allowed), the value under that name is the data row's cell at that column's position |
| `Table.ShadowedColumnIsInvisible` | netlify/functions/sheets.js:49-54 | when a later column repeats an earlier column's name, changing the earlier column's cell leaves the record unchanged (last one wins) |
| `Table.ExtraCellsIgnored` | netlify/functions/sheets.js:50-53 | cells to the right of the last header column never reach the record: truncating the row to the header's width changes nothing |
| `Table.SkippedColumnIsDropped` | netlify/functions/sheets.js:50-52 | a column whose header cell is empty (or `__proto__`) can be removed from the header and the row together without changing the record |
| `Table.StoredKeysAfterRemove` | netlify/functions/sheets.js:50-52 | removing a column whose header is skipped leaves the key set unchanged |
| `Table.ValueAfterRemove` | netlify/functions/sheets.js:50-53 | removing a column (header cell and data cell together) whose header is a different name leaves that name reading the same cell as before |
| `Table.AppendedRowAddsOneRecord` | netlify/functions/sheets.js:47-48 | a tab with one more data row converts to the same records followed by exactly one record for the new row |
| `SheetsHandler.SheetName` | netlify/functions/sheets.js:27-30 | the `sheet` parameter is accepted exactly when it is present and non-empty, and then names the tab; otherwise the error message is the fixed "sheet is required" text |
| `SheetsHandler.Handle` | netlify/functions/sheets.js:27-72 | status is 200 exactly when the parameter is usable and the read succeeds, otherwise 500 with the fixed `error` text and the thrown message; a 200 carries the converted records; `Content-Type` is set exactly when the read returned at least one row |
| `SheetsHandler.MissingSheetNeverReads` | netlify/functions/sheets.js:27-30 | without a usable `sheet` parameter the response is a 500 carrying the parameter message, and it is the same whatever the spreadsheet would have returned |
| `SheetsHandler.HeaderOnlySheetGivesNoRecords` | netlify/functions/sheets.js:38-65 | a tab holding only its header row is answered 200 with an empty list and the JSON content type |
| `SheetsHandler.ProductsTabExample` | netlify/functions/sheets.js:47-64 | the products tab with header `Produto_ID, Nome, Status` and row `p1, Widget, Ativo` is answered with that single record |
| `SheetsHandler.ProductsRowExample` | netlify/functions/sheets.js:49-55 | that example row converts to the three-key record |

## Left out

- Google authentication, the service-account credentials read from the environment and the private-key newline fix (netlify/functions/sheets.js:10-13, 19-24): library and configuration concerns with no logic of their own.
- The `sheets.spreadsheets.values.get` call (netlify/functions/sheets.js:33-36): a foreign API call, modelled as the `fetch` parameter of `Handle`.
- `JSON.stringify` and the wire format: the model stops at the value that is serialised. Serialisation drops keys whose value is `undefined`, so a `None` entry is absent from the JSON text. The model keeps it, because the object built by the code has it.
- Property order of the built object: a `Record` is a map and has no order. In JavaScript, integer-like keys come first in ascending order, then the other keys in order of first assignment. So a repeated name keeps its first column's position but takes its last column's value. `JSON.stringify` emits keys in that order.
- `queryStringParameters` being `null`: the model takes the parameters as a map. In the code, a `null` there throws a `TypeError`, which the same catch block turns into a 500.
- The `console.error` logging in the catch block: output only.
- netlify/functions/googleScriptProxy.js: an HTTPS forwarding proxy (CORS preflight reply, request streaming, query-string building). It is I/O plumbing over Node libraries.
- Appending, updating, soft-deleting and cascade-deleting rows: no such code exists in the modelled file, so none of it is modelled.
