# Regional statistics dashboard: verified model of the lookup handler and the display helpers

The system serves a health-statistics dashboard. The backend answers
`POST /data/:option` from a JSON snapshot document. The front end asks for
either the current day or a picked date, then shows the numbers formatted in
Romanian style (`5.000`, `12,34`).

This project models the two pure pieces of that system in Dafny:

- **`Lookup`** (`lookup.dfy`) models the backend handler's decision table
  (`components/backend/src/index.js`). The mode, the optional `date` body field
  and the snapshot give exactly one response: the current-day record, the
  stored entry for the date, `Day not found`, `Missing day body param` or
  `Invalid option`. A snapshot that cannot be read ends every request with a
  server error. JavaScript truthiness is modelled as the code uses it:
  - an empty `date` counts as missing;
  - a stored entry that is `null`, `false`, `0` or `""` counts as not found.
- **`NumberFormat`** (`number_format.dfy`) models `formatNumber`
  (`components/frontend/src/pages/statistics.js`). The code replaces the first
  `.` with `,`, then inserts `.` wherever the global regex
  `/\B(?=(\d{3})+(?!\d))/` matches. The model follows that regex position by
  position: the word-boundary test, the digit-run lookahead, and the matches
  computed on the whole string before anything is inserted. It is proved equal
  to `Grouped`, a separate definition that builds the output group by group.
  Everything else is proved from that equality.
- **`FetchMode`** (`fetch_mode.dfy`) models how `fetchData` chooses the mode
  and date, and what it actually posts. "Today" is an explicit input, and dates are
  `(year, month, day)` values formatted the way `moment(...).format("YYYY-MM-DD")`
  does it.
- **`Decimal`** (`decimal.dfy`) holds base-ten numerals: `toString` of a
  non-negative integer, the value of a digit string, and zero-filling.
  **`Wrappers`** holds `Option`.

The model follows the code's own tests:
- `if (date)` treats an empty `date` (`""`) as missing, just like an absent one.
- `if (file.historicalData[date])` rejects a stored entry that is falsy, not only
  one that is absent.
- A failed read or parse at `index.js:26` throws before the switch, so Express
  answers with status 500. The model gives that status and a fixed error payload.

## Model

| member | source | states |
|---|---|---|
| `Lookup.Resolve` | components/backend/src/index.js:28-45 | The switch has exactly one outcome. `Invalid option` exactly for options other than `currentDay`/`perDay`. `Missing day body param` exactly for `perDay` with an absent or empty date. `Day not found` exactly for `perDay` with a date whose entry is absent or falsy. Otherwise the result is the current-day record or the stored, truthy entry for the date. |
| `Lookup.Handle` | components/backend/src/index.js:23-28 | The document is read before the switch, so a failed read gives `StoreUnavailable` whatever the option. A successful read gives exactly the switch's result. |
| `Lookup.Emit` | components/backend/src/index.js:30-44 | Status 200 with the record for a found slice. Status 400 with the exact messages `Day not found`, `Missing day body param` and `Invalid option` for the three client errors. Status 500 for an unreadable store. |
| `Lookup.EmitIsInjective` | components/backend/src/index.js:28-45 | Different outcomes produce different replies, so a caller can tell every error kind apart. |
| `Lookup.CurrentDayIgnoresDate` | components/backend/src/index.js:29-31 | `currentDay` returns exactly `currentDayStats`, whatever the date. |
| `Lookup.KnownDayIsReturned` | components/backend/src/index.js:32-35 | `perDay` with a non-empty date whose entry exists and is truthy returns that entry unchanged, with status 200. |
| `Lookup.UnknownDayIsNotFound` | components/backend/src/index.js:34-38 | `perDay` with a non-empty date whose entry is absent or falsy gets status 400 and `Day not found`. |
| `Lookup.MissingDateIsNotDayNotFound` | components/backend/src/index.js:33-41 | `perDay` with no date or an empty date gets `Missing day body param` with status 400, never `Day not found`. |
| `Lookup.InvalidOptionIgnoresInputs` | components/backend/src/index.js:43-44 | Any other option gets `Invalid option`, independent of the date and of the document. |
| `Lookup.ResolveReadsOnlyItsSlice` | components/backend/src/index.js:26-45 | Two documents that agree on the slice a request names give identical results. The handler reads nothing else and changes nothing, so repeating a request on the same document repeats the result. |
| `Lookup.FoundComesFromDocument` | components/backend/src/index.js:28-45 | A success body is always the current-day record or a truthy entry stored under some date. |
| `Lookup.UnreadableStoreFailsEveryRequest` | components/backend/src/index.js:26 | When the snapshot cannot be read or parsed, every request ends with status 500. |
| `Decimal.ValueOfDigits` | components/frontend/src/pages/statistics.js:30 | The numeral `toString` gives for a non-negative integer denotes that integer. |
| `NumberFormat.ReplaceFirst` | components/frontend/src/pages/statistics.js:30 | `replace('.', ',')` changes only the first occurrence. Every other character and the length stay the same. |
| `NumberFormat.GroupsAheadMeaning` | components/frontend/src/pages/statistics.js:30 | The modelled lookahead holds exactly when one or more groups of three digits follow, then a non-digit or the end. This is `(\d{3})+(?!\d)`. |
| `NumberFormat.SeparatorInRun` | components/frontend/src/pages/statistics.js:30 | In a digit run that follows a non-word character, the regex matches exactly at the inner positions where the rest of the run is a multiple of three long. |
| `NumberFormat.DigitRun` | components/frontend/src/pages/statistics.js:30 | The global replace turns every such digit run into its thousands-grouped form. |
| `NumberFormat.FormatNumeral` | components/frontend/src/pages/statistics.js:29-31 | For the text of any number (sign, integer digits, optional fraction), the output is the sign, the grouped integer digits, then `,` and the fraction digits grouped by the same rule. |
| `NumberFormat.FormatInteger` | components/frontend/src/pages/statistics.js:29-31 | An integer comes out as its sign followed by its grouped decimal digits. |
| `NumberFormat.FormatIntegerKeepsDigits` | components/frontend/src/pages/statistics.js:30 | For a non-negative integer, deleting every `.` from the output gives back its decimal digits, and those digits denote the integer. |
| `NumberFormat.FormatIntegerShape` | components/frontend/src/pages/statistics.js:28-30 | For a non-negative integer, the output splits on `.` into a first group of 1-3 digits and then groups of exactly 3 digits. |
| `NumberFormat.SmallIntegerUnchanged` | components/frontend/src/pages/statistics.js:30 | Integers with at most three digits, negative ones included, are returned unchanged. |
| `NumberFormat.NegativeIntegerKeepsSign` | components/frontend/src/pages/statistics.js:30 | A negative integer is formatted as `-` followed by the format of its magnitude. A digit, never a separator, follows the `-`. |
| `NumberFormat.FormatTwoDecimals` | components/frontend/src/pages/statistics.js:184-202 | A `toFixed(2)` text comes out as the grouped integer part, then `,`, then the same two digits with no separator among them. |
| `NumberFormat.FormatFiveThousand` | components/frontend/src/pages/statistics.js:28 | 5000 is shown as `5.000`. |
| `NumberFormat.FormatMinusTwelveThirtyFour` | components/frontend/src/pages/statistics.js:30 | -1234 is shown as `-1.234`. |
| `NumberFormat.LongFractionIsGrouped` | components/frontend/src/pages/statistics.js:30 | The regex does not stop at the comma: the text `0.1234` comes out as `0,1.234`. |
| `FetchMode.SelectRequest` | components/frontend/src/pages/statistics.js:36-41 | The request is either `('currentDay', null)` or `('perDay', key)`, where `key` is the picked day's `YYYY-MM-DD` text. |
| `FetchMode.SelectsCurrentDayExactly` | components/frontend/src/pages/statistics.js:36-41 | `('currentDay', null)` is chosen exactly when `currentDay` or today is selected. Any other day gives `('perDay', key)` for that day. |
| `FetchMode.DateKeyInjective` | components/frontend/src/pages/statistics.js:38-40 | Different days have different `YYYY-MM-DD` texts, so comparing the texts compares the days. |
| `FetchMode.DateKeyShape` | components/frontend/src/pages/statistics.js:40 | A calendar day is written as exactly ten characters: four year digits, `-`, two month digits, `-`, two day digits, each zero-padded. |
| `FetchMode.SentRequestIsRejected` | components/frontend/src/pages/statistics.js:42 | As written, every request the page sends is answered with status 400 and `Invalid option`. |
| `FetchMode.SelectedRequestResolves` | components/frontend/src/pages/statistics.js:36-42 | With the chosen mode in the path, the backend returns the data the selection names: the current-day record for `currentDay` or today, otherwise the day's entry or `Day not found`. It never answers `Missing day body param` or `Invalid option`. |

## Findings

| source | as written | input that shows it | evidently intended | confidence | as-written member | corrected member |
|---|---|---|---|---|---|---|
| components/frontend/src/pages/statistics.js:42 | The path `'/data/${apiOption}'` is in single quotes, so the route parameter is the literal text `${apiOption}`. | Any call, e.g. `fetchData('currentDay')`: the backend answers 400 `Invalid option`, and no statistics are ever shown. | A template literal, so that the chosen mode (`currentDay` or `perDay`) is the route parameter. | high; not executed | `FetchMode.SentRequestIsRejected` | `FetchMode.SelectedRequestResolves` |

## Left out

- Express setup, CORS, the JSON body parser, the port and environment configuration, the `/health` route and `app.listen` (`index.js:1-21`, `48-50`) are transport and process plumbing.
- The console logging (`index.js:25`, `27`) has no effect on results.
- The file read and `JSON.parse` (`index.js:26`) are file I/O. The document is an input, and a failed read is the abstract `StoreUnavailable` outcome. Express's default 500 error page is represented by a fixed error payload.
- Lookup.Resolve: the body `date` is modelled as an optional string. A number, boolean or object `date` would be coerced to a property key by JavaScript; that coercion is not modelled.
- Lookup.Resolve: `historicalData` lookups see only the document's own keys. Inherited object properties (`constructor`, `__proto__`) are not modelled.
- Lookup.Resolve: a document without a `currentDayStats` field is not represented, so `res.json(undefined)` is not modelled.
- Lookup.Resolve: the parsed document is assumed to be an object whose `historicalData` is an object. Documents of another shape are not represented. When `historicalData` is missing or `null`, the code throws (and Express answers 500) only in the `perDay` branch with a non-empty date, the one branch that reads it. Every other request is still answered normally. `Handle` can only fail all requests at once, so this mixed outcome is not captured. When `historicalData` is a number or a boolean, JavaScript reads the property of the boxed value without error, so the answer is `Day not found`. When it is a string, an index key such as `"0"` gives one character, so the answer is 200 with that character. Neither case is represented.
- Lookup.Resolve: a stored entry that is an array or an object of another shape than the statistics record is not represented by `Json`. Such entries are truthy, so only the returned body would differ, not the outcome.
- Numbers in the snapshot are plain integers and reals; floating-point behaviour is not modelled.
- NumberFormat.IntegerText: models `toString` of an integer as its plain decimal digits. JavaScript switches to exponent form from 1e21 upward, and that form is not modelled.
- NumberFormat.FormatNumeral: covers only texts made of a sign, digits and a fraction. `NaN`, `Infinity` and exponent forms of non-integers are not covered.
- The rounding done by `toFixed(2)` and `parseFloat` (`statistics.js:184`, `192-202`) is floating point. Only the shape of its output (two fraction digits) is used, as the input to `FormatTwoDecimals`.
- The HTTP call itself, apisauce's `ok` flag and `setStats` (`statistics.js:42-46`) are network I/O and UI state. Only the mode, date and path text of the request are modelled.
- React state, hooks, effects, the spinner, the JSX and the iframes (`statistics.js:18-27`, `57-83`, `86-239`) are UI.
- The d3 arc angles and `scaleLinear` (`statistics.js:51-54`, `61-62`, `117-159`) are floating-point geometry in a foreign library.
- The overall-incidence average, with its fixed divisor 42 (`statistics.js:63-73`), is floating-point arithmetic.
- `new Date(...)` and `moment(...)` parsing, the clock and time zones (`statistics.js:38`, `40`) are replaced by `(year, month, day)` values and an explicit "today". Negative years are not represented.
