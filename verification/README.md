# print-find in Dafny

print-find is a small Node.js server. Its one endpoint, `GET /api/discover`, does two things:

- It lists the printers the operating system knows. On POSIX systems it runs `lpstat -p -d`. On Windows it runs a PowerShell `Get-Printer` query, with `wmic` as the fallback.
- It browses the local network for advertised printers during a time window.

This project models the logic in `server.js` that turns command output and service advertisements into printer records:

- **Lpstat** models `parseLpstat`. The input is split into lines with `/\r?\n/` and each line is trimmed. A `printer ...` line is matched against `^printer\s+([^\s]+)\s+(.*)$`. A `system default destination:` line is read with `split(':', 2)[1].trim()`. The printers named like the last default destination are then marked.
- **Windows** models two things. The first is the normalisation of the PowerShell JSON: an array, a single object, or anything else. The second is the `wmic` CSV row loop.
- **LocalPrinters** models `getLocalPrinters`. It picks the reader by platform. A failed or silent `lpstat` gives an empty list. On Windows, a failed or silent PowerShell run falls back to `wmic`, and the list is empty only when `wmic` also fails or prints nothing, or when the PowerShell output is not JSON or is an array holding null.
- **Network** models `addServiceCallback` together with `Object.values(found)`. Records are de-duplicated by first arrival under the key `${name}@${host}:${port}`, and the list comes back in insertion order.
- **Timeout** models the discovery window requested through the query string: `Math.max(2000, parseInt(timeout || '5000', 10))`.
- **Text**, **Numbers**, **Json** and **Seqs** model the JavaScript built-ins these steps rely on, with their JavaScript semantics:
  - `trim` and the regex class `\s` use the same set of white-space code points.
  - `.` does not match a line terminator.
  - `split` keeps empty pieces.
  - `parseInt` reads a leading decimal number after white space and returns NaN when there are no digits.
  - `||` goes by truthiness.

Command execution, the JSON parser and the service-discovery library are all outside the model. A command run is given as a `CommandResult`, which is either failure or its standard output. `JSON.parse` is passed in as a function parameter. The advertisements that arrive during the window are passed in as a sequence, in arrival order.

Behaviour of the code worth knowing, all of it modelled:

- The PowerShell reader falls back to `wmic` only when the command fails or prints nothing. If its output is not valid JSON, the result is empty and `wmic` is not tried.
- A JSON array that contains `null` makes `d.Name` throw. The `catch` then turns this into an empty list.
- Every `wmic` row whose second column is `Name` is skipped. Lines are not trimmed, so a header that still ends in a carriage return is kept as the printer `"Name\r"` (see Findings).
- `default` is set on every printer named like the default destination. If the destination is empty, no printer is marked.
- The default destination is the text between the first and the second colon of its line. A printer whose name holds a colon is therefore never marked (see Findings).

## Model

| member | source | states |
|---|---|---|
| Text.Trim | server.js:16 | the trimmed line begins and ends with a non-space character and is no longer than the line |
| Text.TrimOfPadded | server.js:16 | a tight text between two runs of white space is exactly what `trim` returns |
| Text.Split | server.js:47 | `split(',')` returns at least one piece, no piece holds the separator, and there are two or more pieces exactly when the separator occurs |
| Text.JoinSplit | server.js:47 | joining the pieces of a split with the separator gives back the input |
| Text.SplitJoin | server.js:47 | splitting a join of separator-free pieces gives back the pieces |
| Text.SplitLines | server.js:15 | `split(/\r?\n/)` returns at least one line and no line holds a line feed |
| Text.SplitLinesJoin | server.js:15 | lines free of line feeds joined with "\r\n" split back into the same lines, even lines that end in a carriage return; joined with "\n" they do so when no line but the last ends in a carriage return |
| Text.SplitLinesPieces | server.js:15 | for every text, the lines are the pieces between line feeds, each but the last with one trailing carriage return removed |
| Text.SplitLinesWithoutCr | server.js:44 | without carriage returns, splitting into lines is splitting at "\n", and joining with "\n" gives back the text |
| Numbers.NatToString | server.js:91 | the decimal rendering of a port is all digits, has no leading zero unless the port is 0, and denotes the port |
| Numbers.ParseIntOfDecimal | server.js:130 | `parseInt` of optional white space, an optional sign, a decimal number and a non-digit tail is that signed number |
| Numbers.ParseIntNoDigits | server.js:130 | `parseInt` of text with no digits is NaN |
| Numbers.ParseIntOfSigned | server.js:130 | `parseInt` reads back any signed decimal rendering of an integer |
| Timeout.RequestTimeout | server.js:130 | the window is never below 2000 ms unless it is NaN, and it is 5000 ms when the parameter is absent or empty |
| Timeout.RequestTimeoutOfInteger | server.js:130 | for any decimal integer t, the window is max(2000, t) |
| Timeout.RequestTimeoutNaN | server.js:130 | a non-empty parameter without digits gives NaN, not a window; the empty parameter falls back to 5000 instead |
| Lpstat.MatchPrinter | server.js:19 | a match's name is a non-empty run of non-space characters, and its description starts with a non-space character and holds no line terminator |
| Lpstat.MatchPrinterLanguage | server.js:18-22 | a line made of "printer", white space, a name, white space and a description matches exactly when the description has no line terminator, with groups name and description |
| Lpstat.MatchPrinterOnlyLanguage | server.js:19 | only such lines match: a matched line is "printer", a white-space run, the name group, a white-space run and the description group |
| Lpstat.MatchPrinterNeedsDescription | server.js:19-20 | a `printer` line with a name but no description yields no record |
| Lpstat.DestinationOfLine | server.js:23-24 | the default destination is the trimmed text between the prefix's colon and the next colon |
| Lpstat.MarkDefault | server.js:27-29 | marking keeps the number and order of records and changes nothing but `default` |
| Lpstat.ParseLpstatRecords | server.js:12-26 | one record per matching `printer` line, in line order; each record's raw text is the trimmed line and its name and description are the regex groups; no other line yields a record |
| Lpstat.LastDestinationIsLast | server.js:14-25 | the recorded default is absent exactly when no default line exists; otherwise it comes from a default line that no later default line follows |
| Lpstat.ParseLpstatDefault | server.js:27-30 | a record is marked default exactly when the last destination is non-empty and equals its name; nothing else about a record changes |
| Lpstat.DestinationCutAtColon | server.js:24 | as written, the default line for a name "a:b" names only "a" |
| Lpstat.DestinationAfterColonOfLine | server.js:24 | the intended reading of a default line gives the whole trimmed text after the prefix, colons included, and agrees with `split(':', 2)[1].trim()` whenever that text has no colon |
| LpstatExamples.ParseLpstatTwoLines | server.js:12-31 | for any listed name, colons allowed, and any status text, a `printer` line followed by the default line for that name parses to one record with that name, the line as raw text and the status text as description; it is marked default exactly when the default line's destination is the name |
| LpstatExamples.ParseLpstatSingleDefault | server.js:12-31 | for any colon-free name and any status text, a `printer` line followed by the default line naming that printer parses to exactly one record: that name, the line as raw text, the status text as description, marked default |
| LpstatExamples.ParseLpstatColonName | server.js:23-29 | as written, the same two lines for the printer "a:b" give its record unmarked |
| LpstatExamples.DefaultLineIntended | server.js:24 | read after the first colon, the default line names the whole printer name, colons included |
| Json.Or | server.js:57 | the result is truthy exactly when either operand is, and it is the left operand when that is truthy and the right one otherwise |
| Windows.FromJson | server.js:54-65 | an array gives one record per element, or an error when an element is null; an object gives one record; any other value gives none |
| Windows.FromJsonArray | server.js:56-57 | each array element's record takes `Name` when truthy, else `name`; it copies `ShareName` and `PortName`; its status is `PrinterStatus` when truthy, else null |
| Windows.FromJsonObjectLikeSingleton | server.js:58-59 | a single object is normalised as a one-element array holding it would be, but without a `status` key |
| Windows.WmicNamesRows | server.js:44-49 | one name per line with two or more columns whose second column is not `Name`, in line order; the name is that second column; dropping empty lines first changes nothing |
| Windows.WmicRowOfColumns | server.js:47-48 | a row built from comma-free columns yields its second column, unless that column is `Name` |
| Windows.WmicHeaderWithCarriageReturn | server.js:44-48 | the header "Node,Name\r" is not recognised and yields the name "Name\r" |
| Windows.WmicKeepsCarriageReturns | server.js:44-48 | on output whose lines end in "\r\r\n" (a blank line, the header, a row) the names are "Name\r" and the row's name with a carriage return appended |
| Windows.WmicRowCleanIgnoresCr | server.js:47-48 | the intended row reading ignores a trailing carriage return |
| Windows.WmicCleanNames | server.js:44-48 | on the same output the intended reading skips the header and yields only the row's name, as written |
| LocalPrinters.PosixPrinters | server.js:69-77 | a failed or silent `lpstat` gives no printers; otherwise the records are those `parseLpstat` returns, in order |
| LocalPrinters.WindowsPrinters | server.js:39-66 | when PowerShell failed or printed nothing the records are the `wmic` names, or none when `wmic` also failed; otherwise they are the normalised JSON entries in order, and none when the output is not JSON or an array element is null |
| LocalPrinters.GetLocalPrinters | server.js:33-81 | "win32" uses only the Windows readers; every other platform uses only `lpstat` |
| Network.Normalize | server.js:93-105 | the stored record copies name, type, host and port; missing addresses become an empty list and missing TXT data an empty map |
| Network.FirstArrivalsOnePerKey | server.js:89-107 | the first arrivals hold pairwise different keys, and every event's key is held by a first arrival at or before it |
| Network.Collect | server.js:89-107 | the callback loop and `Object.values` give, in arrival order, one record per first arrival, built from that first advertisement; later duplicates are dropped |
| Network.DiscoverNetworkPrinters | server.js:89-124 | the discovered list is the first arrival of each text key `${name}@${host}:${port}`, normalised, in arrival order |
| Network.DiscoverByIdentity | server.js:89-123 | no two records share a (name, host, port); every event's triple is listed; the records are the normalised advertisements of the first event of each triple, in order of first arrival |
| Network.TextKeyAgreesWithoutCollision | server.js:91-92 | when equal text keys imply equal triples, the text key selects the same first arrivals as the triple |
| Network.TextKeyCollision | server.js:91 | "x@y" on host "z" and "x" on host "y@z", same port: different triples, one text key, so one record instead of two |

## Left out

- Running `lpstat`, PowerShell and `wmic`, and their 4000, 5000 and 3000 ms timeouts: each run is given as a `CommandResult`, meaning failure or its output.
- The `try`/`catch` around `parseLpstat`: on a string it cannot throw, so the catch never applies.
- `JSON.parse`: it is the `parseJson` parameter. JSON numbers are reals, which are enough for the truthiness test.
- The service-discovery library: the two browsers (`ipp` and `printer`), the `setTimeout` window and stopping the browsers are not modelled. The advertisements that arrive in the window are passed in as a sequence in arrival order.
- `Numbers.NatToString`: models ports as non-negative integers. It does not model `String(n)` for non-integers or for values of 1e21 and above, which use exponent notation.
- `Numbers.ParseIntOfDecimal`: integers are unbounded, so the rounding of `parseInt` above 2^53 is not modelled.
- `Timeout.RequestTimeout`: the query parameter is a string or absent. Repeated parameters, which Express turns into an array, are not modelled.
- The Express application is not modelled: static files, CORS, the JSON response body, `Promise.all` joining the two lookups, and the 500 `internal_error` response. `app.js` is the browser client and is not part of this model.

## Findings

| source | as written | input that shows it | evidently intended | confidence | as-written member | corrected member |
|---|---|---|---|---|---|---|
| server.js:91-92 | printers are de-duplicated by the string `${name}@${host}:${port}`, which cannot tell where the name ends and the host begins | two advertisements on the same port: name "x@y" on host "z", and name "x" on host "y@z" | one record per (name, host, port), as the comment on line 90 says | not executed | Network.TextKeyCollision | Network.DiscoverByIdentity |
| server.js:44 | `wmic` output is split with `/\r?\n/` and the lines are not trimmed, but `wmic` ends its lines with "\r\r\n", so one carriage return stays on every line | `wmic printer get Name /format:csv` output "\r\r\nNode,Name\r\r\nPC,HP\r\r\n" | the header is skipped and the printer is named "HP" | not executed | Windows.WmicKeepsCarriageReturns | Windows.WmicCleanNames |
| server.js:24 | the default destination is `split(':', 2)[1].trim()`, the text up to the line's second colon | "printer a:b idle\nsystem default destination: a:b\n", a printer whose name holds a colon | the printer "a:b" is marked default | not executed | LpstatExamples.ParseLpstatColonName | LpstatExamples.DefaultLineIntended |
