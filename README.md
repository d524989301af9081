# Nearest sport-studies institutions: a Dafny model

The application is a small web page and a static file server.

- **The page (`app.js`)** asks for a French address. It suggests addresses as the user types and geocodes the chosen one. It pages through the whole dataset of institutions offering sport-studies sections and lists the ten nearest.
- **The server (`server.js`)** serves the page from its own directory and reads settings from a `.env` file at start-up.

This project models the logic of both scripts and proves what it promises:

- `Common`: `Option`, `Result` and the three errors the page reports.
- `JsString`: the JavaScript string built-ins the scripts call (`trim`, `indexOf`, `split("?")[0]`, `replaceAll` of one character, `toLowerCase` on ASCII).
- `AddressSearch`: the address search as an oracle `(query, limit) -> places or failure`, and `geocodeAddress`.
- `Institutions`: `fetchInstitutions`. A method keeps the loop's own variables (`offset`, `totalCount`, `allResults`). It is proved equal to a recursive specification of the requests made and the records gathered. The page endpoint is a function from offset to page.
- `Ranking`: the map / sort / slice chain of the submit handler. The distance is an abstract function into the reals. The sort is a stable insertion sort, since `Array.prototype.sort` is stable.
- `Escaping`: `escapeHtml` and the fallback of `cssEscape`. It also models how a CSS string token is read back, with its escapes (CSS Syntax Level 3, sections 4.3.5 and 4.3.7), which the selector `option[value="…"]` relies on.
- `SearchForm`: the class `AddressController`, holding the page's module-level state:
  - `selectedPlace` and `latestSuggestionRequest`;
  - the pending debounce timer;
  - the suggestion list.

  Its methods are the `input`, `change` and `submit` listeners, the firing of the timer, and the settling of a suggestion lookup. Three scenario methods replay event orders.
- `EnvFile`: `loadEnvFile` and `stripWrappingQuotes`. The class `ProcessEnv` holds the environment map, which the loading loop updates in place. The loop is proved equal to a left fold of the line parser over the lines.
- `StaticServer`: the request handler. It covers the root rewrite, `safeResolvePath` and the MIME lookup. `decodeURIComponent`, `path.normalize`, `path.join`, `path.extname` and the file system are parameters.

Two behaviours of the page follow from the code and are stated as scenarios rather than findings:

- A suggestion lookup that fails empties the list even when a later lookup has already filled it, because the `.catch` of the timer callback does not look at the request number.
- Shortening the input below three characters clears the list but does not withdraw a lookup already sent. If that lookup is still the latest, its answer fills the list again.

## Model

| member | source | states |
|---|---|---|
| JsString.Trim | app.js:70 | the result is the slice of the input left after cutting JavaScript whitespace at both ends; its first and last characters are not whitespace, and everything cut is whitespace |
| JsString.TrimOfTrimmed | server.js:59 | a string with no whitespace at either end is its own trim |
| JsString.IndexOf | server.js:64 | None exactly when the character is absent; otherwise the position of its first occurrence |
| JsString.BeforeFirst | server.js:92 | the text before the first `?` holds no `?`, is a prefix of the input, and is followed by `?` when shorter than it |
| JsString.BeforeFirstIgnoresTail | server.js:92 | whatever follows the first `?` never changes the part before it |
| JsString.ReplaceAll | app.js:288-292 | every character of the result is a character of the input other than the pattern, or comes from a replacement substituted for an occurrence of the pattern |
| JsString.ReplaceAllAppend | app.js:288-292 | replacing in a concatenation is replacing in each part |
| JsString.AsciiLower | server.js:39 | same length, and each character is lower-cased on its own |
| AddressSearch.SearchNominatim | app.js:137-161 | fails (address search failed) exactly when the response is not ok, otherwise yields the places of the answer |
| AddressSearch.GeocodeAddress | app.js:126-135 | "address not found" exactly when the one-place search answers an empty list, "search failed" exactly when it fails, and otherwise the first place |
| Institutions.PagesFrom | app.js:180-202 | the specification of the loop: the requests always start at the given offset |
| Institutions.PagesFromShape | app.js:185-201 | request i is at offset + 100·i; a single request is made exactly when the page is not ok, empty, or reports a total (missing counts as 0) no larger than offset + 100; the run fails exactly when its last page was not ok, with the institutions-load error, and every earlier page was ok |
| Institutions.Truthy | app.js:204 | a value is truthy exactly when it is none of `undefined`, `null`, `NaN`, `false`, `0`, `""` |
| Institutions.HasCoordinates | app.js:204 | a record passes the filter exactly when it has a position whose latitude and longitude are both outside the falsy values |
| Institutions.ReportedTotal | app.js:193 | a page's reported total when it has one; a non-zero result is always the total the page reported, so a missing total counts as 0 |
| Institutions.PageItems | app.js:194 | a page's results when it has them; a non-empty result is always the page's own results, so missing results count as an empty page |
| Institutions.KeepPositioned | app.js:204 | each record whose latitude and longitude are both truthy keeps its multiplicity; every other record is gone |
| Institutions.KeepPositionedAppend | app.js:204 | the filter distributes over concatenation, so it keeps the original order |
| Institutions.ZeroLatitudeDropped | app.js:204 | a record whose latitude is exactly 0 is dropped |
| Institutions.FetchedInstitutions | app.js:180-205 | fails exactly when some page was not ok, and then returns no partial list; otherwise returns the records of every page requested, concatenated in request order, with the records lacking coordinates removed, so every record returned has coordinates |
| Institutions.RecordsArePagesInRequestOrder | app.js:194-197 | the records gathered are the pages concatenated in request order |
| Institutions.SteadyCatalogueRequestCount | app.js:185-197 | with a steady total and non-empty pages, reading from an offset below the total takes ceil((total − offset)/100) requests and succeeds |
| Institutions.FetchRequestCount | app.js:181-202 | with a steady total T > 0, exactly ceil(T/100) requests are made, at offsets 0, 100, 200, … |
| Institutions.TotalOf120TakesTwoRequests | app.js:181-202 | a total of 120 gives requests at offsets 0 and 100 |
| Institutions.FetchInstitutions | app.js:180-205 | the loop makes exactly the requests of the specification and returns what `FetchedInstitutions` states |
| Ranking.WithDistances | app.js:44-53 | one entry per record, in order, each the record with its own distance from the user |
| Ranking.Insert | app.js:54 | inserting into a list sorted by distance keeps it sorted and adds exactly the new entry |
| Ranking.SortByDistance | app.js:54 | the result is sorted ascending by distance and is a permutation of the input |
| Ranking.SortIsStable | app.js:54 | entries at equal distance keep their relative order |
| Ranking.PrefixIsNearest | app.js:55 | no entry left out of a sorted prefix is nearer than one kept |
| Ranking.Nearest | app.js:44-55 | min(10, n) entries, sorted ascending; each is an input record with its own distance; they are drawn from the input without repetition, and none left out is nearer than one kept |
| Escaping.EscapeHtml | app.js:286-293 | the output holds none of `<`, `>`, `"`, `'` |
| Escaping.EscapeHtmlAppend | app.js:286-293 | escaping a concatenation is escaping each part |
| Escaping.EscapeHtmlPerChar | app.js:286-293 | the five `replaceAll` calls, `&` first, amount to replacing each character by its own entity, so no entity is escaped twice |
| Escaping.EscapedAmpersandsStartEntities | app.js:286-293 | every `&` of the output starts one of the five entities |
| Escaping.EscapeHtmlRoundTrip | app.js:286-293 | decoding the five entities recovers the input |
| Escaping.CssEscapeFallback | app.js:299 | the output adds no character but the backslash: every other character, `"` included, comes from the label |
| Escaping.FallbackQuotesAreEscaped | app.js:299 | every `"` in the fallback's output is preceded by a backslash |
| Escaping.FallbackSelectsLabelWithoutBackslash | app.js:299 | for a label without backslash or newline, the selector's string reads back as the label |
| Escaping.FallbackBreaksOnTrailingBackslash | app.js:299 | the label `a\` is left unchanged; the selector's string swallows the closing `"]` and runs to the end, so it selects the value `a"]` and not `a\` |
| Escaping.FallbackMisreadsHexEscape | app.js:299 | the label `a\b` is left unchanged; the selector reads `\b` as a hexadecimal escape, so it selects `a` followed by U+000B and not `a\b` |
| Escaping.EscapedStringSelectsLabel | app.js:295-300 | with backslash and quote both escaped, the selector's string reads back as exactly the label |
| SearchForm.FirstWithLabel | app.js:95-99 | None exactly when no suggestion carries the label; otherwise the first one that does |
| SearchForm.AddressController.constructor | app.js:16-18 | no selected place, request counter 0, no timer, empty list |
| SearchForm.AddressController.OnInput | app.js:68-86 | the selection is cleared and the pending timer cancelled; a trimmed query under 3 characters clears the list and schedules nothing; otherwise the trimmed query is scheduled and the list kept |
| SearchForm.AddressController.OnTimerFired | app.js:115-117 | the counter goes up by one and the lookup carries the new number and the scheduled query |
| SearchForm.AddressController.OnLookupSettled | app.js:115-123 | an answer is rendered only when its request number equals the current counter; a failure empties the list whichever request it was; nothing else changes |
| SearchForm.AddressController.OnChange | app.js:88-106 | an empty trimmed value gives no selection; otherwise the selection is the first suggestion whose label is the trimmed value, and any selection is one of the suggestions |
| SearchForm.AddressController.GetUserPosition | app.js:108-113 | the selected place when there is one, otherwise the geocoding result |
| SearchForm.AddressController.OnSubmit | app.js:20-66 | an empty address ends with "missing address"; otherwise a geocoding or loading failure is reported, an empty dataset is reported, or the ten nearest are shown with the position's label |
| SearchForm.LaterLookupWins | app.js:116-123 | after lookups for "Pari" then "Paris", a late answer for "Pari" does not replace the answer for "Paris" |
| SearchForm.ShortInputKeepsSentLookup | app.js:76-79 | a lookup already sent still fills the list after the input is shortened |
| SearchForm.StaleFailureClearsList | app.js:82-84 | a stale lookup that fails empties the list filled by the latest one |
| EnvFile.SplitLines | server.js:56 | at least one line, and no line holds `\n` |
| EnvFile.SplitJoinCrLf | server.js:56 | lines joined with `\r\n` split back into the same lines |
| EnvFile.SplitJoinLf | server.js:56 | lines joined with `\n` split back into the same lines, provided no line followed by a break ends in `\r` |
| EnvFile.CrLfFileSplitsCleanly | server.js:56 | `A=1\r\nB=2` splits into `A=1` and `B=2` |
| EnvFile.StripWrappingQuotes | server.js:80-88 | a value not wrapped in matching quotes is unchanged; a wrapped one loses exactly its first and last character (a lone quote becomes empty) |
| EnvFile.StripWrappingQuotesUnwraps | server.js:80-88 | stripping undoes wrapping in `"…"` or `'…'`, whatever the inside holds |
| EnvFile.MismatchedQuotesKept | server.js:81-84 | a value opening with `"` and closing with `'` is kept as is |
| EnvFile.ParseLine | server.js:59-76 | a parsed entry's key is non-empty and holds no `=` |
| EnvFile.ParseLineSkips | server.js:58-67 | a line is skipped exactly when, trimmed, it is blank, starts with `#`, has no `=`, or starts with `=`; a kept key is non-empty and holds no `=` |
| EnvFile.KeyNeverEmpty | server.js:69-74 | the key of a line that passes the earlier tests is never empty, so the `!key` test never skips |
| EnvFile.ParseAssignment | server.js:64-76 | `key=value` parses back to the key and the quote-stripped value, even when the value holds `=` |
| EnvFile.ValueMayHoldEquals | server.js:64-70 | `URL=a=b` assigns `a=b` to `URL` |
| EnvFile.ApplyLine | server.js:76 | applying one line never removes a variable |
| EnvFile.ApplyLineAssigns | server.js:76 | a line that parses to an entry sets its key to its value |
| EnvFile.ApplyLineElsewhere | server.js:58-77 | a line that does not assign a key leaves its presence and value unchanged |
| EnvFile.ApplyLines | server.js:58-77 | applying lines never removes a variable |
| EnvFile.LastAssignmentWins | server.js:58-77 | a key ends with the value of the last line that assigns it |
| EnvFile.UnassignedKeyKept | server.js:58-77 | a key no line assigns keeps its value, or stays absent |
| EnvFile.ProcessEnv.LoadEnvFile | server.js:50-78 | a missing file changes nothing; otherwise the environment is the old one with the lines' assignments applied in order |
| StaticServer.StripParentRefs | server.js:93 | the result is a suffix of the input, shorter by a multiple of 3, and does not start with `../` or `..\` |
| StaticServer.StripParentRefsRemovesExactly | server.js:93 | any number of leading `../` is removed and nothing more |
| StaticServer.SafeResolvePath | server.js:90-102 | a resolved path always starts with the root directory |
| StaticServer.SafeResolveIgnoresQuery | server.js:92 | anything after the first `?` has no effect on the resolved path |
| StaticServer.ContentType | server.js:39-40 | octet-stream exactly when the lower-cased extension is not in the table; otherwise the table's entry for the lower-cased extension |
| StaticServer.ContentTypeIgnoresCase | server.js:39-40 | the extension's case does not change the type |
| StaticServer.UpperCaseExtensionFound | server.js:39-40 | `.PNG` is served as `image/png` |
| StaticServer.ResolveAndRead | server.js:24-43 | 400 exactly when the path does not resolve; for a resolved path, 404 exactly when the file cannot be read, and otherwise the file's content typed by its extension; a served file lies under the root |
| StaticServer.ServeAsWritten | server.js:22-44 | the URL `/` is answered as `/index.html` |
| StaticServer.RootWithQueryNotRewritten | server.js:23 | as written, `/?…` resolves the root directory itself |
| StaticServer.RootServesIndex | server.js:23 | with a root holding `index.html`, `/` serves it as HTML |
| StaticServer.RootWithQueryNotFound | server.js:23 | with the same root, `/?v=1` answers 404 |
| StaticServer.Serve | server.js:22-44 | a URL whose path before `?` is `/` is answered as `/index.html` |
| StaticServer.ServeIgnoresQuery | server.js:23-24 | a query string never changes the response |
| StaticServer.ServeAsWrittenAgreesElsewhere | server.js:23 | away from `/`, the handler as written answers like the corrected one |

## Left out

- Network: the address search and the dataset endpoint are oracles. The URL parameters of the search (`format`, `countrycodes`, …) and JSON parsing are not modelled. A response whose body is not a JSON array or object is outside the model.
- Rejected requests: when `fetch` itself rejects (offline, DNS failure, CORS) in `searchNominatim` or `fetchInstitutions`, the page shows the browser's own error message, not one of the three errors modelled. The oracles only answer or report a non-ok status.
- `haversineKm`, `toRad` and `formatDistance` (floating-point geometry and number formatting): the distance is an abstract function into the reals. Distances that are NaN, which would make the sort comparator inconsistent, are outside the model. So are `Number(...)` conversions of coordinates.
- Rendering and status (`renderResults`, `renderSuggestions`, `setStatus`, `setLoading`, `clearResults`): the suggestion list is a sequence of places, and each status message of the submit handler is a case of `SubmitOutcome`.
- Debounce timing: the 350 ms timer is an event. `OnTimerFired` may only happen while a timer is scheduled and not cleared.
- `Institutions.FetchInstitutions`: requires a bound on every reported total. A dataset that keeps reporting a larger total makes the loop run forever, and the model does not describe that run. `Institutions.PagesFrom` and `Institutions.FetchedInstitutions` carry the same requirement.
- Institutions.PagesFrom: `total_count` is an integer or missing. A non-numeric total is not modelled.
- SearchForm.AddressController.OnInput: the 3-character gate counts code points. JavaScript counts UTF-16 code units, so a query of astral characters may pass the gate earlier there.
- SearchForm.AddressController.OnChange: looks the option up through the corrected escaper `CssEscapeString`. The `window.CSS.escape` branch is a browser API. A label holding a CSS newline (LF, CR, FF) is not selected, because the model's escaper has no hexadecimal escapes, which `CSS.escape` uses for them. The `Number(dataset.lat)` conversions and the `dataset.label || selectedLabel` fallback give back the stored place, whose label equals the trimmed value.
- Escaping.ReadCssString: the input preprocessing of CSS Syntax Level 3 (section 3.3) is not applied. A CR or FF counts as a newline on its own, a CR LF pair as two, and NUL is not replaced by U+FFFD.
- Escaping.SelectedValue: a selector is accepted when its string closes right before the final `]` or runs to the end of the input. Any other text after the string is taken as a selector the browser rejects; `querySelector` then throws and no place is selected.
- `escapeHtml`'s `String(value)` coercion: its argument is already a string.
- StaticServer.ContentType: lower-cases ASCII letters only. Every key of the table is ASCII, and no other character lower-cases to the letters they use.
- StaticServer.SafeResolvePath: `decodeURIComponent`, `path.normalize`, `path.join` and `path.extname` are parameters. Only the prefix test is proved, not that every path stays inside the root directory.
- The HTTP server itself, `fs.readFile` (a function from path to content, or failure), `fs.existsSync` (a file given as content or None), and the host and port settings.
- Strings are sequences of code points. `trim` uses the JavaScript whitespace set; there is no Unicode case folding.

## Findings

| source | as written | input that shows it | evidently intended | confidence | as-written member | corrected member |
|---|---|---|---|---|---|---|
| server.js:23 | the rewrite compares the whole URL, query included, with `/` | `/?v=1` with a root holding `index.html`: the root directory itself is resolved and the read fails, 404 | `/` with any query string serves `index.html`, as the query is ignored on every other path | high, not executed | StaticServer.RootWithQueryNotFound | StaticServer.ServeIgnoresQuery |
| app.js:299 | the `cssEscape` fallback escapes `"` but not `\` | a suggestion labelled `a\`: in the selector `option[value="a\"]` the backslash escapes the closing quote, so the string reads `a"]` and the option labelled `a\` is not found; a label `a\b` is read as `a` and U+000B | backslash escaped as well, so that the selector's string reads back as the label | medium, not executed | Escaping.FallbackBreaksOnTrailingBackslash | Escaping.EscapedStringSelectsLabel |
