# go-elk-exporter: a verified model of the export plan and the CSV formatter

go-elk-exporter copies the documents of an Elasticsearch index that match a
query and a date range into a CSV, JSON or raw file. This project models its
two sequential cores in Dafny and proves what they promise:

- **Query string and export plan** (`export/export.go`). `replaceNth`
  replaces the n-th non-overlapping occurrence of a substring.
  `parseQuery` escapes every colon after the first in each space-separated
  token of a Lucene query as `\:`. `fullFilePath` builds the output path.
  The choices `Run` makes after connecting to the cluster
  (export/export.go:102-105) and before counting and scrolling
  (export/export.go:158-243) are lifted into one pure export plan: the field list, the date range filter, and the must
  clause (raw query, query string or match-all).
- **CSV rows** (`formats/csv.go`). `removeLBR` strips line breaks. The
  per-type cell rules turn one decoded document into one row over the
  field list. A worker sends the header exactly once, first, and then
  freezes the field list. It decodes every hit into one reused `document`
  map.

Modules:

- `Wrappers` (wrappers.dfy): `Option`, which stands for Go's nil-able slices.
- `Text` (text.dfy): the parts of Go's `strings` package and of `%d` that the
  code uses. Strings are sequences of characters.
- `QueryText` (query.dfy): `replaceNth` and `parseQuery` as methods with
  loops. They are proved against the specification functions `NthFrom`
  ("the k-th non-overlapping occurrence") and `EscapeToken` / `ParsedQuery`.
- `Export` (export.dfy): `fullFilePath` and the export plan.
- `Csv` (csv.dfy): `removeLBR`, cell formatting, row projection, and the class
  `CsvWorker`. The class holds the header flag, the field list, the reused
  document, the rows pushed so far, and whether the worker has panicked.

The model follows the code in three places where a reader might expect
otherwise:

- A hit whose source fails to decode still produces a row. `json.Unmarshal`
  leaves `document` as it was, so the previous record's row is pushed again
  (`Csv.DecodeErrorRepeatsRow`).
- `json.Unmarshal` into the existing non-nil map keeps the entries the new
  object lacks. So a field missing from a later record shows an earlier
  record's value even when decoding succeeds (`Csv.StaleFieldCarriesOver`).
  A JSON `null` empties the map.
- A boolean or nested-object value reaches `val.(string)` and panics. A date
  string converted into a time zone that `time.LoadLocation` does not know
  panics too: the location stays nil and `Time.In(nil)` panics. Nothing
  recovers from either panic, so the program ends. The worker records this
  as `halted`, pushes no row for that hit, and changes nothing afterwards.

## Model

| member | source | states |
|---|---|---|
| Text.Index | export/export.go:284 | `strings.Index`: -1, or an index at which the pattern fits inside the string |
| Text.IndexMatches | export/export.go:284 | the index `strings.Index` returns is an occurrence of the pattern |
| Text.IndexLeftmost | export/export.go:284 | there is no occurrence before the returned index, and none at all when it is -1 |
| Text.Split | export/export.go:253 | `strings.Split` on one character: one piece more than there are separators, and no piece contains the separator |
| Text.JoinSplit | export/export.go:273 | joining the pieces of a split with the same separator gives back the string |
| Text.SplitJoin | export/export.go:253 | splitting a join of separator-free pieces gives back the pieces |
| Text.CountCharAppend | export/export.go:260-261 | the colon count of a concatenation is the sum of the counts |
| Text.Join | export/export.go:273 | `strings.Join`: no parts give the empty string; otherwise the result starts with the first part, and separator-free parts give exactly one separator between each pair |
| Text.CountOcc | export/export.go:260-261 | `strings.Count`: the non-overlapping occurrences fit inside the string, and there are none exactly when `strings.Index` finds none |
| Text.CountOccChar | export/export.go:260-261 | for a one-character separator `strings.Count` is the character count, so the colon count parseQuery takes is the occurrence count replaceNth walks through |
| Text.CountCharZero | export/export.go:260 | a count of zero means the character does not occur |
| Text.Digits | formats/csv.go:86 | the digits of a natural number: at least one, all decimal, a leading zero only for 0 |
| Text.DigitsRoundTrip | formats/csv.go:86 | reading the digits of n back gives n |
| Text.DecimalRoundTrip | formats/csv.go:86 | reading back the `%d` text of any integer gives the integer |
| Text.DecimalText | formats/csv.go:86 | `%d` text is a minus sign exactly for negatives, then at least one digit and only digits, with a leading zero exactly for 0 |
| QueryText.ReplaceNth | export/export.go:281-295 | with n < 1, or fewer than n occurrences, the result is `s`; otherwise, with i the index of the n-th non-overlapping occurrence, the pattern is at i and the result is `s[:i] + new + s[i+len(old):]`, whose length changes by len(new) - len(old) |
| QueryText.NthFromMatches | export/export.go:284-290 | the position replaceNth's search finds is an occurrence of the pattern |
| QueryText.NthExistsIff | export/export.go:283-287 | the n-th occurrence exists exactly when `strings.Count` is at least n |
| QueryText.NthAtFrom | export/export.go:283-292 | the search from cursor i in `s` is the search in `s[i:]` moved by i, so replaceNth's loop, which advances the cursor past each occurrence, finds the n-th occurrence |
| QueryText.NthFromLaterAt | export/export.go:284-292 | one pass of the loop that does not stop: the k-th occurrence from the cursor is the (k-1)-th from just after the occurrence found |
| QueryText.NthFromAbsent | export/export.go:284-287 | when `strings.Index` finds nothing there is no n-th occurrence, so breaking out returns `s` |
| QueryText.NthFromFirst | export/export.go:284-290 | the first occurrence is what `strings.Index` finds |
| QueryText.NthFromLater | export/export.go:284-292 | a later occurrence is found by searching again after the current one |
| QueryText.ShiftShift | export/export.go:288-292 | moving the cursor twice equals moving it by the sum |
| QueryText.MatchAtDrop | export/export.go:284-288 | an occurrence in `s[i:]` is an occurrence in `s` moved by i |
| QueryText.NthCons | export/export.go:264 | a leading character moves the k-th `:` one place right, and a leading `:` also takes over the first ordinal |
| QueryText.EscIdentity | export/export.go:260-270 | when no colon ordinal lies in 2..upto, the token is unchanged (so tokens with at most one colon pass through) |
| QueryText.EscStep | export/export.go:263-265 | inner-loop invariant: with colons 2..j escaped, the (j+1)-th `:` of the rewritten token exists, is the (j+1)-th original colon, and replacing it escapes colons 2..j+1 |
| QueryText.EscStepOther | export/export.go:263-265 | the step above behind a character that is not a colon |
| QueryText.EscStepTarget | export/export.go:263-265 | the step above when the leading colon is the one to escape |
| QueryText.EscStepEarlier | export/export.go:263-265 | the step above behind a colon that comes before the target |
| QueryText.BareColonStep | export/export.go:264 | behind the first (bare) colon, the target `:` and its replacement move one place right |
| QueryText.EscapedColonStep | export/export.go:264 | behind an escaped colon, the target `:` and its replacement move two places right |
| QueryText.NthConsOther | export/export.go:264 | a leading non-colon moves every `:` occurrence one place right |
| QueryText.NthConsColon | export/export.go:264 | a leading colon takes the first ordinal and moves the others one place right |
| QueryText.SplicePrefix | export/export.go:290 | replacing inside `pre + e` at an offset past `pre` is replacing inside `e` |
| QueryText.EscCount | export/export.go:260-266 | escaping keeps the count of every character other than the backslash, so colons keep their count and order |
| QueryText.EscBackslashes | export/export.go:260-266 | escaping adds exactly one backslash per colon after the first |
| QueryText.UnescapeEsc | export/export.go:260-266 | removing the inserted backslashes gives back the original token |
| QueryText.RewriteToken | export/export.go:260-270 | the loop that calls replaceNth for j+1 = 2..count leaves the token with every colon after the first escaped |
| QueryText.ParseQuery | export/export.go:252-279 | the result is the space-join of the escaped tokens, and the error is always nil |
| QueryText.ParsedQueryIdentity | export/export.go:253-273 | a query none of whose tokens has two or more colons comes back unchanged |
| QueryText.ParsedQueryTokens | export/export.go:253-278 | the parsed query has as many space-separated tokens as the query; each keeps its colons, gains one backslash per colon after the first, and unescapes back to the original token |
| Export.FullFilePath | export/export.go:245-250 | the path is `path/name.format`, the name being the file name, or the clock stamp when that is empty |
| Export.DateFilter | export/export.go:122-134 | no filter exactly when neither date is set; otherwise a range on the time field with a lower bound exactly when a start date is set and an upper bound exactly when an end date is set, the bounds being those dates |
| Export.MustFor | export/export.go:136-155 | a raw query wins over a query string, which wins over match-all; the query string is parseQuery's result |
| Export.FieldsFor | export/export.go:108-110 | a non-empty field list replaces the fields by its comma-free pieces (commas + 1 of them) that join back to the list; an empty one keeps the configured fields |
| Export.Plan | export/export.go:108-155 | a range filter always has a bound, and a query string keeps the token count of the configured query |
| Export.PlainQueryPassesThrough | export/export.go:141-152 | a query whose tokens have at most one colon each is sent as it is |
| Csv.RemoveLBR | formats/csv.go:136-139 | the result has none of the seven line-break characters and is no longer than the input |
| Csv.RemoveLBRIsStrip | formats/csv.go:136-139 | removeLBR equals deleting every line-break character and keeping the rest in order, so removing a CRLF pair is removing both characters |
| Csv.StripAppend | formats/csv.go:136-139 | the reference stripper works piecewise on a concatenation |
| Csv.RemoveLBRIdentity | formats/csv.go:136-139 | a string without line breaks is unchanged |
| Csv.RemoveLBRIdempotent | formats/csv.go:136-139 | applying removeLBR twice is applying it once |
| Csv.RemoveLBRKeepsOthers | formats/csv.go:136-139 | every other character keeps its number of occurrences |
| Csv.StripKeeps | formats/csv.go:136-139 | the reference stripper keeps the count of every other character |
| Csv.RemoveLBRConcat | formats/csv.go:136-139 | removeLBR of a concatenation is the concatenation of the results, even when a CRLF pair is split between the two parts |
| Csv.Trunc | formats/csv.go:88 | `int(x)` truncates toward zero: for x >= 0 it is the largest integer not above x, for x < 0 the smallest integer not below x |
| Csv.TruncOfIntegral | formats/csv.go:88-89 | a value equals its truncation exactly when it is an integer, and then the truncation is that integer |
| Csv.IntegralFloat | formats/csv.go:88-89 | the `val == float64(int(val))` test holds exactly when the float is an integer in the int64 range |
| Csv.FormatCell | formats/csv.go:77-117 | formatting fails exactly for a present boolean or object value (the `val.(string)` panic) and for a date string converted into an unknown time zone (`Time.In(nil)` panics) |
| Csv.DateConversionFails | formats/csv.go:147-158 | the date panic happens exactly for a string value that looks like a date, with date conversion on, whose conversion finds no location |
| Csv.CellPolicy | formats/csv.go:77-117 | absent or null gives `""`; an int64, or a float64 equal to its truncation, gives decimal text that reads back as the value; any other float gives its `%f` text and a list its `%v` text; a string cell has no line breaks; a non-date string is the string minus its line breaks; a date is the converted date minus its line breaks (or the panic when conversion fails) with conversion on, and the formatted date minus its line breaks with it off |
| Csv.Projection | formats/csv.go:76-118 | a row exists exactly when every field formats; it has one cell per field, and cell k is the cell of field k |
| Csv.ProjectRow | formats/csv.go:76-118 | the cell loop builds exactly the projected row, or stops at the panic |
| Csv.ProjectionPrefixFails | formats/csv.go:76-118 | a panic on an earlier field means no row at all |
| Csv.KeysInSomeOrder | formats/csv.go:65-69 | the derived header lists every key of the document, each once (no duplicates), and nothing else |
| Csv.NextDocument | formats/csv.go:54-62 | an object merges into the reused map, with its pairs winning and other entries kept; null empties the map; a decode error leaves it as it was |
| Csv.DecodeErrorRepeatsRow | formats/csv.go:54-62 | after a decode error the previous record's row is produced again |
| Csv.StaleFieldCarriesOver | formats/csv.go:54-62 | a field the new object lacks keeps the value an earlier record stored under it |
| Csv.Fold | formats/csv.go:56-121 | the sequential worker loop as a fold over the hits: without a panic one row per hit, with one fewer rows than hits, and every row has one cell per field |
| Csv.FoldLast | formats/csv.go:56-121 | the fold over one more hit is one more step of the fold |
| Csv.RanStep | formats/csv.go:56-121 | a turn of the worker on the next hit, as Consume states it, turns a state that has consumed the first i hits into one that has consumed the first i+1 |
| Csv.CsvWorker.constructor | formats/csv.go:45-54 | a fresh worker has sent no header, holds an empty document and has pushed nothing |
| Csv.CsvWorker.SendHeaderOnce | formats/csv.go:64-74 | the first call pushes the header, which is the configured fields or the current document's keys; later calls change nothing |
| Csv.CsvWorker.PushRow | formats/csv.go:76-121 | the projected row is pushed, or the worker panics and pushes nothing; fields and document are unchanged |
| Csv.CsvWorker.Consume | formats/csv.go:56-121 | one hit: the document is the decode result merged in; the header is pushed first if it was not yet, and after that the field list never changes; then exactly the projected row is pushed, or the worker halts; a halted worker changes nothing |
| Csv.CsvWorker.ConsumeNext | formats/csv.go:56-121 | one turn of the loop extends the run over the first i hits to the first i+1 |
| Csv.CsvWorker.Run | formats/csv.go:56-128 | a halted worker changes nothing; otherwise after the hits the header is out if any hit came, the field list is the old one if the header was out and else the header of the first hit's document, and document, halt flag and output are those of the fold: the old output, then the header if it went out now, then the fold's rows |

## Left out

- The Elasticsearch client, TLS and basic auth, `Count`, and the scroll goroutine with its channel and `cancel()` (export/export.go:66-106, 157-243). These are network I/O and concurrency. Export.Plan models only the values `Run` computes after connecting (export/export.go:102-105) and before counting and scrolling (export/export.go:158-243).
- Export.Plan: the two `log.Fatalf` exits that come before parts of the plan are not modelled. A failed connection (export/export.go:104) ends the run before any part of the plan is computed, and a failed `os.Create` of the output file (export/export.go:114) ends it before the range filter and the must clause. The model computes every part of the plan for every configuration.
- Export.FullFilePath: the clock is a parameter (`stamp`), standing for `time.Now().Format("20060102150405")`. The model does not fix the stamp's format.
- The errgroup workers, the `csvout` channel, the `csv.Writer` goroutine with its quoting, and the `ctx.Done()` checks (formats/csv.go:27-43, 52-53, 121-133). The model has one sequential worker, and the rows it pushes form a sequence. Several workers interleaving their rows, and `sync.Once` making the others wait, are not modelled.
- JSON decoding of `hit.Source`. The decoder's outcome (an object, null, or an error) is the input of Csv.CsvWorker.Consume.
- Go's map iteration order for the derived header. KeysInSomeOrder picks the keys in an arbitrary order.
- `%f` of fractional floats, `%v` of lists, and `isDateValue`, `convertDate`, `formatDate` (formats/csv.go:92, 95, 141-168). They depend on floating-point formatting, `time.Parse` and the time-zone database. They are function-valued parameters (`Renderers`); `convertDate` returns None where it would panic on an unknown time zone. The model proves nothing about their text beyond what removeLBR then guarantees, and the date parse error that `convertDate` and `formatDate` only print is not modelled.
- Csv.CellPolicy: a float64 is modelled as an exact real number and an int64 as an unbounded integer. The model does not capture rounding, NaN, infinities or 64-bit overflow. The int conversion of an out-of-range float is assumed to give the minimum int64 (the amd64 behaviour), so such a value never counts as integral.
- Strings are sequences of characters. Go's byte indexing, which differs for multi-byte UTF-8, is not modelled in replaceNth, parseQuery or removeLBR.
- Debug logging through the logger wrapper in parseQuery and Run, and the log line for a decode error.
- formats/json.go, formats/raw.go, logger/logger.go, flags/flags.go and main.go are not part of this model. They are file and log I/O, flag declarations and CLI parsing.
