# Shodan server-banner export, modelled in Dafny

`shodan-service.py` asks for a server type (the search *term*) and fetches the
account's network alerts. For every alert and every subnet in the alert's IP
filter, it runs the search `"<term> net:<subnet>"`. For every match it finds, it
reads two header lines out of the banner text:

- the first line that starts with `Server:`, stripped of surrounding whitespace;
- the first line that starts with `P3P:`, stripped the same way.

The placeholder `N/A` stands in when no line carries the header. One
six-column row per match is appended to `server-<term>.csv`, after a header row
that is written only when the file was empty when opened.

The project has three modules:

- `Text` (`text.dfy`) models the Python string operations the script relies
  on: `split("\n")` (`Split`), `startswith` and `strip()`. `strip()` is split
  into `StripLeft` and `StripRight`, each with its own contract, and whitespace
  is Python's `isspace` on ASCII. `Join` (`"\n".join`) is not called by the
  script; it is the inverse against which `Split` is proved lossless
  (`JoinSplit`, `SplitJoin`).
- `Banner` (`banner.dfy`) models the field extraction.
  - `FirstField` is the specification of one `for … break … else` scan.
  - `ExtractField` is that scan as a loop proved against `FirstField`.
  - `ExtractFields` splits the banner once and runs both scans, as the script
    does.
- `Report` (`report.dfy`) models the rest of the run.
  - Alerts, matches and rows are datatypes.
  - `Rows` specifies the rows of a run, in alert, subnet, match order.
  - `DictCells` models the dictionary writer's conversion of a row. A key
    outside the field names is an error. Otherwise `CellsOf` looks up each field
    name in turn, and a missing one gives an empty cell.
  - `CsvFile` is a class whose `records` field is the file's contents. The
    header is a record of its own, and `Line` gives the cells it writes: the
    field names.
  - `Run`, `WriteAlert` and `WriteMatches` are the script's three nested loops,
    written as methods. Each is proved to append exactly the records that the
    specification functions describe.

The fields are the matching lines after `strip()` (lines 50 and 57), not the
raw lines.

## Model

| member | source | states |
|---|---|---|
| Text.Split | shodan-service.py:47 | `split("\n")` always gives at least one piece, and no piece holds a line feed |
| Text.SplitCount | shodan-service.py:47 | the number of pieces is the number of line feeds plus one |
| Text.JoinSplit | shodan-service.py:47 | joining the pieces with line feeds gives the banner back, so splitting loses no character |
| Text.SplitJoin | shodan-service.py:47 | splitting joined lines that hold no line feed gives exactly those lines back |
| Text.StripLeft | shodan-service.py:50 | the result is a suffix of the input, everything dropped is whitespace, and the result does not start with whitespace |
| Text.StripRight | shodan-service.py:50 | the result is a prefix of the input, everything dropped is whitespace, and the result does not end with whitespace |
| Text.StripIsTrimmedSlice | shodan-service.py:50 | `strip()` returns a slice of its input with only whitespace outside it, and the slice neither starts nor ends with whitespace |
| Text.StripIdempotent | shodan-service.py:50 | stripping a stripped line changes nothing |
| Text.StripKeepsPrefix | shodan-service.py:49-50 | a line that starts with `Server:` or `P3P:` has no leading whitespace to strip and still starts with the prefix after `strip()` |
| Banner.FirstFieldNoMatch | shodan-service.py:48-53 | when no line starts with the prefix, the `else` branch gives `N/A` |
| Banner.FirstFieldAt | shodan-service.py:48-51 | when line `i` is the first that starts with the prefix, the field is that line stripped, and later lines do not matter |
| Banner.FirstMatchExists | shodan-service.py:48-51 | when some line starts with the prefix, there is a first such line, where the loop breaks |
| Banner.FieldShape | shodan-service.py:48-60 | the field is `N/A` exactly when no line starts with the prefix, and otherwise it starts with the prefix |
| Banner.ServerAndP3PArePrefixes | shodan-service.py:49-56 | `Server:` and `P3P:` qualify for `FieldShape`, and no line starts with both |
| Banner.OnlyOwnLinesMatter | shodan-service.py:48-53 | two banners whose lines starting with the prefix are the same, in the same order, give the same field |
| Banner.ServerIgnoresP3PLines | shodan-service.py:48-60 | inserting a `P3P:` line anywhere leaves the server field unchanged |
| Banner.P3PIgnoresServerLines | shodan-service.py:48-60 | inserting a `Server:` line anywhere leaves the P3P field unchanged |
| Banner.ServerIgnoresP3PEdits | shodan-service.py:48-60 | rewriting a `P3P:` line into another `P3P:` line leaves the server field unchanged |
| Banner.P3PIgnoresServerEdits | shodan-service.py:48-60 | rewriting a `Server:` line into another `Server:` line leaves the P3P field unchanged |
| Banner.ExtractField | shodan-service.py:48-53 | the scan loop returns the first matching line stripped, or `N/A` when the loop ends without a break |
| Banner.ExtractFields | shodan-service.py:47-60 | one split and two scans give the server and P3P fields, each `N/A` or starting with its own prefix |
| Banner.EmptyBannerFields | shodan-service.py:47-60 | an empty banner gives `N/A` for both fields |
| Banner.DateOnlyBannerFields | shodan-service.py:47-60 | the one-line banner `Date: Mon`, which has neither header, gives `N/A` for both fields |
| Banner.ThreeLineFields | shodan-service.py:47-60 | a banner that splits into a `Server:` line, a line that is not `P3P:`, and a `P3P:` line gives those two lines stripped |
| Banner.ApacheBannerFields | shodan-service.py:47-60 | the banner `Server: Apache/2.4`, `Date: Mon`, `P3P: CP="NOI DSP"` (three lines) gives `Server: Apache/2.4` and `P3P: CP="NOI DSP"` |
| Report.FileNameInverse | shodan-service.py:20 | the output file name determines the term and the term the file name, so distinct terms never share a file |
| Report.QueryInverse | shodan-service.py:38 | for a fixed term, the query determines the subnet and the subnet the query |
| Report.MatchRowsAt | shodan-service.py:42-70 | one row per match, and row `k` is the row built from match `k` |
| Report.SubnetRowsAppend | shodan-service.py:37-42 | the rows of an alert are its subnets' rows concatenated in subnet order |
| Report.RowsAppend | shodan-service.py:30-37 | the rows of a run are its alerts' rows concatenated in alert order |
| Report.SubnetRowCount | shodan-service.py:37-42 | an alert contributes the sum of its subnets' match counts |
| Report.RowCount | shodan-service.py:30-42 | a run writes as many rows as the sum over alerts of the sum over subnets of the matches |
| Report.UniformRowCount | shodan-service.py:30-42 | with `s` subnets per alert and `m` matches per subnet, a run writes alerts × `s` × `m` rows |
| Report.MatchRowsExactly | shodan-service.py:42-70 | every row of a subnet carries the alert's name and id, the subnet, and a match's address and fields, and every match gives a row |
| Report.SubnetRowsExactly | shodan-service.py:37-70 | every row of an alert comes from one of its subnets and one of that subnet's matches, and every such pair gives a row |
| Report.RowsExactly | shodan-service.py:30-70 | every row of a run comes from an alert, one of its subnets and one match, and every such triple gives a row |
| Report.CellsOf | shodan-service.py:22-23 | looking up the field names in order gives one cell per name: the dict's value for a name it holds, "" for one it lacks |
| Report.DictCellsSpec | shodan-service.py:22-23 | the writer accepts a dict exactly when every key is a field name; an accepted dict's every value lands in its own key's column, and the other columns are empty |
| Report.RowDictCells | shodan-service.py:63-70 | the dictionary the script builds has exactly the six field names as keys, so it is always accepted, and its cells are the row's fields in column order |
| Report.ExportedKeepsExisting | shodan-service.py:21-27 | appending keeps the file's existing records as a prefix, and an empty file begins with the header |
| Report.HeaderOncePerFile | shodan-service.py:25-27 | a run adds one header to an empty file and none to a non-empty one |
| Report.ExportedSize | shodan-service.py:21-70 | a run adds one record per match, plus one header when the file was empty |
| Report.WrittenRecordsAreRows | shodan-service.py:26-70 | the records after the existing ones and the header are the run's rows, in order |
| Report.RowNeverReadsAsHeader | shodan-service.py:42-70 | no row written for a match has the header's cells, because its `server_type` cell is `N/A` or starts with `Server:` |
| Report.RunRowsNeverReadAsHeader | shodan-service.py:30-70 | no row of a run has the header's cells |
| Report.HeaderLineOncePerFile | shodan-service.py:21-70 | read as lines of cells, a run adds exactly one line equal to the field names when the file was empty, and none otherwise |
| Report.TwoRunsOneHeader | shodan-service.py:20-27 | two runs for the same term on a fresh file leave exactly one header in it |
| Report.HeaderOnlyWithoutMatches | shodan-service.py:26-42 | a run on a fresh file whose only subnet has no match writes the header alone |
| Report.CsvFile.Open | shodan-service.py:21 | opening for append keeps the name and the existing records |
| Report.CsvFile.Tell | shodan-service.py:26 | the position is zero exactly when the file holds no record |
| Report.CsvFile.WriteHeader | shodan-service.py:27 | the header record is appended and nothing else changes |
| Report.CsvFile.WriteRow | shodan-service.py:63-70 | a row the writer accepts is appended as its cells, and a rejected one leaves the file unchanged |
| Report.WriteMatches | shodan-service.py:42-70 | the match loop appends exactly the records of the subnet's rows, in match order |
| Report.WriteAlert | shodan-service.py:37-70 | the subnet loop searches each subnet's query and appends exactly the records of the alert's rows |
| Report.Run | shodan-service.py:20-70 | the whole run writes to `server-<term>.csv`, leaving the existing records, then a header if the file was empty, then every row of every alert, subnet and match in order |

## Left out

- The alert fetch (lines 13-17) is not modelled. This covers the HTTP request, JSON decoding, and the `KeyError` or `TypeError` raised when a key (`name`, `id`, `filters.ip`, `matches`, `ip_str`, `data`) is missing. The alerts arrive as a list of well-formed `Alert` values instead.
- The search client (lines 8, 38-39) is a parameter: a function from query text to matches. Network errors, paging, rate limits and the API key (line 5) are outside the model. Two identical queries are assumed to return the same matches.
- Console input (line 10) becomes the `term` parameter of `Run`. The progress and final messages (lines 35, 72) are not modelled.
- CSV quoting, escaping, line terminators and text encoding are not modelled. A data record is its list of cells. The header is a separate record whose cells are the field names (`Line`).
- Report.CsvFile.Tell: returns the number of records, not the byte offset. Only whether it is zero is specified, and that is all the script uses.
- Text.StripRight: treats only ASCII characters as whitespace, and so does `Text.StripLeft`. Python's `strip()` also removes non-ASCII whitespace such as U+0085, U+00A0 and U+2028. On a matched line this shows at the end, since the line starts with `Server:` or `P3P:`.
- Report.CsvFile.WriteRow: an extra key is reported through the result flag instead of a raised `ValueError`. The script never builds such a row (`RowDictCells`).
- The script's three nested loops are one block of code. The model splits them into `Run`, `WriteAlert` and `WriteMatches`, which run the same iterations in the same order.
- Concurrent writers to the same output file, and failures while opening or writing it, are not modelled.
