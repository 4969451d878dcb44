# Customer CSV ingestion of the revision application

This project models the start-up CSV ingestion of the application's `Bootstrap` component in Dafny and proves its properties. The component has two methods. Each turns the lines of a customer file into a list of customers.

- `withStream` is a stream pipeline:
  1. skip the header line;
  2. keep at most the next 10 lines;
  3. `split(",")` each line;
  4. keep the rows whose column 6, trimmed and lower-cased, is `"chile"`;
  5. build a `Customer` from columns 1 to 6.
- `withLoop` is a `while` loop over a `BufferedReader`:
  1. read and drop the header;
  2. for every further line, split it and skip it unless column 6, trimmed and lower-cased, is `"hungary"`;
  3. otherwise append the customer to a list.

Either method fails on a line that splits into fewer than seven fields, because reading `fields[6]` throws. The call then returns no list at all.

Files:

- `models.dfy` (module `Models`): the `Customer` record, with six string fields.
- `java_string.dfy` (module `JavaString`): the Java string operations the methods rely on.
  - `String.trim` strips every character `<= ' '` at both ends.
  - `String.toLowerCase` is modelled on ASCII letters.
  - `String.split(",")` splits at every comma, then drops the trailing empty strings. A string without a comma is returned whole, so `""` gives `[""]`.
- `bootstrap.dfy` (module `Bootstrap`):
  - `withStream` is the function `WithStream`, built from `Skip`, `Limit`, `SplitLines` and `Collect`. `Collect` is the filter and map stages: it takes the filter's predicate as a parameter, as `Stream.filter` does.
  - `withLoop` is the method `WithLoop`. It reads through a `LineReader` object, which stands in for the `BufferedReader`, and extends a local list. Its loop invariant ties the list to the pure ingestion of the lines read so far.
  - Both methods use the same country test, `FromCountry`, with `"chile"` for `withStream` and `"hungary"` for `withLoop`.

The failure is the datatype value `Err(IndexOutOfBounds(6, length))`. It carries the number of fields that `split` returned for the first line, in file order, that has no column 6. A sequential Java stream passes each element through every stage before taking the next, so the first such line is the one that throws. The loop throws on the same line at its debug print.

The two methods are not equivalent: they filter on different countries, and only the stream stops after 10 data lines. The model states and proves each method against its own specification, and proves no equivalence between them.

## Model

| member | source | states |
|---|---|---|
| Bootstrap.WithStream | src/main/java/vttp/batch5/ssf/revision/bootstrap/Bootstrap.java:53-80 | `withStream` is the pipeline skip 1, limit 10, split, filter on Chile, map to customers; its contract: it never returns more than 10 customers (`WithStreamPicks`, `WithStreamSucceedsIff` and `StreamWindow` state the rest) |
| Bootstrap.Skip | src/main/java/vttp/batch5/ssf/revision/bootstrap/Bootstrap.java:61 | `skip(n)` leaves the suffix of the stream after its first n elements, or nothing when there are fewer |
| Bootstrap.Limit | src/main/java/vttp/batch5/ssf/revision/bootstrap/Bootstrap.java:62 | `limit(n)` leaves the prefix of the stream of length n, or the whole stream when it is shorter |
| Bootstrap.SplitLines | src/main/java/vttp/batch5/ssf/revision/bootstrap/Bootstrap.java:63-65 | the `map(line -> line.split(","))` stage, one row per line, in order (definition; `SplitLinesSlice` and `SplitLinesAppend` relate it to slices and concatenation) |
| Bootstrap.Collect | src/main/java/vttp/batch5/ssf/revision/bootstrap/Bootstrap.java:66-78 | the `filter` and final `map` stages, row by row in order, failing on the first row without column 6; its contract: a successful result is never longer than its input, proved from the recursive call's contract (`CollectPicks` states the selection) |
| Bootstrap.Ingest | src/main/java/vttp/batch5/ssf/revision/bootstrap/Bootstrap.java:63-78 | split, filter and map of the lines a method considers; its contract: never more customers than lines |
| Bootstrap.ToCustomer | src/main/java/vttp/batch5/ssf/revision/bootstrap/Bootstrap.java:67-77 | the positional mapping: columns 1 to 6 become customerId, firstName, lastName, company, city and country, column 0 is ignored (definition; `CustomerLineRoundTrip` is its inverse) |
| Bootstrap.Normalize | src/main/java/vttp/batch5/ssf/revision/bootstrap/Bootstrap.java:66 | `trim()` then `toLowerCase()` (definition; `PaddedChileMatches` and the JavaString lemmas state its behaviour) |
| Bootstrap.IsFrom | src/main/java/vttp/batch5/ssf/revision/bootstrap/Bootstrap.java:105 | `"<country>".equals(fields[6].trim().toLowerCase())` on a row that has column 6 (definition) |
| Bootstrap.FromCountry | src/main/java/vttp/batch5/ssf/revision/bootstrap/Bootstrap.java:66 | the filter predicate shared by both methods, "chile" in the stream and "hungary" in the loop (definition; `IngestCountry` and `IngestComplete` state what it selects) |
| JavaString.Trim | src/main/java/vttp/batch5/ssf/revision/bootstrap/Bootstrap.java:66 | `String.trim`: the text between the leading and trailing runs of characters `<= ' '` (definition; `TrimSpec` and `TrimOf` determine it) |
| JavaString.LeadingBlanks | src/main/java/vttp/batch5/ssf/revision/bootstrap/Bootstrap.java:66 | the length of the leading run of characters `<= ' '`, never more than the text's length (`LeadingBlanksSpec` states it exactly) |
| JavaString.TrailingBlanks | src/main/java/vttp/batch5/ssf/revision/bootstrap/Bootstrap.java:66 | the length of the trailing run of characters `<= ' '`, never more than the text's length (`TrailingBlanksSpec` states it exactly) |
| JavaString.ToLower | src/main/java/vttp/batch5/ssf/revision/bootstrap/Bootstrap.java:66 | `String.toLowerCase` on ASCII, character by character (definition; `ToLowerAt`, `ToLowerMatches` and `ToLowerIdempotent` state it) |
| JavaString.LowerChar | src/main/java/vttp/batch5/ssf/revision/bootstrap/Bootstrap.java:66 | one character lower-cased: `A` to `Z` become `a` to `z`, every other character is kept (definition; `LowerCharMatches` states it) |
| JavaString.SplitAll | src/main/java/vttp/batch5/ssf/revision/bootstrap/Bootstrap.java:64 | the fields between commas, empty ones included; its contract: always at least one field (`JoinSplitAll` and `SplitAllJoin` make it the inverse of joining with commas) |
| JavaString.Split | src/main/java/vttp/batch5/ssf/revision/bootstrap/Bootstrap.java:64 | `String.split(",")`: a text without a comma is its own single field; otherwise the fields between commas less the trailing empty ones (definition; `SplitJoin`, `SplitJoinDropsEmptyLast` and `SplitKeeps` state it) |
| Bootstrap.WithLoop | src/main/java/vttp/batch5/ssf/revision/bootstrap/Bootstrap.java:83-125 | the loop returns exactly the ingestion of every line after the header, filtered on Hungary, with the same failure; on success its list is the filter-then-map selection over file lines 1 onwards, in order |
| Bootstrap.LineReader.constructor | src/main/java/vttp/batch5/ssf/revision/bootstrap/Bootstrap.java:89-90 | a reader over the file's lines starts before the first line |
| Bootstrap.LineReader.ReadLine | src/main/java/vttp/batch5/ssf/revision/bootstrap/Bootstrap.java:92-96 | `readLine` returns the next line and advances by one, or returns null (None) without moving once every line has been read |
| Bootstrap.ReadStep | src/main/java/vttp/batch5/ssf/revision/bootstrap/Bootstrap.java:96-118 | one loop iteration: a line without column 6 makes the whole remaining ingestion that failure; otherwise the list grows by that line's customer exactly when it matches |
| Bootstrap.IngestSnoc | src/main/java/vttp/batch5/ssf/revision/bootstrap/Bootstrap.java:99-118 | appending a line to the input fails with the number of fields it splits into if that is under seven, appends its customer if it matches, and otherwise changes nothing |
| Bootstrap.CollectSnoc | src/main/java/vttp/batch5/ssf/revision/bootstrap/Bootstrap.java:66-78 | the same step over rows already split, for any filter predicate |
| Bootstrap.IngestErrSticks | src/main/java/vttp/batch5/ssf/revision/bootstrap/Bootstrap.java:66 | once the lines read so far fail, no further line changes the outcome: no partial list |
| Bootstrap.CollectErrSticks | src/main/java/vttp/batch5/ssf/revision/bootstrap/Bootstrap.java:66 | the same over split rows |
| Bootstrap.IngestSucceedsIff | src/main/java/vttp/batch5/ssf/revision/bootstrap/Bootstrap.java:64-66 | the ingestion succeeds if and only if every considered line splits into at least seven fields |
| Bootstrap.CollectSucceedsIff | src/main/java/vttp/batch5/ssf/revision/bootstrap/Bootstrap.java:66 | collecting succeeds if and only if every row has column 6 |
| Bootstrap.IngestFirstShortRow | src/main/java/vttp/batch5/ssf/revision/bootstrap/Bootstrap.java:66 | on failure, the error names index 6 and the number of fields of the first line that splits into fewer than seven |
| Bootstrap.CollectFirstShortRow | src/main/java/vttp/batch5/ssf/revision/bootstrap/Bootstrap.java:66 | the same over split rows |
| Bootstrap.IngestPicks | src/main/java/vttp/batch5/ssf/revision/bootstrap/Bootstrap.java:63-78 | a successful result is exactly filter-then-map over the lines: customers come from distinct lines in increasing order, each is built from its own row, and a line is chosen if and only if the filter accepts it |
| Bootstrap.CollectPicks | src/main/java/vttp/batch5/ssf/revision/bootstrap/Bootstrap.java:66-78 | the same selection property over split rows, proved by induction |
| Bootstrap.CollectSlicePicks | src/main/java/vttp/batch5/ssf/revision/bootstrap/Bootstrap.java:61-78 | collecting a window of rows selects only from that window, with positions counted in the whole input |
| Bootstrap.SlicePicks | src/main/java/vttp/batch5/ssf/revision/bootstrap/Bootstrap.java:60-78 | ingesting file lines [lo, hi) selects from those file lines only, by file position |
| Bootstrap.DataLinesPicks | src/main/java/vttp/batch5/ssf/revision/bootstrap/Bootstrap.java:92-118 | over the lines after the header, the selection is over file lines 1 onwards, so the header never yields a customer |
| Bootstrap.IngestCountry | src/main/java/vttp/batch5/ssf/revision/bootstrap/Bootstrap.java:66-75 | every customer's country, trimmed and lower-cased, equals the filtered country, and there are never more customers than lines considered |
| Bootstrap.IngestComplete | src/main/java/vttp/batch5/ssf/revision/bootstrap/Bootstrap.java:66-75 | conversely, every considered line whose country matches yields its customer |
| Bootstrap.IngestNoMatch | src/main/java/vttp/batch5/ssf/revision/bootstrap/Bootstrap.java:105-106 | well-formed lines none of which matches give an empty list, not an error |
| Bootstrap.CollectNoMatch | src/main/java/vttp/batch5/ssf/revision/bootstrap/Bootstrap.java:66 | the same over split rows |
| Bootstrap.StreamWindow | src/main/java/vttp/batch5/ssf/revision/bootstrap/Bootstrap.java:61-62 | `skip(1).limit(10)` considers exactly file lines 1 up to 10, counting the header as line 0 |
| Bootstrap.WithStreamSucceedsIff | src/main/java/vttp/batch5/ssf/revision/bootstrap/Bootstrap.java:61-66 | `withStream` succeeds if and only if each of file lines 1 to 10 splits into at least seven fields; later lines cannot make it fail |
| Bootstrap.WithStreamPicks | src/main/java/vttp/batch5/ssf/revision/bootstrap/Bootstrap.java:60-78 | a successful `withStream` result is filter-then-map on Chile over file lines 1 to 10, in order |
| Bootstrap.WithStreamIgnoresRest | src/main/java/vttp/batch5/ssf/revision/bootstrap/Bootstrap.java:62 | lines after the eleventh never affect `withStream` |
| Bootstrap.HeaderOnly | src/main/java/vttp/batch5/ssf/revision/bootstrap/Bootstrap.java:92-96 | an empty file, or one holding only the header, gives an empty list and not an error, in both methods |
| Bootstrap.HeaderIgnored | src/main/java/vttp/batch5/ssf/revision/bootstrap/Bootstrap.java:61 | neither method's result depends on what the first line holds |
| Bootstrap.CustomerLineRoundTrip | src/main/java/vttp/batch5/ssf/revision/bootstrap/Bootstrap.java:64-75 | a customer written as a comma-free line with a non-empty country splits back into a row that maps to the same customer; column 0 is ignored |
| Bootstrap.IngestCustomerLine | src/main/java/vttp/batch5/ssf/revision/bootstrap/Bootstrap.java:64-75 | such a line is ingested as exactly that customer, raw country text included, when its trimmed and lower-cased country matches, and as nothing otherwise |
| Bootstrap.PaddedChileMatches | src/main/java/vttp/batch5/ssf/revision/bootstrap/Bootstrap.java:66 | a country column `" Chile "` passes the Chile filter |
| Bootstrap.EmptyCountryFails | src/main/java/vttp/batch5/ssf/revision/bootstrap/Bootstrap.java:64-66 | a line whose country column is empty loses that column to `split` and fails the whole call |
| JavaString.TrimSpec | src/main/java/vttp/batch5/ssf/revision/bootstrap/Bootstrap.java:66 | `trim` returns a middle part of the string with only blanks cut off around it, and that part neither starts nor ends with a blank |
| JavaString.TrimOf | src/main/java/vttp/batch5/ssf/revision/bootstrap/Bootstrap.java:66 | `trim` of blanks, a trimmed middle and blanks is exactly that middle |
| JavaString.LeadingBlanksSpec | src/main/java/vttp/batch5/ssf/revision/bootstrap/Bootstrap.java:66 | the count of leading blanks covers only blanks and stops at the first non-blank |
| JavaString.TrailingBlanksSpec | src/main/java/vttp/batch5/ssf/revision/bootstrap/Bootstrap.java:66 | the count of trailing blanks covers only blanks and stops at the last non-blank |
| JavaString.ToLowerAt | src/main/java/vttp/batch5/ssf/revision/bootstrap/Bootstrap.java:66 | `toLowerCase` keeps the length and lower-cases each character in place |
| JavaString.LowerCharMatches | src/main/java/vttp/batch5/ssf/revision/bootstrap/Bootstrap.java:66 | a character lower-cases to a non-upper-case character if and only if it is that character or its upper-case form |
| JavaString.ToLowerMatches | src/main/java/vttp/batch5/ssf/revision/bootstrap/Bootstrap.java:66 | a string lower-cases to a word without capitals if and only if it spells that word in any mix of cases |
| JavaString.ToLowerIdempotent | src/main/java/vttp/batch5/ssf/revision/bootstrap/Bootstrap.java:66 | lower-cased text has no capitals, and lower-casing it again changes nothing |
| JavaString.JoinSplitAll | src/main/java/vttp/batch5/ssf/revision/bootstrap/Bootstrap.java:64 | splitting at every comma loses nothing: the fields contain no comma and joined with commas give the line back |
| JavaString.SplitAllJoin | src/main/java/vttp/batch5/ssf/revision/bootstrap/Bootstrap.java:64 | comma-free fields joined with commas split back into the same fields |
| JavaString.DropTrailingEmpty | src/main/java/vttp/batch5/ssf/revision/bootstrap/Bootstrap.java:64 | `split` drops only empty strings, only at the end, and all of them |
| JavaString.SplitJoin | src/main/java/vttp/batch5/ssf/revision/bootstrap/Bootstrap.java:64 | `split(",")` gives back comma-free fields joined with commas when the last field is not empty |
| JavaString.SplitJoinDropsEmptyLast | src/main/java/vttp/batch5/ssf/revision/bootstrap/Bootstrap.java:64 | when the last of two or more fields is empty, `split(",")` returns fewer fields: a prefix of them |
| JavaString.SplitKeeps | src/main/java/vttp/batch5/ssf/revision/bootstrap/Bootstrap.java:64 | `split(",")` of a line with a comma is a prefix of the comma-separated fields, and it is longer than n if and only if some field from position n on is not empty |

## Left out

- `run` (Bootstrap.java:30-50) is not modelled: it is start-up glue that prints the file path, the list and the API key, and catches and prints exceptions.
- Opening and closing the file (`FileReader` and `BufferedReader` in try-with-resources, Bootstrap.java:56-57, 89-90) is I/O. The model takes the file as its lines, already cut at the line terminators, so the splitting done by `lines()` and `readLine()` is not modelled.
- The debug `printf` of `fields[6]` at Bootstrap.java:102 is not modelled as output. Only its `fields[6]` access matters, and the model keeps it as the failure on short lines.
- AppConfig.java is not part of this model: it is Redis connection wiring over library classes.
- TimeController.java and HeathCheckController.java are not part of this model: they are thin HTTP wrappers and a file-existence check.
- The `Customer` class is not part of this model. It is a plain record here, so its setters are the positional constructor `ToCustomer`.
- Locale-dependent and non-ASCII behaviour of `toLowerCase` is not modelled: only `A` to `Z` are lower-cased. `trim` is exact, since Java also cuts characters `<= ' '` only.
- Java's list types (`LinkedList`, the unmodifiable list of `toList`) are modelled as Dafny sequences.
- The exception's Java message text is not modelled: the error keeps only the index and the array length.
- `split(",")` is modelled for the literal comma only. Quoted CSV fields containing commas are split like any other text, as the Java code does.
