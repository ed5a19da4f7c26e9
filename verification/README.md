# razzies-api in Dafny

A model of the logic inside the razzies-api service. The service reads the
Golden Raspberry "worst picture" list from a CSV file into a movie table. It
then reports the producers with the shortest and the longest gap between two
consecutive wins. Three pieces of the service are modelled as pure functions
over sequences and maps, and their properties are proved:

- **The award-interval use case** (`GetProducersWithAwardIntervalsUseCase`),
  in module `AwardIntervals`. It groups the years of the winning movies by
  producer name, keeping one year per mention. It sorts each producer's
  years and emits one `ProducerInterval` per pair of neighbouring years. It
  then keeps the intervals equal to the global minimum (`min`) and to the
  global maximum (`max`). The `HashMap`'s iteration order is a parameter
  `order`: any duplicate-free enumeration of the grouped producers.
- **The persistence adapter** (`WinningMovieRepositoryAdapter`), in modules
  `ProducerNames` and `RepositoryAdapter`. `parseProducers` does the
  following:
  - trims the text;
  - strips one pair of surrounding quotes;
  - splits on the regex `,|\s+and\s+`;
  - trims each piece and drops the empty ones.

  A trimmed text that is a lone `"` makes `substring(1, 0)` throw. That is
  modelled as the error `StringIndexOutOfBounds(1, 0, 1)`, which
  `convertToDomain` and `findAll` pass on. `findByWinnerTrueOrderByYearAsc`
  is modelled as "the winning rows, sorted by year".
- **The CSV import** (both `LoaderCSVToDatabase` classes, which hold the same
  rule), in module `CsvLoader`. The import does nothing when the table
  already holds movies. Otherwise it:
  - skips the first line;
  - splits each further line on `;`, keeping empty fields;
  - keeps a line only when it has at least five fields and its first field
    is a Java `int`;
  - takes title, studios and producers raw;
  - sets `winner` when the trimmed fifth field equals `yes`, ignoring case.

`JavaText` writes out the Java library behaviour these rely on:
- `String.trim` removes every character up to U+0020;
- `\s` is `[ \t\n\x0B\f\r]`;
- `split` on one character with limit -1;
- `Integer.parseInt`, including its 32-bit range;
- `equalsIgnoreCase` against `"yes"`, which also accepts U+017F for `s`.

`Seqs`, `Results` and `Wrappers` hold generic helpers: filter, flat-map,
permutations, insertion sort, mapping with the first failure, and Option and
Result.

What the code reads from outside becomes a parameter:
- `AwardIntervals.Execute` takes the list of winning movies, `movies`. It
  stands for what `winningMovieRepositoryPort.findAll()` returns
  (GetProducersWithAwardIntervalsUseCase.java line 19). The model does not
  compose `RepositoryAdapter.FindAll` with `Execute`. `FindAll` produces such
  a list from the table rows.
- `AwardIntervals.Execute` also takes `order`, the iteration order of the
  `HashMap`.
- `RepositoryAdapter.FindAll` takes the table contents, `rows`.
- `CsvLoader.LoadData` takes `storedCount`, the result of
  `movieRepository.count()`.
- `CsvLoader.LoadData` also takes `fileLines`, the lines of the CSV file.

## Model

| member | source | states |
|---|---|---|
| AwardIntervals.GroupYearsByProducer | src/main/java/com/renatoschlogel/razziesapi/domain/usecases/GetProducersWithAwardIntervalsUseCase.java:42-52 | the keys are exactly the producer names mentioned by some movie; each value is sorted and is a permutation of the years of the movies mentioning that producer, one entry per mention |
| AwardIntervals.AddMovieYears | src/main/java/com/renatoschlogel/razziesapi/domain/usecases/GetProducersWithAwardIntervalsUseCase.java:45-47 | handling one movie appends its year to a producer's list once per occurrence of the name in the movie's producer list, and touches no other list |
| AwardIntervals.CollectFromYears | src/main/java/com/renatoschlogel/razziesapi/domain/usecases/GetProducersWithAwardIntervalsUseCase.java:44-48 | after the loop a producer's list is its earlier list followed by the years of the mentioning movies in movie order, duplicates kept |
| AwardIntervals.CollectFromKeys | src/main/java/com/renatoschlogel/razziesapi/domain/usecases/GetProducersWithAwardIntervalsUseCase.java:44-48 | `computeIfAbsent` creates a key exactly for the names that occur in some movie |
| AwardIntervals.GroupedYearsAreSortedWins | src/main/java/com/renatoschlogel/razziesapi/domain/usecases/GetProducersWithAwardIntervalsUseCase.java:50 | a listed producer's value is exactly the ascending sort of the producer's win years |
| AwardIntervals.GroupingOrderIndependent | src/main/java/com/renatoschlogel/razziesapi/domain/usecases/GetProducersWithAwardIntervalsUseCase.java:42-52 | the same movies in any other order give the same grouped map, because each list is sorted |
| AwardIntervals.YearsMeanListed | src/main/java/com/renatoschlogel/razziesapi/domain/usecases/GetProducersWithAwardIntervalsUseCase.java:44-47 | a producer has a year in the map only when some movie lists the producer |
| AwardIntervals.PairIntervals | src/main/java/com/renatoschlogel/razziesapi/domain/usecases/GetProducersWithAwardIntervalsUseCase.java:59-65 | fewer than two years give no interval; n years give exactly n-1, the i-th being years i and i+1 and their difference |
| AwardIntervals.PairIntervalsShape | src/main/java/com/renatoschlogel/razziesapi/domain/usecases/GetProducersWithAwardIntervalsUseCase.java:59-64 | each interval is its following year minus its previous year; each following year is the next interval's previous year; they run from the first year to the last; none is negative on a sorted list |
| AwardIntervals.PairIntervalsLoop | src/main/java/com/renatoschlogel/razziesapi/domain/usecases/GetProducersWithAwardIntervalsUseCase.java:59-65 | the inner index loop builds exactly the list of neighbouring pairs |
| AwardIntervals.CalculateIntervalsLoop | src/main/java/com/renatoschlogel/razziesapi/domain/usecases/GetProducersWithAwardIntervalsUseCase.java:54-69 | the loop over the map entries builds every producer's pairs, in visiting order |
| AwardIntervals.CalculateIntervalsMembers | src/main/java/com/renatoschlogel/razziesapi/domain/usecases/GetProducersWithAwardIntervalsUseCase.java:54-69 | an interval is in the result exactly when its producer is visited and it is one of that producer's neighbouring pairs |
| AwardIntervals.ProducerContribution | src/main/java/com/renatoschlogel/razziesapi/domain/usecases/GetProducersWithAwardIntervalsUseCase.java:56-66 | the intervals of one producer in the full list are that producer's pairs, unchanged and in order, or none when the producer is not visited |
| AwardIntervals.IntervalsNonNegative | src/main/java/com/renatoschlogel/razziesapi/domain/usecases/GetProducersWithAwardIntervalsUseCase.java:58-64 | with sorted year lists every computed interval has previousWin <= followingWin and interval = followingWin - previousWin >= 0 |
| AwardIntervals.IntervalsOrderIndependent | src/main/java/com/renatoschlogel/razziesapi/domain/usecases/GetProducersWithAwardIntervalsUseCase.java:56 | any two iteration orders of the map give the same multiset of intervals |
| AwardIntervals.RepeatedYearPair | src/main/java/com/renatoschlogel/razziesapi/domain/usecases/GetProducersWithAwardIntervalsUseCase.java:59-64 | a year that occurs twice in a sorted list gives a zero interval from that year to itself |
| AwardIntervals.RepeatedYearGivesZero | src/main/java/com/renatoschlogel/razziesapi/domain/usecases/GetProducersWithAwardIntervalsUseCase.java:44-64 | a producer mentioned twice for the same year, by two movies or twice in one list, gets a zero interval for that year: duplicates are kept, not removed |
| AwardIntervals.MinInterval | src/main/java/com/renatoschlogel/razziesapi/domain/usecases/GetProducersWithAwardIntervalsUseCase.java:27-30 | the minimum is the interval of some element and no element is smaller |
| AwardIntervals.MaxInterval | src/main/java/com/renatoschlogel/razziesapi/domain/usecases/GetProducersWithAwardIntervalsUseCase.java:31-34 | the maximum is the interval of some element and no element is larger |
| AwardIntervals.FilterByValue | src/main/java/com/renatoschlogel/razziesapi/domain/usecases/GetProducersWithAwardIntervalsUseCase.java:71-75 | the result is an order-preserving subsequence that holds every element with the given value, as often as it occurs, and nothing else |
| AwardIntervals.FilterByValueIsFilter | src/main/java/com/renatoschlogel/razziesapi/domain/usecases/GetProducersWithAwardIntervalsUseCase.java:72-74 | it is the generic stream filter with the predicate `interval == value` |
| AwardIntervals.MinCohort | src/main/java/com/renatoschlogel/razziesapi/domain/usecases/GetProducersWithAwardIntervalsUseCase.java:27-36 | filtering by the minimum keeps exactly the intervals that no other interval undercuts |
| AwardIntervals.MaxCohort | src/main/java/com/renatoschlogel/razziesapi/domain/usecases/GetProducersWithAwardIntervalsUseCase.java:31-37 | filtering by the maximum keeps exactly the intervals that no other interval exceeds |
| AwardIntervals.Report | src/main/java/com/renatoschlogel/razziesapi/domain/usecases/GetProducersWithAwardIntervalsUseCase.java:23-39 | no intervals give empty `min` and `max`; otherwise both are subsequences of the list, holding exactly the minimal and the maximal intervals with their multiplicities |
| AwardIntervals.ReportMinOfPermutation | src/main/java/com/renatoschlogel/razziesapi/domain/usecases/GetProducersWithAwardIntervalsUseCase.java:27-36 | a permuted interval list gives the same `min` cohort as a multiset |
| AwardIntervals.ReportMaxOfPermutation | src/main/java/com/renatoschlogel/razziesapi/domain/usecases/GetProducersWithAwardIntervalsUseCase.java:31-37 | a permuted interval list gives the same `max` cohort as a multiset |
| AwardIntervals.Execute | src/main/java/com/renatoschlogel/razziesapi/domain/usecases/GetProducersWithAwardIntervalsUseCase.java:18-40 | the whole use case: empty cohorts when no producer has two wins; otherwise the minimal and the maximal intervals of all producers, each a subsequence of the computed list |
| AwardIntervals.ExecuteAllEqual | src/main/java/com/renatoschlogel/razziesapi/domain/usecases/GetProducersWithAwardIntervalsUseCase.java:36-37 | when all intervals have one value, `min` and `max` are the same list |
| AwardIntervals.ExecuteOrderIndependent | src/main/java/com/renatoschlogel/razziesapi/domain/usecases/GetProducersWithAwardIntervalsUseCase.java:18-40 | the movies in any order and the map in any iteration order give the same `min` and `max` as multisets |
| AwardIntervals.Sub32 | src/main/java/com/renatoschlogel/razziesapi/domain/usecases/GetProducersWithAwardIntervalsUseCase.java:63 | Java `int` subtraction: the result lies in the 32-bit range and is congruent to the exact difference modulo 2^32 |
| AwardIntervals.PairIntervalsAsWritten | src/main/java/com/renatoschlogel/razziesapi/domain/usecases/GetProducersWithAwardIntervalsUseCase.java:59-65 | the pairing loop as the code runs it: n years give n-1 intervals, the i-th for years i and i+1 with the interval their 32-bit `int` difference |
| AwardIntervals.AsWrittenNegativeInterval | src/main/java/com/renatoschlogel/razziesapi/domain/usecases/GetProducersWithAwardIntervalsUseCase.java:63 | the sorted years -2147483648 and 2147483647 give the interval -1 |
| AwardIntervals.AsWrittenAgreesInRange | src/main/java/com/renatoschlogel/razziesapi/domain/usecases/GetProducersWithAwardIntervalsUseCase.java:63 | when every neighbouring difference fits in an `int`, the 32-bit loop and the exact model agree |
| ProducerNames.Unquote | src/main/java/com/renatoschlogel/razziesapi/infra/db/WinningMovieRepositoryAdapter.java:37-39 | it fails exactly on a lone `"`; otherwise it returns the text unchanged, or the text with its quotes removed when the text is that text quoted |
| ProducerNames.UnquoteQuote | src/main/java/com/renatoschlogel/razziesapi/infra/db/WinningMovieRepositoryAdapter.java:37-39 | exactly one surrounding pair of quotes is removed and inner quotes survive: unquoting a quoted text gives back that text |
| ProducerNames.UnquoteUnquoted | src/main/java/com/renatoschlogel/razziesapi/infra/db/WinningMovieRepositoryAdapter.java:37-39 | text that does not both start and end with a quote is left alone |
| ProducerNames.MatchIsDelimiter | src/main/java/com/renatoschlogel/razziesapi/infra/db/WinningMovieRepositoryAdapter.java:45 | every match found is a comma, or whitespace then `and` then whitespace |
| ProducerNames.SplitSpansScan | src/main/java/com/renatoschlogel/razziesapi/infra/db/WinningMovieRepositoryAdapter.java:45 | the scan cuts the text exactly at the regex matches: the pieces contain no match start and the gaps between them are matches |
| ProducerNames.ParseProducers | src/main/java/com/renatoschlogel/razziesapi/infra/db/WinningMovieRepositoryAdapter.java:35-50 | it fails exactly when the trimmed text is a lone `"`; every returned name is non-empty, trimmed, and holds neither a comma nor whitespace-`and`-whitespace |
| ProducerNames.SplitNamesAreNames | src/main/java/com/renatoschlogel/razziesapi/infra/db/WinningMovieRepositoryAdapter.java:45-49 | the split, trim and filter pipeline yields only well-formed names |
| ProducerNames.ParseProducersBlank | src/main/java/com/renatoschlogel/razziesapi/infra/db/WinningMovieRepositoryAdapter.java:36-43 | text that is blank, or just `""` after trimming, gives the empty list |
| ProducerNames.ParseProducersUndelimited | src/main/java/com/renatoschlogel/razziesapi/infra/db/WinningMovieRepositoryAdapter.java:45-49 | unquoted text with no delimiter gives just its trimmed self, or nothing when it is blank |
| ProducerNames.DropTrailingEmptyIrrelevant | src/main/java/com/renatoschlogel/razziesapi/infra/db/WinningMovieRepositoryAdapter.java:45-48 | `split` dropping the trailing empty pieces changes nothing, since empty pieces are filtered out anyway |
| ProducerNames.ParseProducersRoundTrip | src/main/java/com/renatoschlogel/razziesapi/infra/db/WinningMovieRepositoryAdapter.java:35-50 | any list of well-formed names, written as a quoted, comma-separated column, parses back to exactly that list: no name is lost, split, merged or reordered |
| ProducerNames.SplitNamesJoined | src/main/java/com/renatoschlogel/razziesapi/infra/db/WinningMovieRepositoryAdapter.java:45-49 | well-formed names joined by commas split, trim and filter back into exactly those names |
| ProducerNames.SplitNamesSeparated | src/main/java/com/renatoschlogel/razziesapi/infra/db/WinningMovieRepositoryAdapter.java:45-49 | well-formed names written with `,`, `, ` or ` and ` between them split, trim and filter back into exactly those names, provided no name before ` and ` ends in the word `and` and no name after `, ` starts with it |
| ProducerNames.ParseProducersSeparated | src/main/java/com/renatoschlogel/razziesapi/infra/db/WinningMovieRepositoryAdapter.java:35-50 | such a list, quoted, parses back to exactly its names: the regex's `\s+and\s+` branch separates names just as the comma does |
| ProducerNames.ParseProducersAnd | src/main/java/com/renatoschlogel/razziesapi/infra/db/WinningMovieRepositoryAdapter.java:35-50 | the quoted text `"A and B"` gives the two names A and B, for well-formed names where A's last word is not `and` |
| ProducerNames.ParseProducersListed | src/main/java/com/renatoschlogel/razziesapi/infra/db/WinningMovieRepositoryAdapter.java:35-50 | the quoted text `"A, B and C"` gives the three names A, B and C, for a well-formed B whose first and last words are not `and` |
| ProducerNames.ParseProducersUnquoted | src/main/java/com/renatoschlogel/razziesapi/infra/db/WinningMovieRepositoryAdapter.java:35-50 | the same list written without quotes, as the file holds it, parses back to exactly its names, unless the text both starts and ends with `"` |
| ProducerNames.QuotedEndsStripped | src/main/java/com/renatoschlogel/razziesapi/infra/db/WinningMovieRepositoryAdapter.java:36-49 | that exception is needed: the names `"X` and `Y"` joined by a comma are the text `"X,Y"`, whose quotes come off, giving `X` and `Y` |
| ProducerNames.ParseProducersAndUnquoted | src/main/java/com/renatoschlogel/razziesapi/infra/db/WinningMovieRepositoryAdapter.java:35-50 | `A and B` without quotes gives the two names A and B, for well-formed names where A's last word is not `and` and the text is not wrapped in `"` |
| ProducerNames.ParseProducersListedUnquoted | src/main/java/com/renatoschlogel/razziesapi/infra/db/WinningMovieRepositoryAdapter.java:35-50 | the column's usual form `A, B and C`, without quotes, gives the three names A, B and C, for a well-formed B whose first and last words are not `and` and text not wrapped in `"` |
| ProducerNames.AndWordNameSplitsEarly | src/main/java/com/renatoschlogel/razziesapi/infra/db/WinningMovieRepositoryAdapter.java:45 | the side condition is needed: with the name `X and` before ` and B`, the regex matches at the name's own `and`, giving `X` and `and B` |
| ProducerNames.NoMatchBeforeAnd | src/main/java/com/renatoschlogel/razziesapi/infra/db/WinningMovieRepositoryAdapter.java:45 | inside a well-formed name followed by ` and `, the regex finds no match unless the name's last word is `and` |
| ProducerNames.NoMatchInside | src/main/java/com/renatoschlogel/razziesapi/infra/db/WinningMovieRepositoryAdapter.java:45 | inside a well-formed name that ends at a comma or the end of the text, the regex finds no match |
| ProducerNames.SplitNamesInOrder | src/main/java/com/renatoschlogel/razziesapi/infra/db/WinningMovieRepositoryAdapter.java:45-49 | each name occurs in the unquoted text at a recorded position, and each occurrence ends before the next one begins |
| ProducerNames.ParseProducersInOrder | src/main/java/com/renatoschlogel/razziesapi/infra/db/WinningMovieRepositoryAdapter.java:45-49 | the returned names appear in the unquoted text left to right, without overlapping |
| RepositoryAdapter.ConvertToDomain | src/main/java/com/renatoschlogel/razziesapi/infra/db/WinningMovieRepositoryAdapter.java:27-33 | year and title are copied and producers are the parsed names; it fails exactly when parsing the producers fails |
| RepositoryAdapter.WinnersByYear | src/main/java/com/renatoschlogel/razziesapi/infra/db/WinningMovieRepositoryAdapter.java:21 | the query result is sorted by year and holds each winning row as often as the table does, and no other row |
| RepositoryAdapter.FindAll | src/main/java/com/renatoschlogel/razziesapi/infra/db/WinningMovieRepositoryAdapter.java:19-25 | it fails exactly when some winning row's producers are a lone quote; otherwise it returns one movie per winning row, the i-th being the converted i-th row of the year-ordered query result, so the movies come out in ascending year order |
| RepositoryAdapter.FindAllFromWinningRows | src/main/java/com/renatoschlogel/razziesapi/infra/db/WinningMovieRepositoryAdapter.java:19-25 | every returned movie comes from a winning row, with that row's year and title and its parsed producers |
| RepositoryAdapter.FindAllTieOrder | src/main/java/com/renatoschlogel/razziesapi/infra/db/WinningMovieRepositoryAdapter.java:21-24 | any other order of the winning rows converts to the same movies as a multiset |
| Results.MapResult | src/main/java/com/renatoschlogel/razziesapi/infra/db/WinningMovieRepositoryAdapter.java:22-24 | mapping succeeds exactly when every element converts, and then it gives each converted element in order |
| Results.MapResultFirstFailure | src/main/java/com/renatoschlogel/razziesapi/infra/db/WinningMovieRepositoryAdapter.java:22-24 | a failed mapping reports the exception of an element that fails |
| JavaText.Trim | src/main/java/com/renatoschlogel/razziesapi/infra/db/WinningMovieRepositoryAdapter.java:36 | the result has no character up to U+0020 at either end, and it is empty exactly when the text is all such characters |
| JavaText.TrimPadded | src/main/java/com/renatoschlogel/razziesapi/infra/db/WinningMovieRepositoryAdapter.java:47 | trimming a trimmed text padded with blanks gives back that text |
| JavaText.Split | src/main/java/com/renatoschlogel/razziesapi/infra/db/config/LoaderCSVToDatabase.java:47 | there is always at least one field, and no field contains the delimiter |
| JavaText.SplitCount | src/main/java/com/renatoschlogel/razziesapi/infra/db/config/LoaderCSVToDatabase.java:47 | with limit -1 there is one field more than the delimiter occurs, so trailing empty fields are kept |
| JavaText.JoinSplit | src/main/java/com/renatoschlogel/razziesapi/infra/db/config/LoaderCSVToDatabase.java:47 | joining the fields with the delimiter gives back the line |
| JavaText.SplitJoin | src/main/java/com/renatoschlogel/razziesapi/infra/db/config/LoaderCSVToDatabase.java:47 | fields without the delimiter, joined and split again, come back unchanged |
| JavaText.ParseInt | src/main/java/com/renatoschlogel/razziesapi/infra/db/config/LoaderCSVToDatabase.java:50 | a text is accepted exactly when it is an optional `+` or `-` followed by at least one ASCII digit and nothing else, and its value lies in the 32-bit range; the result is that value |
| JavaText.ParseIntPlus | src/main/java/com/renatoschlogel/razziesapi/infra/db/config/LoaderCSVToDatabase.java:50 | a leading `+` before digits is accepted and does not change the year |
| JavaText.ParseIntLeadingZero | src/main/java/com/renatoschlogel/razziesapi/infra/db/config/LoaderCSVToDatabase.java:50 | leading zeros are accepted and do not change the year |
| JavaText.ParseIntRejects | src/main/java/com/renatoschlogel/razziesapi/infra/db/config/LoaderCSVToDatabase.java:50 | a sign on its own, a first character that is neither a digit nor a sign, or a non-digit after the first character (a blank, a letter, a decimal point) makes the year unreadable |
| JavaText.ParseShowInt | src/main/java/com/renatoschlogel/razziesapi/infra/db/config/LoaderCSVToDatabase.java:50 | every `int` written in decimal parses back to itself |
| JavaText.IsYes | src/main/java/com/renatoschlogel/razziesapi/infra/db/config/LoaderCSVToDatabase.java:54 | the text equals `yes` ignoring case exactly when it has three characters that are y/Y, e/E and s/S/U+017F |
| CsvLoader.ParseFields | src/main/java/com/renatoschlogel/razziesapi/infra/db/config/LoaderCSVToDatabase.java:48-56 | a row comes out exactly when there are at least five fields and the first is a Java `int`; the row's year is the value of the first field's decimal text, title, studios and producers are fields two to four unchanged, and `winner` says whether the trimmed fifth field is `yes` |
| CsvLoader.ParseLine | src/main/java/com/renatoschlogel/razziesapi/infra/db/config/LoaderCSVToDatabase.java:47-59 | a line gives a row exactly when its `;`-split has at least five fields and a parsable first field; title, studios and producers never contain `;` |
| CsvLoader.ParseFieldsOfRow | src/main/java/com/renatoschlogel/razziesapi/infra/db/config/LoaderCSVToDatabase.java:50-54 | the year text, raw title, studios and producers, and flag read back as that row, whatever fields follow the fifth |
| CsvLoader.ParseLineOfRow | src/main/java/com/renatoschlogel/razziesapi/infra/db/config/LoaderCSVToDatabase.java:47-54 | a row written out as a `;`-joined line, with any extra fields, reads back as the same row, with `winner` from the trimmed fifth field |
| CsvLoader.LineOfParsedRow | src/main/java/com/renatoschlogel/razziesapi/infra/db/config/LoaderCSVToDatabase.java:47-54 | a line that gives a row is that row's year text, raw title, studios and producers, and flag, joined by `;` and followed by any further fields; no field holds a `;`, so `winner` comes from the fifth field and no later one |
| CsvLoader.ReadLine | src/main/java/com/renatoschlogel/razziesapi/infra/db/config/LoaderCSVToDatabase.java:47-59 | a line gives a row exactly when its `;`-split has at least five fields and the first is the decimal text of a 32-bit int; the row holds that value, fields two to four unchanged, and whether the trimmed fifth field is `yes`; this agrees with ParseLine |
| CsvLoader.RowsOf | src/main/java/com/renatoschlogel/razziesapi/infra/db/config/LoaderCSVToDatabase.java:48-59 | a line adds at most one row, and adds it exactly when the line parses to it |
| CsvLoader.AcceptedRowsAppend | src/main/java/com/renatoschlogel/razziesapi/infra/db/config/LoaderCSVToDatabase.java:46-56 | rows are collected in line order: the rows of two runs of lines are the first run's rows followed by the second's |
| CsvLoader.MalformedLineSkipped | src/main/java/com/renatoschlogel/razziesapi/infra/db/config/LoaderCSVToDatabase.java:57-59 | a line that gives no row is skipped without disturbing the rows of the lines around it |
| CsvLoader.AcceptedRowsMembers | src/main/java/com/renatoschlogel/razziesapi/infra/db/config/LoaderCSVToDatabase.java:46-56 | a row is collected exactly when some line parses to it |
| CsvLoader.Body | src/main/java/com/renatoschlogel/razziesapi/infra/db/config/LoaderCSVToDatabase.java:46 | `skip(1)` keeps every line but the first, in order |
| CsvLoader.LoadData | src/main/java/com/renatoschlogel/razziesapi/infra/db/config/LoaderCSVToDatabase.java:36-63 | nothing is imported exactly when the table already holds movies; otherwise the saved rows are the accepted rows of the lines after the header, in line order, fewer than the file has lines |
| CsvLoader.LoadDataMembers | src/main/java/com/renatoschlogel/razziesapi/infra/db/config/LoaderCSVToDatabase.java:46-63 | a row is saved exactly when some line after the first parses to it |
| CsvLoader.HeaderSkipped | src/main/java/com/renatoschlogel/razziesapi/infra/db/config/LoaderCSVToDatabase.java:46 | whatever the first line holds, it never affects what is saved |
| CsvLoader.LoadDataLoop | src/main/java/com/renatoschlogel/razziesapi/infra/db/config/LoaderCSVToDatabase.java:36-63 | the guard plus the line-by-line loop that adds each accepted row to the batch saves exactly the accepted rows, in line order |

## Left out

- The HTTP layer is not modelled: `WorstMoviesController`, the DTO records and the OpenAPI configuration only route requests and copy fields.
- JPA is not modelled. The movie table is a sequence of `MovieEntity` rows passed in, and `count() > 0` is the parameter `storedCount`. `saveAll` is the `Imported` outcome.
- RepositoryAdapter.WinnersByYear: it sorts stably, keeping table order among rows of the same year. The database promises no order among them. Instead, FindAllTieOrder and ExecuteOrderIndependent show that any tie order gives the same cohorts as multisets.
- AwardIntervals.ExecuteOrderIndependent: it compares `min` and `max` as multisets and not as lists. The order across producers comes from `HashMap` iteration, which Java leaves unspecified, so only within-producer order is fixed.
- The file is read through `BufferedReader.lines()`. The model starts from the sequence of lines, so line terminators and the resource lookup are not modelled.
- The two loader classes differ only in the file path, the log text and the bean wiring, so one `CsvLoader` model serves both. The table cites `infra/db/config/LoaderCSVToDatabase.java`. In `config/LoaderCSVToDatabase.java` the same code sits at lines 29-32 (guard), 39 (header skip), 40-49 (row rule), 50-52 (skip on a bad year) and 56 (save).
- Logging, `@Transactional`, and the `RuntimeException` that wraps I/O failures are not modelled.
- JavaText.ParseInt: it accepts ASCII digits only. `Integer.parseInt` also accepts other Unicode decimal digits, which would give a row for a year written in, say, Arabic-Indic digits.
- JavaText.IsYes: it follows `equalsIgnoreCase` for the three letters of `yes`. Those letters have no other case variants besides U+017F, which the model includes.
- Null fields are not modelled. Every column is `nullable = false`, and `split` never yields null.
- ProducerNames.ParseProducers: its own contract states only the failure case and the shape of the names. Completeness is stated by ParseProducersUnquoted for unquoted text and by ParseProducersSeparated for quoted text, for names separated by `,`, `, ` or ` and `. Other spacing around a separator, such as two spaces or a space before a comma, is handled by the model but has no round-trip lemma.
- AwardIntervals.PairIntervals: it computes intervals with unbounded integers. See Findings for the 32-bit version the code actually runs.

## Findings

| source | as written | input that shows it | evidently intended | confidence | as-written member | corrected member |
|---|---|---|---|---|---|---|
| src/main/java/com/renatoschlogel/razziesapi/domain/usecases/GetProducersWithAwardIntervalsUseCase.java:63 | `int interval = followingWin - previousWin;` wraps around modulo 2^32 | the CSV accepts any `int` year, so a producer winning in -2147483648 and in 2147483647 gets the interval -1 between sorted years | the exact difference, never negative on sorted years | not executed; low impact, since real award years are close together | AwardIntervals.PairIntervalsAsWritten, AwardIntervals.AsWrittenNegativeInterval | AwardIntervals.PairIntervals, AwardIntervals.PairIntervalsShape |
