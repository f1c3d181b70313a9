# Airport assessment core, modelled in Dafny

The program reads three CSV exports: countries, airports and runways. It
answers two questions about them:

* **Top ten.** Which countries have the most airports? `calcMostAirports`
  counts the airport rows per country code. `reverseOrderMapByIntegerValue`
  sorts the counts, largest first. `printAirportRanking` lists the first ten,
  numbered from 1.
* **Runways of a country.** Which runways does each airport of a given
  country have? `queryRunwaysFromCountry` looks the country up by exact code
  or by name, ignoring case. It then collects that country's airports (id to
  name). If there are none, it stops before the runways file. Otherwise it
  groups the runway ids under their airport ids.

Every file is read with the same idiom. The header line is split on commas,
and the wanted columns are found by their quoted names (`"code"`, `"name"`,
`"iso_country"`, `"id"`, `"airport_ref"`). Each data line is split on commas
again. The field at a column's index is then trimmed, and one quote is
stripped from each end.

A file is a `seq<string>` of lines, with the header at index 0. A failure is
an `Err` of `Csv.Error`:

* `NoHeader`: the file has no lines, where the iterator's first `next()` fails.
* `MissingColumn`: a column name is absent from the header, where the source
  throws `IllegalArgumentException`.
* `ShortRow(l)`: data line `l` has too few fields for a column index, where
  the array index is out of bounds.
* `NoMatch(q)`: the country lookup fails.

The first failure ends the operation, as the exception does in the source.

Modules:

* `Text`: Java's `String.split(",")`, `trim()`, the `^"|"$` strip, and ASCII
  `equalsIgnoreCase`.
* `Csv`: header lookup, field and record reading, and the reading of all
  data lines with its error cases.
* `AirportCounter`: `calcMostAirports`. It builds the insertion-ordered
  country table, seeds each code with 0, and counts the airport rows.
* `CountryResolver`: the country lookup of `queryRunwaysFromCountry`,
  including the check after its loop.
* `RunwayQuery`: the airport filter, the runway grouping and the whole query.
* `Ranking`: the sort and the limited listing, plus the top-ten report.

The loops of the source are methods with loop invariants. Each is proved
equal to a function over the records it reads, and the lemmas state what
those functions mean.

Two behaviours of the source are modelled as written:

* **Name match on the last row.** After the lookup loop, the source checks
  `!queriedCountry.equals(codeRow) && !iterator.hasNext()`. A country found
  by name alone on the last data row is therefore reported as not found
  (`CountryResolver.ScanLastRowByName`). A code match is found anywhere
  (`CountryResolver.ScanCodeMatch`).
* **Shared runway lists.** `airportRunways.replace(runway, runwayList)` runs
  with the runway id as the key. When a runway id is also an airport id, that
  key then holds the same list object as the airport. `RunwayQuery.Groups`
  records which list each key holds. `RunwayQuery.ReplaceShares` states the
  sharing. `RunwayQuery.GroupUnshared` and `RunwayQuery.QueryReport` give
  the plain per-airport lists when no runway id is an airport id.

## Model

| member | source | states |
|---|---|---|
| Text.JoinPieces | src/main/java/com/dattue/airport/Main.java:257 | the comma pieces of a line joined back with commas give the line |
| Text.PiecesJoin | src/main/java/com/dattue/airport/Main.java:257 | splitting comma-free pieces joined with commas gives back those pieces |
| Text.DropTrailingEmptySpec | src/main/java/com/dattue/airport/Main.java:257 | `split` drops only trailing empty strings, and the kept part ends in a non-empty one |
| Text.SplitSpec | src/main/java/com/dattue/airport/Main.java:257 | `split(",")` is a prefix of the comma pieces; what is cut off is empty; no field holds a comma; a line without a comma is one field |
| Text.TrimSpec | src/main/java/com/dattue/airport/Main.java:257 | `trim()` is the slice between the leading and trailing characters `<= ' '`, and starts and ends with a character above `' '` |
| Text.TrimPadded | src/main/java/com/dattue/airport/Main.java:257 | trimming removes exactly the whitespace padding around a trimmed value |
| Text.EndQuote | src/main/java/com/dattue/airport/Main.java:257 | the `"$` match is the one quote followed only by the end of input, by one final line terminator, or by a final `\r\n`; it is -1 exactly when no such quote exists |
| Text.StripQuotesSpec | src/main/java/com/dattue/airport/Main.java:257 | `replaceAll("^\"\|\"$", "")` leaves a value alone where neither anchor matches, removes one quote at each end of a quoted value, and removes a lone leading or trailing quote by itself |
| Text.OneSidedQuotes | src/main/java/com/dattue/airport/Main.java:257 | `"ES` and `ES"` both read as `ES` |
| Text.QuotedField | src/main/java/com/dattue/airport/Main.java:257 | a quoted value with whitespace padding reads back as the value itself |
| Text.UnquotedField | src/main/java/com/dattue/airport/Main.java:257 | a field without quotes reads as its trimmed text |
| Csv.IndexOf | src/main/java/com/dattue/airport/Main.java:246 | `indexOf` is -1 exactly when the name is absent, and otherwise the first position holding it |
| Csv.Columns | src/main/java/com/dattue/airport/Main.java:244-252 | no header line fails with `NoHeader`; a header lacking a column fails with `MissingColumn`; otherwise one index per column |
| Csv.ColumnsFound | src/main/java/com/dattue/airport/Main.java:246-252 | the columns are found iff the file has a header and every name is one of its fields, and each index points at its name |
| Csv.Field | src/main/java/com/dattue/airport/Main.java:257 | a field exists iff its index is below the number of split fields |
| Csv.Record | src/main/java/com/dattue/airport/Main.java:257-258 | a line yields a record iff every column index is in range, with one value per column |
| Csv.Gather | src/main/java/com/dattue/airport/Main.java:254-261 | reading the rows either yields one record per row or fails on a row number that exists |
| Csv.RecordPair | src/main/java/com/dattue/airport/Main.java:334-335 | reading two columns gives the two fields in column order, or nothing if either is past the split |
| Csv.RecordTriple | src/main/java/com/dattue/airport/Main.java:373-375 | reading three columns gives the three fields in column order, or nothing if any is past the split |
| Csv.GatherOk | src/main/java/com/dattue/airport/Main.java:254-261 | reading succeeds iff every row is complete, and then yields the records in file order |
| Csv.GatherFirstMissing | src/main/java/com/dattue/airport/Main.java:254-258 | a failed read names the first short row, and every earlier row is complete |
| Csv.ReadOk | src/main/java/com/dattue/airport/Main.java:254-261 | past a good header, reading a file succeeds iff every data line is complete |
| Csv.ReadRecords | src/main/java/com/dattue/airport/Main.java:254-261 | a successful read gives, for each data line in order, its normalised fields |
| Csv.ReadFirstShortRow | src/main/java/com/dattue/airport/Main.java:254-258 | a failed read past the header names a data line that is short, and every earlier data line is complete |
| Csv.MissingColumnFirst | src/main/java/com/dattue/airport/Main.java:249-252 | a missing column fails the read whatever the data lines hold |
| AirportCounter.Put | src/main/java/com/dattue/airport/Main.java:260 | `LinkedHashMap.put` keeps the key order free of duplicates |
| AirportCounter.TableKeys | src/main/java/com/dattue/airport/Main.java:254-261 | the country table's keys are exactly the codes read |
| AirportCounter.TableNames | src/main/java/com/dattue/airport/Main.java:260 | each code maps to the name on the last row carrying it |
| AirportCounter.Seed | src/main/java/com/dattue/airport/Main.java:269-270 | every country code starts at 0, and nothing else is a key |
| AirportCounter.Bump | src/main/java/com/dattue/airport/Main.java:291-293 | counting a row never adds or removes a key |
| AirportCounter.CountStep | src/main/java/com/dattue/airport/Main.java:291-293 | one more row adds one to its code's count if the code is known, and changes nothing else |
| AirportCounter.TallyCounts | src/main/java/com/dattue/airport/Main.java:286-294 | after all rows, each known code's count is its number of occurrences |
| AirportCounter.LoadCountries | src/main/java/com/dattue/airport/Main.java:239-261 | the countries loop builds the table from the records read, or fails as the read fails |
| AirportCounter.CountRows | src/main/java/com/dattue/airport/Main.java:286-294 | the airport loop computes the tally of the codes read, or fails as the read fails |
| AirportCounter.CountAirports | src/main/java/com/dattue/airport/Main.java:269-294 | seed then count: the tally over the table's keys, or the airport file's error |
| AirportCounter.CalcMostAirports | src/main/java/com/dattue/airport/Main.java:236-302 | a countries failure comes first; otherwise it succeeds iff the airports read; the keys are exactly the country codes, each counting its airport rows |
| AirportCounter.SumOfCounts | src/main/java/com/dattue/airport/Main.java:286-294 | the counts add up to the airport rows with a known code, so at most the number of rows |
| AirportCounter.UnknownCodeIgnored | src/main/java/com/dattue/airport/Main.java:291 | a row whose code is not a country changes no count |
| CountryResolver.Scan | src/main/java/com/dattue/airport/Main.java:331-346 | a found country lies on a row at or after the start of the scan |
| CountryResolver.ScanFound | src/main/java/com/dattue/airport/Main.java:331-346 | a successful scan stops on a matching row after passing over non-matching complete rows |
| CountryResolver.ScanFailed | src/main/java/com/dattue/airport/Main.java:331-346 | a failed scan either stops at a short row or passes every row up to the last, which matches by name alone or not at all |
| CountryResolver.ScanCodeMatch | src/main/java/com/dattue/airport/Main.java:337-346 | the first row matching by code is found, even on the last line |
| CountryResolver.ScanNameMatch | src/main/java/com/dattue/airport/Main.java:337-346 | the first row matching by name, ignoring case, is found if it is not the last row |
| CountryResolver.ScanLastRowByName | src/main/java/com/dattue/airport/Main.java:343-346 | a match by name alone on the last data row is reported as no match |
| CountryResolver.ScanNoRowMatches | src/main/java/com/dattue/airport/Main.java:343-346 | with no matching row, the lookup fails naming the query |
| CountryResolver.ScanShortRow | src/main/java/com/dattue/airport/Main.java:334-335 | a short row met before any match fails the lookup at that row |
| CountryResolver.ResolveFirstMatch | src/main/java/com/dattue/airport/Main.java:313-341 | a found country is the first row, in file order, matching the trimmed and unquoted query |
| CountryResolver.ResolveFailure | src/main/java/com/dattue/airport/Main.java:331-346 | a failed lookup is a short row before any match, or no match with only the last row matching by name |
| CountryResolver.ResolveIgnoresLaterRows | src/main/java/com/dattue/airport/Main.java:337-339 | the lookup stops at the match: lines after it do not change the result |
| CountryResolver.ScanCountries | src/main/java/com/dattue/airport/Main.java:331-346 | the loop with `codeRow`, `countryRow` and the iterator computes the scan |
| CountryResolver.ResolveCountry | src/main/java/com/dattue/airport/Main.java:313-346 | the lookup method computes the normalised query's resolution |
| RunwayQuery.AirportKeys | src/main/java/com/dattue/airport/Main.java:370-381 | the airport map's keys are exactly the ids of the rows of the country's code |
| RunwayQuery.AirportLastName | src/main/java/com/dattue/airport/Main.java:377-379 | an id maps to the name on its last row for that country |
| RunwayQuery.AirportStep | src/main/java/com/dattue/airport/Main.java:377-379 | a row of the country puts its id and name, and any other row changes nothing |
| RunwayQuery.FilterRows | src/main/java/com/dattue/airport/Main.java:370-381 | the airport loop computes the filtered map, or the read's failure |
| RunwayQuery.FilterAirports | src/main/java/com/dattue/airport/Main.java:355-381 | header, then loop: the filtered map of the airports read, or the failure |
| RunwayQuery.Fresh | src/main/java/com/dattue/airport/Main.java:394-395 | one new list per airport id |
| RunwayQuery.Add | src/main/java/com/dattue/airport/Main.java:417-422 | one runway row keeps every airport id a key holding one list |
| RunwayQuery.ReplaceShares | src/main/java/com/dattue/airport/Main.java:419-421 | a runway id that is an airport id ends up holding the airport's list, with the runway appended |
| RunwayQuery.GroupStep | src/main/java/com/dattue/airport/Main.java:411-423 | the lists after one more row are one `Add` away from those before it |
| RunwayQuery.GroupUnshared | src/main/java/com/dattue/airport/Main.java:411-423 | while no runway id is an airport id, no list is shared and each airport's list holds its runways in file order |
| RunwayQuery.GroupedRunways | src/main/java/com/dattue/airport/Main.java:430-434 | in that case, `get(id)` gives each airport's runways in file order |
| RunwayQuery.GroupRows | src/main/java/com/dattue/airport/Main.java:411-423 | the runway loop computes the grouped lists, or the read's failure |
| RunwayQuery.GroupRunways | src/main/java/com/dattue/airport/Main.java:394-423 | header, then loop: the grouped lists of the runways read, or the failure |
| RunwayQuery.QueryRunwaysFromCountry | src/main/java/com/dattue/airport/Main.java:310-436 | the method computes the query: lookup, airport filter, empty check, then runways, with the first failure final |
| RunwayQuery.AirportsEmpty | src/main/java/com/dattue/airport/Main.java:388 | no airport is collected iff no row carries the code |
| RunwayQuery.NoAirportsWhenNoRow | src/main/java/com/dattue/airport/Main.java:370-392 | the query reports no airports iff no airport row carries the found country's code |
| RunwayQuery.NoAirportsSkipsRunways | src/main/java/com/dattue/airport/Main.java:388-392 | a country without airports gives the same report whatever the runways file holds |
| RunwayQuery.QueryReport | src/main/java/com/dattue/airport/Main.java:370-434 | a full report names the found country, lists its airports, and gives each exactly one runway list, which holds its runways in file order when no list is shared |
| Ranking.InsertPermutes | src/main/java/com/dattue/airport/Main.java:212 | inserting an entry adds exactly that entry |
| Ranking.InsertSorted | src/main/java/com/dattue/airport/Main.java:212 | inserting into a non-increasing sequence keeps it non-increasing |
| Ranking.SortPermutes | src/main/java/com/dattue/airport/Main.java:212 | the sort is a permutation of its input |
| Ranking.SortSorted | src/main/java/com/dattue/airport/Main.java:212 | the sort puts larger counts first |
| Ranking.PermutedEntries | src/main/java/com/dattue/airport/Main.java:212-213 | a permutation of a map's entries still lists each entry once |
| Ranking.EntrySet | src/main/java/com/dattue/airport/Main.java:212 | `entrySet()` lists every entry of the map exactly once |
| Ranking.ReverseOrderByValue | src/main/java/com/dattue/airport/Main.java:211-214 | the result lists every entry of the map exactly once, with values non-increasing |
| Ranking.EntriesDistinct | src/main/java/com/dattue/airport/Main.java:212-213 | the entries of a map name each key once |
| Ranking.PrintRanking | src/main/java/com/dattue/airport/Main.java:216-228 | it prints min(limit, size) lines, none if the limit is below 1; line j is numbered j + 1 and shows the j-th entry |
| Ranking.RankedLines | src/main/java/com/dattue/airport/Main.java:216-228 | printing the first n sorted entries gives min(n, size) lines numbered from 1 with distinct keys and non-increasing counts, and no entry left out counts more than the last line |
| Ranking.Top | src/main/java/com/dattue/airport/Main.java:63 | sorting and then printing the first `limit` entries ranks the map as above |
| Ranking.RankedCounts | src/main/java/com/dattue/airport/Main.java:61-63 | in terms of the country codes and the airport rows: at most ten lines, distinct codes, as many as min(10, number of codes), true counts, and no unlisted country with more airports than the tenth |
| Ranking.TopTen | src/main/java/com/dattue/airport/Main.java:61-63 | the report succeeds iff both files read. It has min(10, number of distinct country codes) lines numbered from 1, with distinct codes, each with its true airport count, counts non-increasing. Any country left out has at most the tenth line's count |

## Left out

- `main`, `interactiveMode`, `askForFile` and `pullUpFile` are not modelled. They cover command-line handling, prompts and path checks. Each file reaches the model as its sequence of lines.
- File I/O is not modelled. `Files.lines`, `IOException`, the messages on standard error and the process exit are outside the model.
- Printed output is not modelled. The report wording and `List.toString` are left out. The model returns the values that would be printed (`Ranking.Line`, `RunwayQuery.Report`).
- Text.EqualsIgnoreCase: folds ASCII letters only. Java's `equalsIgnoreCase` also folds other Unicode letters.
- Ranking.EntrySet: a `HashMap` iterates in an order that depends on hashing. The model lets it be any order. For tied counts, the ranking is therefore proved only to be some non-increasing arrangement of the entries, not one particular arrangement. The stable sort itself is modelled (`Ranking.SortDescending`).
- Ties in the ranking follow the code. A tie-break by the countries' insertion order does not hold, because `calcMostAirports` returns a `HashMap` built from the key set, and that map forgets the insertion order.
- RunwayQuery.FilterAirports: the airport map is a `HashMap`, so the order in which the report lists the airports is not modelled. The report holds the map itself.
- AirportCounter.Bump: counts are unbounded. A Java `int` could overflow past 2^31 - 1 airports, which cannot occur for real files.
- RunwayQuery.Groups: models the list objects by the key each list was created for, rather than as heap objects. Only aliasing through `replace` can occur here, and this captures it.
- Lines are taken as given: the model does not split a file into lines.
