# Elections: a verified Dafny model of the election-analysis core

This project models the core of the Elections system, a C++ program that stores
constituency-level election results and computes statistics over them. The model covers:

- the election record, with its identity equality and its ordering;
- the in-memory record store `ElectionData`, a single growable vector of records;
- the aggregation engine `ElectionAnalyzer`:
  - totals and party grouping;
  - election statistics and seat distribution;
  - party rankings, top candidates and winners;
  - the two-year comparison and the party trend;
- the CSV loader `CSVReader`: `split`, `trim`, `stringToInt`, `parseLine`, and the line
  loop of `readFromFile`;
- the HTTP helpers: `urlDecode`, `parseQuery`, `getContentType`, the routing split of
  `handleRequest`, and the `/api/countries` grouping;
- `getAvailableElections`, the country-to-years index of the console program;
- the analyzer scenarios of the test suite, built through the store.

## How the model is organised

- **Modules.** There is one module per source concern:
  - `Records`: `ElectionRecord.h`;
  - `Store`: `ElectionData`;
  - `Statistics`: result types and reference definitions;
  - `Analyzer`: the analyzer's loops;
  - `Sorting`: the bubble sort;
  - `Csv`;
  - `Http`;
  - `Available`: `getAvailableElections`;
  - `Scenarios`: the tests;
  - `Sequences`: generic sequence facts.
- **Imperative code stays imperative.** The store is a class whose `records` field is a
  `seq<Record>`.
  - The analyzer operations, the CSV routines, `urlDecode`, `parseQuery` and
    `getAvailableElections` are methods. Their loops carry the source's accumulators,
    found-flag searches and index updates.
  - Each method is proved equal to a reference function, such as `ElectionOf`,
    `PartyGroups`, `RankedParties`, `Fields`, `Trimmed`, `Decoded`, `Params` or
    `AvailableElections`. The properties the source promises are then proved as lemmas
    about those functions.
- **One shared bubble sort.** All four bubble sorts of the source are one in-place generic
  method, `Sorting.BubbleSortDesc`, on an `array`. It swaps only when `key(a[j]) <
  key(a[j + 1])`. It is proved equal to a functional stable insertion sort,
  `StableSortDesc`. Ties therefore keep first-appearance order, and no name tie-break
  exists.
  - The ascending year sort of `getAvailableElections` is the same sort with the key `-year`.

## Where the model follows the store and not the test file

- **A plain vector, not a keyed store.** tests/test_main.cpp:18-29 uses a keyed store:
  `insertRecord` rejects a duplicate key and `getRecord` looks a record up by key. The store
  of include/ElectionData.h:19-54 has neither; it is a plain vector.
  - `addRecord` appends even a record whose identity key is already stored.
  - The queries are linear filters that keep stored order.
  - The model follows the store. The test scenarios are rebuilt with `AddRecord`.
- **`partyChanges`, not `partyVoteChanges`.** tests/test_main.cpp:186-187 reads a
  `partyVoteChanges` map. `compareElections` produces a `partyChanges` vector in year-1 ranked
  order, and the model follows it.

I/O, clocks and foreign behaviour appear as follows:

- **The CSV file.** It is a parameter `Option<seq<string>>`: `None` when the file cannot be
  opened, otherwise its lines.
- **Hexadecimal escapes.** `std::istringstream >> std::hex` reading of two characters is a
  parameter `extract: string -> Option<char>`. The operations take any reader. The predicate
  `Http.HexReads` states what the stream is known to do: two hex digits give the byte they
  denote, and a first character that is not a hex digit, a sign or white space makes the read
  fail. The lemmas about escapes state their results under it, or under the one answer
  of the reader they need.
- **Bytes.** A `std::string` is a sequence of bytes; the model's `string` stands for it, each
  byte one `char` below 256. The string order of `operator<` compares those bytes as unsigned
  values, and the decoded escape is one such byte. Unicode and text encodings are not modelled.
- **Sockets, files, the console and JSON.** These are not modelled; see "Left out".

## Model

| member | source | states |
|---|---|---|
| Records.DefaultRecord | include/ElectionRecord.h:22 | the default-constructed record has year 0, votes 0, elected false and four empty strings |
| Records.SameKeyIff | include/ElectionRecord.h:32-35 | `==` holds exactly when country, year, constituency and candidate agree; party, votes and elected are ignored |
| Records.SameKeyIsEquivalence | include/ElectionRecord.h:32-35 | `==` is reflexive, symmetric and transitive |
| Records.StrLessIrreflexive | include/ElectionRecord.h:40-41 | the string comparison used by `<` never holds between a string and itself |
| Records.StrLessTransitive | include/ElectionRecord.h:40-41 | the lexicographic string comparison is transitive |
| Records.StrLessTotal | include/ElectionRecord.h:40-41 | any two different strings are ordered one way or the other |
| Records.StrLessAsymmetric | include/ElectionRecord.h:40-41 | the string comparison never holds in both directions |
| Records.LessIrreflexive | include/ElectionRecord.h:38-43 | no record is `<` itself, since `votes > votes` is false |
| Records.LessTransitive | include/ElectionRecord.h:38-43 | `<` (year, then country, then constituency, then votes descending) is transitive |
| Records.LessIgnoresCandidatePartyElected | include/ElectionRecord.h:38-43 | records that differ only in candidate, party or elected are mutually non-`<` |
| Records.EqualKeysOrderedByVotes | include/ElectionRecord.h:38-43 | between records with the same identity key, `<` means strictly more votes |
| Records.ElectionOfMembers | src/ElectionData.cpp:9-20 | an election query holds exactly the stored records of that country and year |
| Records.ElectionOfAppend | src/ElectionData.cpp:13-17 | step helper, an unfolding of the definition: one more stored record extends the query exactly when it matches, at the end |
| Records.WithPartyMembers | src/ElectionAnalyzer.cpp:37-57 | a party's records are exactly the election's records naming that party |
| Records.ElectedOfMembers | src/ElectionAnalyzer.cpp:187-191 | the elected selection holds exactly the records with elected set |
| Records.SeatCountIsElectedCount | src/ElectionAnalyzer.cpp:20-24 | counting seats one per elected record gives the number of elected records |
| Records.DistinctPartiesMembers | src/ElectionAnalyzer.cpp:37-57 | the first-appearance party list has no repeats and names exactly the parties of the records |
| Records.DistinctPartyHasRecords | src/ElectionAnalyzer.cpp:37-65 | every listed party has at least one record |
| Records.WithPartyAbsent | src/ElectionAnalyzer.cpp:228-240 | a party not in the list has no records, so the search leaves its votes and seats at 0 |
| Records.DistinctPartiesAppend | src/ElectionAnalyzer.cpp:39-57 | a new record adds its party at the end exactly when the party is new |
| Store.ElectionData.constructor | include/ElectionData.h:19-22 | a new store is empty |
| Store.ElectionData.AddRecord | src/ElectionData.cpp:4-6 | the record is appended unconditionally: the count grows by one, earlier records are unchanged, and a duplicate key is stored as well |
| Store.ElectionData.GetElectionRecords | src/ElectionData.cpp:9-20 | the scan loop returns the country-and-year filter of the store, in stored order |
| Store.ElectionData.GetPartyRecords | src/ElectionData.cpp:23-34 | the scan loop returns the country, year and party filter of the store, in stored order |
| Store.PartyOfMembers | src/ElectionData.cpp:23-34 | a party query holds exactly the stored records of that country, year and party |
| Store.PartyOfIsElectionFilteredByParty | src/ElectionData.cpp:23-34 | a party query is the election query filtered by party, a subsequence in the same order |
| Store.ElectionData.GetTotalRecords | src/ElectionData.cpp:37-39 | the count is the length of the stored sequence |
| Store.ElectionData.GetAllRecords | src/ElectionData.cpp:42-44 | the whole sequence is returned and the store is not changed |
| Store.ElectionData.Clear | src/ElectionData.cpp:47-49 | the store is empty afterwards and every election query is empty |
| Analyzer.CalculateTotalVotes | src/ElectionAnalyzer.cpp:4-13 | the accumulator loop gives the sum of votes over the election query |
| Analyzer.CalculateTotalSeats | src/ElectionAnalyzer.cpp:16-27 | the counting loop gives the number of elected records of the election |
| Analyzer.GroupByParty | src/ElectionAnalyzer.cpp:37-65 | the grouping loop gives one entry per party in first-appearance order with its vote sum, elected count and record count |
| Analyzer.GroupRecord | src/ElectionAnalyzer.cpp:39-64 | one pass of the grouping loop, with its index search and the zeroed entry for a new party, adds one record to the grouping |
| Analyzer.GroupStep | src/ElectionAnalyzer.cpp:52-64 | tallying into the found entry, or into a zeroed entry appended for a new party, gives the grouping of the longer sequence |
| Analyzer.CalculatePartyVoteShares | src/ElectionAnalyzer.cpp:30-87 | the grouping followed by the in-place bubble sort gives the stable ranking by total votes |
| Analyzer.UniqueConstituencies | src/ElectionAnalyzer.cpp:101-115 | the found-flag loop keeps each constituency name once, in first-appearance order; its length is the number of distinct names |
| Analyzer.CalculateElectionStats | src/ElectionAnalyzer.cpp:90-120 | totals, seats, candidate count (the record count), distinct constituency count and the ranked party list of the election |
| Analyzer.GetSeatDistribution | src/ElectionAnalyzer.cpp:123-150 | the loop gives the seat table of the elected records |
| Analyzer.CountSeat | src/ElectionAnalyzer.cpp:127-146 | an elected record adds a seat to its party's entry or appends a one-seat entry; others change nothing |
| Analyzer.RankPartiesByVotes | src/ElectionAnalyzer.cpp:153-155 | the same ranking as the vote-share list |
| Analyzer.GetTopCandidates | src/ElectionAnalyzer.cpp:158-180 | the election's records, stably bubble-sorted by votes, cut to the first n (none for n <= 0, all when n exceeds the count) |
| Analyzer.GetWinningCandidates | src/ElectionAnalyzer.cpp:183-205 | the elected records, stably bubble-sorted by votes |
| Analyzer.FindParty | src/ElectionAnalyzer.cpp:233-240 | the found-flag search over a party list finds a party exactly when it stood, and then returns its totals; otherwise its totals are zero |
| Analyzer.CompareParty | src/ElectionAnalyzer.cpp:224-250 | one year-1 party gives its vote and seat change to year 2, and is flagged gone exactly when absent in year 2 |
| Analyzer.ChangesAndDisappeared | src/ElectionAnalyzer.cpp:223-251 | one change per year-1 party in year-1 ranked order, and the year-1 parties absent in year 2 |
| Analyzer.NewParties | src/ElectionAnalyzer.cpp:254-268 | the year-2 parties, in year-2 ranked order, that did not stand in year 1 |
| Analyzer.CompareElections | src/ElectionAnalyzer.cpp:208-271 | the comparison: vote-total difference, per-party changes, new and disappeared parties |
| Analyzer.GetPartyTrend | src/ElectionAnalyzer.cpp:274-292 | for each requested year in order, the party's ranked entry of that year when it stood |
| Statistics.PartyGroups | src/ElectionAnalyzer.cpp:37-65 | the grouping has one entry per distinct party, entry i holding the totals of the i-th party to appear |
| Statistics.StatsOfAppend | src/ElectionAnalyzer.cpp:59-63 | a record adds its votes, one candidate and its seat to its own party's totals only |
| Statistics.PartyGroupsAppendKnown | src/ElectionAnalyzer.cpp:42-63 | a record of a listed party updates that entry in place and nothing else |
| Statistics.PartyGroupsAppendNew | src/ElectionAnalyzer.cpp:51-63 | a record of a new party appends one entry holding only that record |
| Statistics.PartyGroupsNames | src/ElectionAnalyzer.cpp:37-65 | the grouping names the parties in first-appearance order, each once |
| Statistics.PartyGroupsSums | src/ElectionAnalyzer.cpp:37-65 | across the entries, votes, seats and candidates sum to the election's totals and record count |
| Statistics.RankedPartiesSums | src/ElectionAnalyzer.cpp:30-87 | the ranked list keeps those sums |
| Statistics.RankedPartiesOrder | src/ElectionAnalyzer.cpp:74-84 | the ranked list is non-increasing by total votes, a permutation of the grouping, and keeps first-appearance order among equal totals |
| Statistics.RankedPartiesEntries | src/ElectionAnalyzer.cpp:30-87 | every ranked entry holds its party's true totals, and the list names exactly the election's parties, each once |
| Statistics.RankedDescribes | src/ElectionAnalyzer.cpp:30-87 | the ranked list describes the election: one correct entry per party that stood |
| Statistics.ElectionStatsOf | src/ElectionAnalyzer.cpp:99-115 | the candidate count is the record count and the constituency count the number of distinct names |
| Statistics.ConstituencyCount | src/ElectionAnalyzer.cpp:101-115 | the number of distinct constituency names |
| Statistics.SeatDistributionProperties | src/ElectionAnalyzer.cpp:123-150 | only parties with an elected record appear, each once in first-appearance order, each with at least one seat equal to its elected count; the seats sum to the total seats |
| Statistics.SeatDistributionAppend | src/ElectionAnalyzer.cpp:128-146 | an elected record increments its party's entry found by the search, or appends one seat; others leave the table unchanged |
| Statistics.TopCount | src/ElectionAnalyzer.cpp:174-177 | the number kept is 0 for n <= 0, n when fewer than the records, otherwise all |
| Statistics.TopCandidatesProperties | src/ElectionAnalyzer.cpp:158-180 | the result is sorted by votes, drawn from the election, led by a maximum, and no record left out has more votes than one kept |
| Statistics.SortedCut | src/ElectionAnalyzer.cpp:173-177 | a prefix of a sorted rearrangement is sorted, a sub-multiset, and dominates what was cut off |
| Statistics.WinnersProperties | src/ElectionAnalyzer.cpp:183-205 | exactly the elected records, one per seat, non-increasing by votes, ties in stored order |
| Statistics.Absent | src/ElectionAnalyzer.cpp:248-250 | the names of a list whose party did not stand in the other election |
| Statistics.AbsentNoDup | src/ElectionAnalyzer.cpp:248-266 | the new and disappeared lists have no repeats |
| Statistics.Changes | src/ElectionAnalyzer.cpp:223-246 | one change per named party, in order, counting 0 for an election where it did not stand |
| Statistics.ChangeOfMissing | src/ElectionAnalyzer.cpp:229-245 | a party absent in year 2 loses all its year-1 votes and seats |
| Statistics.ChangesFacts | src/ElectionAnalyzer.cpp:223-251 | the changes follow year-1 ranked order, one per year-1 party, without repeats, and an absent party loses everything |
| Statistics.ComparisonChanges | src/ElectionAnalyzer.cpp:208-251 | the comparison's party changes have those properties |
| Statistics.ComparisonNewAndDisappeared | src/ElectionAnalyzer.cpp:248-268 | new parties are exactly those of year 2 only, disappeared exactly those of year 1 only, without repeats |
| Statistics.TrendOfAppend | src/ElectionAnalyzer.cpp:277-289 | step helper, an unfolding of the definition: one more requested year adds that year's entry at the end exactly when the party stood |
| Statistics.TrendOfProperties | src/ElectionAnalyzer.cpp:274-292 | at most one entry per requested year, each a requested year with the party's true totals, and every year in which it stood appears |
| Sorting.BubbleSortDesc | src/ElectionAnalyzer.cpp:74-84 | the in-place bubble sort leaves the stable non-increasing-by-key rearrangement of the array (signed outer bound) |
| Sorting.BubblePass | src/ElectionAnalyzer.cpp:76-83 | one inner pass is the sequence of compare-and-swaps up to the unsorted bound |
| Sorting.CompareAndSwap | src/ElectionAnalyzer.cpp:77-82 | swap a pair exactly when the first has the strictly smaller key |
| Sorting.PassProperties | src/ElectionAnalyzer.cpp:76-83 | a pass settles one more maximal-position element and keeps every key class in order |
| Sorting.SortUpToProperties | src/ElectionAnalyzer.cpp:75-84 | after i passes the last i positions are settled and each key class keeps its order |
| Sorting.SortUpToIsStableSort | src/ElectionAnalyzer.cpp:75-84 | n - 1 passes produce the stable sort |
| Sorting.StableSortDescProperties | src/ElectionAnalyzer.cpp:74-84 | the stable sort is non-increasing, a permutation, and keeps each key class in input order |
| Sorting.StableSortCharacterization | src/ElectionAnalyzer.cpp:74-84 | any sorted sequence keeping each key class in input order is the stable sort |
| Sorting.SortedUnique | src/ElectionAnalyzer.cpp:74-84 | two sorted sequences with the same key classes are equal |
| Sorting.StableSortDescSum | src/ElectionAnalyzer.cpp:74-84 | sorting keeps any sum over the elements |
| Sorting.SizeSub | src/ElectionAnalyzer.cpp:75 | `size_t` subtraction wraps to 2^64 - (b - a) below zero |
| Sorting.EmptyVectorEntersSortAsWritten | src/ElectionAnalyzer.cpp:75-77 | on an empty vector the as-written loop tests admit i = j = 0, so `v[0]` and `v[1]` are compared |
| Sorting.SortBoundsAgreeWhenNonEmpty | src/ElectionAnalyzer.cpp:75-76 | on a non-empty vector the as-written unsigned tests equal the signed bounds of the corrected sort |
| Sequences.DedupProperties | src/ElectionAnalyzer.cpp:102-114 | the first-appearance list has no repeats and contains exactly the elements of the input |
| Sequences.DedupAppend | src/main.cpp:73-83 | step helper, an unfolding of the definition: one more element is appended exactly when it is not yet listed |
| Sequences.DedupMember | src/main.cpp:73-83 | an element is listed exactly when it occurs |
| Sequences.DedupCardinality | src/ElectionAnalyzer.cpp:115 | the list's length is the number of distinct elements |
| Sequences.SumOfConcat | src/ElectionAnalyzer.cpp:8-10 | a sum over a concatenation is the sum of the sums |
| Sequences.SumOfUpdate | src/ElectionAnalyzer.cpp:59-63 | updating one element changes a sum by its difference |
| Sequences.SortedElementsProperties | src/HTTPServer.cpp:115-123 | the ascending listing of a set holds each element once, in strictly ascending order |
| Sequences.AscendingUnique | src/HTTPServer.cpp:115-123 | two strictly ascending sequences with the same elements are equal |
| Csv.Split | src/CSVReader.cpp:58-73 | the token loop yields the delimiter-separated fields: one more token than delimiters |
| Csv.Fields | src/CSVReader.cpp:58-73 | there is one more field than occurrences of the delimiter |
| Csv.FieldsHaveNoDelimiter | src/CSVReader.cpp:58-73 | no token contains the delimiter |
| Csv.JoinFields | src/CSVReader.cpp:58-73 | joining the tokens with the delimiter gives back the string |
| Csv.FieldsJoin | src/CSVReader.cpp:58-73 | splitting a join of delimiter-free tokens gives back the tokens |
| Csv.Trim | src/CSVReader.cpp:76-95 | the two index loops remove leading and trailing space, tab, CR and LF |
| Csv.TrimmedIsSlice | src/CSVReader.cpp:76-95 | the result is a contiguous substring of the input |
| Csv.TrimmedEnds | src/CSVReader.cpp:81-94 | a non-empty result neither starts nor ends with whitespace |
| Csv.TrimmedAllSpace | src/CSVReader.cpp:81-86 | an all-whitespace or empty input gives the empty string |
| Csv.TrimmedUnchanged | src/CSVReader.cpp:81-94 | a string is unchanged exactly when it is empty or has no whitespace at either end |
| Csv.TrimmedIdempotent | src/CSVReader.cpp:76-95 | trimming twice is trimming once |
| Csv.StringToInt | src/CSVReader.cpp:98-106 | the accumulator loop gives the decimal value of the digits, never negative |
| Csv.IntValueOfDigits | src/CSVReader.cpp:98-106 | non-digit characters are ignored: the value is that of the digit subsequence |
| Csv.IntValueNoDigits | src/CSVReader.cpp:98-106 | a string without digits gives 0 |
| Csv.IntValueOfDecimal | src/CSVReader.cpp:98-106 | the decimal numeral of n reads back as n |
| Csv.ParseLine | src/CSVReader.cpp:37-55 | fields 0-6 are the trimmed tokens, year and votes read as digits; elected exactly when the seventh token is "Yes", "yes" or "YES" |
| Csv.ParseFormatLine | src/CSVReader.cpp:37-55 | a record written as a plain CSV line parses back to itself |
| Csv.ParsedFromFields | src/CSVReader.cpp:38-52 | a line's record is built from its seven trimmed tokens |
| Csv.LoadFormattedLines | src/CSVReader.cpp:13-30 | a header followed by the formatted records loads back exactly those records |
| Csv.RecordsOfLines | src/CSVReader.cpp:22-29 | non-empty parsable lines give their parsed records, one each, in order |
| Csv.LoadStep | src/CSVReader.cpp:15-29 | the first line and empty lines add nothing; any other line adds its parsed record at the end |
| Csv.LoadedAll | src/CSVReader.cpp:13-30 | the loop's records once every line is read are the loaded records of the file |
| Csv.ParseAndAdd | src/CSVReader.cpp:28-29 | the parsed record is appended to the store |
| Csv.ReadFromLines | src/CSVReader.cpp:6-34 | a file that cannot be opened gives false and leaves the store alone; otherwise true, and the loaded records are appended in order |
| Http.UrlDecode | src/HTTPServer.cpp:39-58 | the index loop gives the left-to-right decoding of the string |
| Http.DecodedWithoutEscapes | src/HTTPServer.cpp:51-55 | without '%', decoding only replaces '+' by a space |
| Http.DecodedIdentity | src/HTTPServer.cpp:51-55 | a string with neither '%' nor '+' decodes to itself |
| Http.DecodedEscape | src/HTTPServer.cpp:42-47 | '%' and two hex digits become the byte they denote, consuming all three characters |
| Http.DecodedShortEscape | src/HTTPServer.cpp:42-54 | a case of the definition, stated on its own: a '%' with fewer than two characters after it is copied |
| Http.DecodedFailedEscape | src/HTTPServer.cpp:43-50 | a case of the definition, stated on its own: a '%' whose two following characters cannot be read as hex is copied, and decoding resumes after it |
| Http.FirstIndex | src/HTTPServer.cpp:67 | the position of the first occurrence, or the length when there is none |
| Http.ParseQuery | src/HTTPServer.cpp:60-75 | the getline loop gives the map of the '&'-separated pieces that contain '=' |
| Http.ParamsKeys | src/HTTPServer.cpp:65-71 | the keys are exactly the decoded keys of pieces containing '=' |
| Http.ParamsLastWins | src/HTTPServer.cpp:65-71 | a key holds the value of the last piece that sets it |
| Http.ParamsFirstEquals | src/HTTPServer.cpp:67-70 | illustration: the split is at the first '=': "a=b=c" sets a to "b=c" |
| Http.ContentTypeOfSuffix | src/HTTPServer.cpp:79-90 | a path ending in a listed suffix gets that suffix's type |
| Http.ContentTypePlain | src/HTTPServer.cpp:79-90 | "text/plain" is given exactly to paths with none of the suffixes |
| Http.ContentTypeCaseSensitive | src/HTTPServer.cpp:79-90 | illustration: the suffix test is case-sensitive |
| Http.RouteOfApi | src/HTTPServer.cpp:224-227 | an "/api/" path splits at the first '?' into endpoint and query, the query empty when there is no '?' |
| Http.RouteOfStatic | src/HTTPServer.cpp:242 | a case of the definition, stated on its own: any other path is served as a file, "/" as "/index.html" |
| Http.RouteOfKind | src/HTTPServer.cpp:224-242 | a path is served as a static file exactly when it does not start with "/api/", and the file served is never "/" itself |
| Http.HexReadsEscape | src/HTTPServer.cpp:42-47 | under the stream's rules, '%' and two hex digits become the byte they denote, consuming all three characters |
| Http.HexReadsNonHex | src/HTTPServer.cpp:42-50 | under the stream's rules, a '%' followed by a character that cannot begin a number is copied, and decoding resumes after the '%' |
| Http.NonHexEscapeCopied | src/HTTPServer.cpp:42-50 | illustration: under the stream's rules, "%zz" decodes to itself |
| Http.DigitPairReaderReads | src/HTTPServer.cpp:44-45 | a reader obeying the stream's known rules exists |
| Http.CountryYears | src/HTTPServer.cpp:108-111 | the collecting loop gives each country's set of years |
| Http.CountryYearsProperties | src/HTTPServer.cpp:108-111 | the keys are the countries of the records, each holding exactly its records' years |
| Http.ListingProperties | src/HTTPServer.cpp:115-126 | the listing names each key once in ascending order, each with its years ascending |
| Http.CountryListingProperties | src/HTTPServer.cpp:106-127 | `/api/countries` lists each country once, in ascending order, with its distinct years ascending |
| Available.ContainsYear | src/main.cpp:73-79 | the found-flag scan is true exactly when the year is listed |
| Available.SortYears | src/main.cpp:88-97 | one year list is bubble-sorted in place into the stable ascending order |
| Available.SortLists | src/main.cpp:86-98 | every list of the map is sorted and no key is added or removed |
| Available.GetAvailableElections | src/main.cpp:59-101 | the collecting loop, then the sorting loop, give the reference year index |
| Available.YearListsProperties | src/main.cpp:63-84 | before sorting, the keys are the countries of the records and each list holds its distinct years in first-appearance order |
| Available.SortYearsProperties | src/main.cpp:86-98 | sorting a repeat-free list keeps its years, once each, in strictly ascending order |
| Available.AvailableProperties | src/main.cpp:63-98 | exactly the record countries are keys; each list is non-empty, repeat-free, strictly ascending, holds exactly its country's years, and is a permutation of the pre-sort list |
| Available.AvailableBoundsSafe | src/main.cpp:89 | no list is empty, so the unsigned `years.size() - 1` equals the signed bound |
| Available.AvailableMatchesCountryYears | src/main.cpp:59-101 | each sorted list is the ascending listing of the `/api/countries` year set of that country |
| Scenarios.QueryScenario | tests/test_main.cpp:67-84 | two 2020 records and one 2021 record give queries of 2 and 1; a duplicate key is stored too; after clearing, the query is empty |
| Scenarios.PartyQueryScenario | tests/test_main.cpp:89-105 | Party1 holds two of the three records and Party2 one |
| Scenarios.TotalsValues | tests/test_main.cpp:115-123 | the statistics records hold 4500 votes and 2 seats |
| Scenarios.StatisticsValues | tests/test_main.cpp:125-129 | the statistics: 3 candidates in 3 constituencies |
| Scenarios.StatisticsScenario | tests/test_main.cpp:110-132 | through the store and the analyzer: 4500 votes, 2 seats, 3 candidates, 3 constituencies |
| Scenarios.PartyStatsValues | tests/test_main.cpp:148-157 | Party1 holds 3000 votes, 2 seats and 2 candidates; Party2 1500 votes in 1 |
| Scenarios.SharesValues | tests/test_main.cpp:137-160 | the ranked vote-share list is Party1 then Party2 |
| Scenarios.SharesScenario | tests/test_main.cpp:137-164 | through the analyzer: two entries, Party1 first with total votes no lower than Party2's |
| Scenarios.ComparisonValues | tests/test_main.cpp:169-188 | vote change 2000, each 2020 party +500 votes and no seat change, Party3 the one new party, none disappeared |
| Scenarios.ComparisonScenario | tests/test_main.cpp:169-191 | the comparison through the store and the analyzer gives those values |

## Left out

- The floating-point fields are not modelled:
  - `voteShare` (src/ElectionAnalyzer.cpp:66-72);
  - `voteChangePercent` (src/ElectionAnalyzer.cpp:218-220), which is also left uninitialised when year 1 has no votes;
  - `turnout`, which is never assigned.
  `PartyStats`, `ElectionStats` and `ComparativeAnalysis` carry every other field.
- 32-bit `int` overflow in the vote sums, in `stringToInt` and in the counters is not modelled. Integers are unbounded.
- Csv.StringToInt: states the unbounded decimal value. The source's 32-bit accumulator overflows on long digit strings.
- Opening and closing the file in `readFromFile` (src/CSVReader.cpp:7-10, 32) is I/O. The file is the parameter `Option<seq<string>>` of Csv.ReadFromLines, split into lines by the caller, as `std::getline` would.
- Csv.ParseLine requires at least six commas. With fewer tokens the source indexes past the end of the token vector, which is undefined behaviour, so no result can be stated.
- Csv.ReadFromLines requires every non-empty line after the header to have at least six commas, because it calls Csv.ParseLine. A file holding a shorter line, such as a lone "\r" left by CRLF line ends, is outside its contract.
- Analyzer.CalculateElectionStats, Analyzer.RankPartiesByVotes, Analyzer.CompareElections and Analyzer.GetPartyTrend reach the sort of `calculatePartyVoteShares` (src/ElectionAnalyzer.cpp:117, 154, 214-215, 278). For an election with no records, the source's sort there has undefined behaviour (see "Findings"). For those inputs the model gives the corrected sort's result: an empty ranking, the comparison of empty party lists, or the year left out of the trend.
- Http.UrlDecode takes `std::istringstream >> std::hex` as the parameter `extract`. Partial escapes such as "%4G" or "% 4" depend on stream rules that are not part of this model, so `Http.HexReads` leaves them open. It fixes only two hex digits, and a first character that cannot begin a number.
- The socket server loop, WSA start-up, `readFile`, and the HTTP response text and status lines are network and file I/O (src/HTTPServer.cpp:24-37, 93-100, 228-263, 266-316).
- The request-line tokenisation `iss >> method >> path >> version` (src/HTTPServer.cpp:213-215) is not modelled. Http.RouteOf takes the path.
- The JSON bodies of `handleAPIRequest` are not modelled: only the `/api/countries` grouping and its listing order are. The other endpoints are double formatting plus `std::stoi`, which can throw.
- The console menus and display functions of src/main.cpp, other than `getAvailableElections`, are console I/O. So are src/main_web.cpp and the browser front end web/app.js.
- The test file's `insertRecord`, `updateRecord`, `getRecord` and `partyVoteChanges` do not exist in the store or the analyzer, so they are not modelled. The scenarios use `AddRecord` and `partyChanges`.
- Available.SortLists visits the keys in an arbitrary order, not in the map's ascending order. Each list is sorted on its own, so the order does not change the result.
- The bubble sort is one shared generic method. The analyzer and `getAvailableElections` call it instead of repeating the nested loops inline.
- Analyzer.GroupRecord, Analyzer.CountSeat and Analyzer.CompareParty hold the body of one loop iteration each. The loops they come from call them once per record or party.

## Findings

| source | as written | input that shows it | evidently intended | confidence | as-written member | corrected member |
|---|---|---|---|---|---|---|
| src/ElectionAnalyzer.cpp:75 (also 162, 194) | the bubble-sort bounds `i < v.size() - 1` and `j < v.size() - i - 1` are computed on the unsigned `size_t`, so for an empty vector they wrap to 2^64 - 1; the first pass then reads `v[0]` and `v[1]` of an empty vector | an election with no records: `calculatePartyVoteShares` or `getTopCandidates` for an unknown country or year, or `getWinningCandidates` for an election with no elected record; through `calculatePartyVoteShares` also `calculateElectionStats` (line 117), `rankPartiesByVotes` (line 154), `compareElections` when either year has no records (lines 214-215), and `getPartyTrend` for a requested year with no records (line 278) | the sort does nothing on an empty vector (a signed bound, or an early return) | not executed | Sorting.EmptyVectorEntersSortAsWritten | Sorting.BubbleSortDesc |
