# UN voting-record scrapers in Dafny

This project models the text and sequence rules of two small scrapers of the
UN Digital Library:

- `UN_parse.py` collects per-country General Assembly votes. It covers:
  - listing pagination per year;
  - label lookup on each resolution's detail page (`find_info`);
  - the sentinel-year date filter (`date_handler`);
  - parsing of the vote block, one text chunk per country, with vote code, case folding (`transform_country_name`), alias renaming (`country_rename`) and the country-registry check;
  - the split of the year range between parallel workers, and the merge of their lists;
  - the final `dropna`.
- `UN_veto_parse.py` reads the Security Council veto table. It covers:
  - topic shortening (`topic_cutter`);
  - the row loop, which skips the header rows, stops at the first row dated 1991 or earlier, and expands joint China/Russian Federation vetoes into one record per member.

The fetched pages are not modelled as HTML. They are inputs to the model:

- A detail page is its metadata rows, each reduced to the texts of its `<span>`s, plus the children of the vote block (a `<br/>` or a text chunk).
- The network is a `Source`. It gives the result count of a year, the links on the listing page at an offset, and the detail page of a link.
- The veto table is its rows of cell texts.
- The country registry (`pycountry_convert`) is a predicate `registry: string -> bool`.

Python's `IndexError` and `ValueError` are modelled as `Failure(Fault)` values of a `Result` type, and they propagate the way the exceptions do:

- A fault in a chunk ends the page.
- A fault in a page ends the worker.
- A fault in a veto-table row ends the whole call.

## Modules

| file | module | contents |
|---|---|---|
| `wrappers.dfy` | `Wrappers` | `Option`, `Result`, `Fault` |
| `strings.dfy` | `Strings` | ASCII lower-casing, substring search, slices, `split`/`join`, whitespace tokens |
| `country_names.dfy` | `CountryNames` | `transform_country_name`, `country_rename` |
| `metadata.dfy` | `Metadata` | `find_info`, `date_handler`, the year column |
| `vote_page.dfy` | `VotePage` | the chunk loop of `get_page_info` and the page as a whole |
| `acquisition.dfy` | `Acquisition` | pagination, the year partition, workers, merge, `dropna` |
| `veto.dfy` | `Veto` | `topic_cutter`, the veto-table row loop |

Behaviour of the code worth knowing before reading the contracts:

- **Request count.** The code issues `total // 50 + 1` listing requests: one more than needed when `total` is a multiple of 50, and one request at offset 1 when `total` is 0 (`Acquisition.PageCountVersusCeiling`).
- **Case folding.** Case folding works token by token: every token keeps its first character (two for a token opening with `(`) and lower-cases the rest.
- **Vote code.** Any single-character first token is the vote code and is kept verbatim ("Y"); no set of codes is checked. A chunk without one is recorded as "NV".
- **Empty chunk.** A chunk with no tokens raises an unguarded `IndexError`, which aborts the page and hence the worker.
- **Worker failure.** A worker that faults loses its whole chunk of years, because its single `append` to the shared list never runs (`Acquisition.FailedWorkerLost`).
- **Remainder years.** The partition drops the last `len % P` years. With the configured 32 years and 8 workers nothing is dropped (`Acquisition.ConfiguredSplit`).

## Model

| member | source | states |
|---|---|---|
| `Strings.Lower` | UN_parse.py:73-76 | `.lower()` keeps the length and lower-cases each character on its own, ASCII capitals only |
| `Strings.Contains` | UN_parse.py:88-96 | `sub in s`: some slice of `s` equals `sub`; `ContainsWitness` shows it from a position, `NotContainsByChar` and `NotContainsUnlessEqual` refute it |
| `Strings.LowerIsLower` | UN_parse.py:73-77 | lower-casing leaves no capital letter, changes a string exactly when it has one, and is idempotent |
| `Strings.Split` | UN_parse.py:139 | `split(sep)` yields at least one piece and no piece holds the separator; with `JoinSplit` and `SplitJoin` it is the inverse of `join` |
| `Strings.Tokens` | UN_parse.py:139-140 | every token of a chunk is non-empty and holds no space; with `TokensAppend` and `TokensWord` the tokens of every line are its maximal runs of non-space characters, in order |
| `Strings.Join` | UN_parse.py:143-151 | `" ".join` starts with the first part; `SplitJoin` and `JoinSplit` make splitting its inverse on separator-free parts |
| `Strings.NonEmpty` | UN_parse.py:140 | the filter `if x` keeps exactly the non-empty strings and nothing else |
| `Strings.SplitAppend` | UN_parse.py:139 | splitting at one separator gives the pieces before it followed by the pieces after it |
| `Strings.NonEmptyAppend` | UN_parse.py:140 | the filter distributes over concatenation, so it keeps order |
| `Strings.TokensAppend` | UN_parse.py:139-140 | a space separates tokens: the tokens before it, then the tokens after it |
| `Strings.TokensWord` | UN_parse.py:139-140 | a non-empty word without spaces is a single token, and the empty line has none |
| `Strings.TokensExtraSpaces` | UN_parse.py:139-140 | a leading space, a trailing space or a doubled space between words adds no token |
| `Strings.JoinSplit` | UN_parse.py:139 | joining the pieces of `split(sep)` with `sep` gives back the string |
| `Strings.SplitJoin` | UN_parse.py:139 | splitting a join of separator-free parts gives back the parts |
| `Strings.TokensJoin` | UN_parse.py:139-140 | tokenising space-joined non-empty words without spaces gives back the words |
| `Strings.TokensEmptyIffBlank` | UN_parse.py:139-141 | a chunk has no token exactly when it is all spaces, the case where `vote_results[0]` raises |
| `CountryNames.TransformToken` | UN_parse.py:72-77 | folding keeps the length, keeps the first character (first two for a token opening with `(`) and lower-cases every later one |
| `CountryNames.TransformCountryName` | UN_parse.py:64-79 | one folded token per input token, in order |
| `CountryNames.TransformTokenShape` | UN_parse.py:72-77 | the folded token keeps its leading character, has no capital after the kept prefix, and keeps every non-capital |
| `CountryNames.TransformTokenIdempotent` | UN_parse.py:72-77 | folding a token twice is folding it once |
| `CountryNames.TransformCountryNameIdempotent` | UN_parse.py:64-79 | the list keeps every token's length, and folding the list twice is folding it once |
| `CountryNames.RenameIsFirstMatch` | UN_parse.py:82-113 | the first arm whose test holds decides the name; a name no arm matches comes back unchanged |
| `CountryNames.RenamePriority` | UN_parse.py:88-97 | a name containing "Iran" becomes "Iran" whatever else it is; "Bosnia" and then "Moldova" win over every exact comparison |
| `CountryNames.RenameCountry` | UN_parse.py:82-113 | the result is the name itself or one of the twelve canonical names |
| `CountryNames.FallsThrough` | UN_parse.py:88-113 | a name that, for each of "Iran", "Bosnia" and "Moldova", lacks some character of that key, and equals no exact key, is returned unchanged |
| `CountryNames.ArmNamesFixed` | UN_parse.py:88-111 | every canonical name the cascade produces is left alone by it |
| `CountryNames.RenameIdempotent` | UN_parse.py:82-113 | renaming twice is renaming once |
| `Metadata.FindInfo` | UN_parse.py:43-46 | the value span of the first row labelled `name`; `None` exactly when no row has that label; `IndexError` for a row without spans or a matching row without a value |
| `Metadata.DateAccepted` | UN_parse.py:49-61 | true exactly when the date is present and does not start with "1981" |
| `Metadata.VoteYear` | UN_parse.py:146 | the year column is a prefix of the date, four characters long or the whole of a shorter date |
| `VotePage.ParseChunk` | UN_parse.py:139-155 | fails with `IndexError` exactly when the chunk is blank; otherwise the code is "NV" or a single non-space character; `ParseChunkCoded` and `ParseChunkUncoded` fix code and name for every chunk from its tokens |
| `VotePage.ParseChunkCoded` | UN_parse.py:139-155 | a chunk whose tokens are a one-character code and then name words, however spaced, parses into that code and the folded, space-joined words |
| `VotePage.ParseChunkUncoded` | UN_parse.py:139-147 | a chunk whose first token is not one character, however spaced, parses into "NV" and all its tokens folded |
| `VotePage.ChunkRow` | UN_parse.py:137-161 | a chunk fails exactly when blank; it yields a row exactly when the registry knows its renamed name, and that row has the renamed name as country and the parsed code as vote, passes the registry, is a fixed point of renaming, and carries the page's title, resolution and date prefix |
| `VotePage.ParseChildren` | UN_parse.py:134-161 | a rejected date yields no rows; the loop fails exactly when the date is accepted and some chunk is blank; at most one row per text chunk |
| `VotePage.RegisteredKept` | UN_parse.py:156-159 | under an accepted date, a chunk whose renamed name the registry knows yields its row, placed in front of the rows of the chunks after it |
| `VotePage.ParseChildrenRows` | UN_parse.py:137-161 | every row emitted passes the registry and carries this resolution's title, number and vote year |
| `VotePage.ParseChildrenAppend` | UN_parse.py:134-161 | the rows of a concatenated block are the rows of each part, in order, or the first fault |
| `VotePage.LineBreakIgnored` | UN_parse.py:137 | inserting a `<br/>` anywhere in the block changes nothing |
| `VotePage.UnregisteredDropped` | UN_parse.py:156-161 | a chunk whose renamed name the registry rejects is dropped and the loop goes on |
| `VotePage.ParseSpacedExample` | UN_parse.py:139-155 | " Y  UNITED  STATES ", with leading, doubled and trailing spaces, parses into code "Y" and name "United States" |
| `VotePage.ParseCodedExample` | UN_parse.py:148-155 | "Y UNITED STATES" parses into code "Y" and name "United States" |
| `VotePage.ParseUncodedExample` | UN_parse.py:141-147 | "UNITED STATES" parses into code "NV" and name "United States" |
| `VotePage.SampleChunkRow` | UN_parse.py:137-159 | with a registry that knows "United States" and a 2003 vote date, the coded sample chunk gives one row with year "2003" |
| `VotePage.GetPageInfo` | UN_parse.py:116-162 | succeeds exactly when the three lookups succeed, the vote block exists and no blank chunk is read; otherwise `IndexError`; on success the rows are those the vote block's loop yields under the page's title, resolution and date; a rejected date gives no rows; every row is well formed |
| `Acquisition.PageCount` | UN_parse.py:207 | at least one request, and the last request's window is the one holding record `total + 1` |
| `Acquisition.PageOffsets` | UN_parse.py:208-209 | offsets start at 1 and step by 50, one per request |
| `Acquisition.RecordsCovered` | UN_parse.py:207-209 | every record `1..total` falls in the window of some request |
| `Acquisition.WindowsDisjoint` | UN_parse.py:207-209 | request windows do not overlap, and none starts past `total + 1` |
| `Acquisition.PageCountVersusCeiling` | UN_parse.py:207 | the request count is the ceiling plus one exactly when `total` is a multiple of 50 |
| `Acquisition.PageExamples` | UN_parse.py:207-209 | a total of 0 still requests offset 1; 100 takes three requests; 120 takes offsets 1, 51 and 101 |
| `Acquisition.YearList` | UN_parse.py:223 | `range(start, end + 1)`: the years in order, `end - start + 1` of them |
| `Acquisition.Partition` | UN_parse.py:224-229 | one chunk per worker, each of `len // P` years |
| `Acquisition.PartitionPrefix` | UN_parse.py:224-229 | the first `n` chunks concatenate to the first `n * limit` years |
| `Acquisition.Covered` | UN_parse.py:224-229 | the split hands out all years but the last `len % P` |
| `Acquisition.PartitionFlatten` | UN_parse.py:224-234 | the chunks concatenate to the years the split keeps, which is all of them when `len % P == 0` |
| `Acquisition.PartitionTooFew` | UN_parse.py:224-229 | with fewer years than workers every chunk is empty |
| `Acquisition.PartitionDisjoint` | UN_parse.py:228-229 | of distinct years, a year in one chunk is in no later chunk |
| `Acquisition.ConfiguredSplit` | UN_parse.py:223-229 | 1991..2022 is 32 years, four per worker, and the chunks cover them all |
| `Acquisition.Flatten` | UN_parse.py:234 | no lists flatten to nothing and one list to itself; with `FlattenHas` and `FlattenAppend` the result holds the lists' items, list after list |
| `Acquisition.FlattenAppend` | UN_parse.py:234 | flattening concatenated lists of lists concatenates the flattenings, which fixes the order |
| `Acquisition.FlattenHas` | UN_parse.py:234 | an item is in the flattened list exactly when it is in one of the lists |
| `Acquisition.YearLinks` | UN_parse.py:207-210 | a year's links are all links of every listing page, pages in request order and links in page order, repeats included; so a link is among them exactly when some listing request of that year returned it |
| `Acquisition.ListingPages` | UN_parse.py:207-209 | one listing page per request offset, each the listing returned for that offset, in request order |
| `Acquisition.LinkRows` | UN_parse.py:210-212 | a run of detail pages succeeds exactly when every page does, and then its rows are the pages' rows concatenated in link order |
| `Acquisition.WorkerRows` | UN_parse.py:196-215 | a worker succeeds exactly when every year's pages do, and then its rows are the years' rows concatenated in year order |
| `Acquisition.WorkerRowsAppend` | UN_parse.py:204-212 | a worker's rows for consecutive stretches of years are the rows of each stretch, in order |
| `Acquisition.RunWorkers` | UN_parse.py:228-233 | one result per chunk, the i-th being a worker's run over chunk i alone |
| `Acquisition.Collected` | UN_parse.py:215 | only lists of workers that finished reach the shared list; when every worker finishes, there is exactly one list per worker, in worker order |
| `Acquisition.Acquire` | UN_parse.py:223-234 | a row is in the merged output exactly when some worker that finished delivered it |
| `Acquisition.AcquireSequential` | UN_parse.py:223-234 | when no worker faults, the merged rows are what one sequential worker produces over the kept years |
| `Acquisition.FailedWorkerLost` | UN_parse.py:215 | a worker that faults contributes nothing, and the others are unaffected |
| `Acquisition.MergeOrderIrrelevant` | UN_parse.py:227-234 | swapping two neighbouring worker lists permutes the merged rows and changes none of them |
| `Acquisition.DropIncomplete` | UN_parse.py:191-192 | every complete row is kept as many times as it occurs and every incomplete one is dropped |
| `Acquisition.DropIncompleteAppend` | UN_parse.py:192 | the filter keeps row order: dropping from a concatenation is dropping from each part |
| `Acquisition.DropIncompleteIdempotent` | UN_parse.py:192 | dropping incomplete rows twice is dropping them once |
| `Veto.TopicIsFirstMatch` | UN_veto_parse.py:17-40 | the first keyword in source order that occurs in the topic decides the label; a topic with none is returned unchanged |
| `Veto.LetterWins` | UN_veto_parse.py:17-18 | a topic containing "Letter" becomes "Ukraine" whatever other keywords it holds |
| `Veto.TopicCutter` | UN_veto_parse.py:11-40 | the result is the topic itself or one of the eleven labels |
| `Veto.TopicCaseSensitive` | UN_veto_parse.py:17-40 | "Letter" becomes "Ukraine" but "letter" matches no keyword |
| `Veto.TopicLabelsFixed` | UN_veto_parse.py:17-38 | every label is left alone by the cascade |
| `Veto.TopicCutterIdempotent` | UN_veto_parse.py:11-40 | shortening a topic twice is shortening it once |
| `Veto.SyriaBeforeMiddleEast` | UN_veto_parse.py:21-24 | "The situation in the Middle East (Syria)" becomes "Syria", whose arm is tested first |
| `Veto.ParseYear` | UN_veto_parse.py:56 | `int()` succeeds exactly on a non-empty digit string, giving a value below `10^length`; otherwise `ValueError` |
| `Veto.YearRoundTrip` | UN_veto_parse.py:55-56 | a year below 10000 reads back from its four-digit text, and a four-digit text is the text of the year it reads as |
| `Veto.ExpandCountry` | UN_veto_parse.py:61-64 | two members, "China" then "Russian Federation", exactly when the cell contains "China" and is longer than 5 characters; otherwise the cell alone |
| `Veto.ExpandCountryStable` | UN_veto_parse.py:61-64 | each member the expansion names expands to itself alone |
| `Veto.ExpandCountryExamples` | UN_veto_parse.py:61-64 | "China" and "Russian Federation" stay single; "China, Russian Federation" becomes both |
| `Veto.RowDate` | UN_veto_parse.py:55 | the date is a suffix of the first cell, at most four characters long |
| `Veto.RowDateLength` | UN_veto_parse.py:55 | the date is the whole first cell when that is shorter than four characters, and exactly its last four characters otherwise |
| `Veto.ShortRowFault` | UN_veto_parse.py:54-59 | a row dated after 1991 with fewer than five cells fails with `IndexError` |
| `Veto.ProcessRow` | UN_veto_parse.py:54-72 | a row without cells is `IndexError`; a non-numeric year is `ValueError`; a year up to 1991 stops the loop whatever the other cells; a later year needs five cells and emits one record per member, all sharing the date, resolution and shortened topic, all dated after 1991 |
| `Veto.Records` | UN_veto_parse.py:53-72 | a successful loop returns at most two records per row it walks |
| `Veto.GetVetoInfo` | UN_veto_parse.py:43-73 | a table of at most three rows gives no records; otherwise the result is the loop's over the rows after the third: at most two records per data row, each dated after 1991 |
| `Veto.HeaderRowsSkipped` | UN_veto_parse.py:52 | behind any three header rows the result is the loop's over the rows that follow, so the header never affects it; a table of three rows yields no records |
| `Veto.RecordsAfterStart` | UN_veto_parse.py:53-57 | every record returned has a year after 1991 |
| `Veto.StopIgnoresRest` | UN_veto_parse.py:56-57 | after a stopping row nothing is read: the result is that of the rows before it |
| `Veto.Members` | UN_veto_parse.py:61-65 | the veto cells of `n` rows name between `n` and `2n` members |
| `Veto.EmittedLength` | UN_veto_parse.py:58-72 | emitting rows all have at least five cells, and give one record per member named |
| `Veto.RecordsShape` | UN_veto_parse.py:53-72 | the loop succeeds exactly when its leading run of emitting rows ends the table or meets a stopping row, and then returns that run's records in table order; otherwise it fails with the fault of the row that ends the run |
| `Veto.JointVetoRow` | UN_veto_parse.py:54-72 | the 4 October 2011 row on Syria yields a China record then a Russian Federation record, both dated "2011" |
| `Veto.EarlyRowStops` | UN_veto_parse.py:55-57 | a row dated 1991 stops the loop even when it has no other cell |

## Left out

- HTTP requests (`requests.get` in both files) are left out. The listing links, the detail pages, the result count of a year and the veto table are inputs to the model.
- HTML parsing (BeautifulSoup/`lxml`) is left out:
  - The metadata rows come as their span texts.
  - The vote block is given as an option. `None` stands for the `IndexError` of `metadata[-2]` or of its last value span.
  - The facet scraping of `get_max_page_number` (UN_parse.py:172-182) is replaced by the given count.
  - `get_ids_links` (UN_parse.py:17-33) is the `listing` function of `Source`.
- `pycountry_convert.country_name_to_country_alpha2` is a foreign library. It is the `registry` predicate, with a `KeyError` as `false`.
- pandas and CSV writing are left out. Only `dropna` is modelled, and in it only title and resolution can be missing. The other columns are always strings, because `vote_date[0:4]` of a missing date never runs: such a date is rejected first.
- `multiprocessing` is left out. Workers are run one after another in chunk order. The source appends them in completion order, which only permutes the merged rows (`Acquisition.MergeOrderIrrelevant`).
- Timing and printing are left out.
- Python's Unicode `str.lower()` is modelled as ASCII lower-casing.
- `Veto.ParseYear` accepts only ASCII digit strings. Python's `int()` also accepts surrounding whitespace, a sign, `_` separators and non-ASCII digits.
- A network or transport error is left out. It aborts its worker the way a modelled fault does.

