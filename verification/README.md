# reshka_map core, modelled in Dafny

reshka_map plots the episodes of the travel show «Орёл и решка» on a map. It
reads the wikitext of the episode list, extracts one record per episode
(season, episode index and the places visited), translates each location into
English and geocodes it with a cache in front of Nominatim. This project
models that core and proves properties of it:

- `Wrappers` (wrappers.dfy): `Option` and `Result`.
- `Text` (text.dfy): the JavaScript string and array built-ins the code
  relies on: `trim` with its whitespace set, `split` on a literal or on a
  one-character class, `join`, `filter`, de-duplication through `Set`, and
  `toLowerCase`.
- `Wikitext` (wikitext.dfy): one hand-written scanner for each regular
  expression of the parser. Each scanner follows the backtracking semantics
  of the regex:
  - the `=== title ===` heading split;
  - the lazy `{| … |}` table match;
  - the `\n|-` row split;
  - the `||` or newline-`|` cell split;
  - the `'''bold'''` span;
  - the digit run;
  - the `{{Флаг|…}}` templates;
  - the `[[…]]` links.
- `Parser` (parser.dfy): `parseWiki`, `extractIndex` and `extractLocations`.
  - script.js, `ParserService` in services.js and js/funcs.js carry the same
    parser code, so it is modelled once.
  - `parseWiki` and `extractLocations` are loops that push onto an array.
    They are methods proved equal to specification functions.
  - A `parseWiki` run is specified in two stages. First come the outcomes of
    every row chunk, grouped by table and by season block. Then come the
    pushes of those outcomes onto the list of records.
- `Translate` (translate.dfy): `translateLocation`, with the two dictionaries
  passed as a `Dictionary` value.
- `Storage` (storage.dfy): `localStorage` as a `Store` class whose entries
  change in place, and the `addGeoCache`/`getGeoCache` helpers of js/cache.js.
- `Geocode` (geocode.dfy): the cache-first lookups:
  - `geocode` of script.js;
  - `getCoordiantes`/`fetchAndSetToCache` of js/funcs.js;
  - `fetchCoordiantes` of js/infra/nominatium_fetchCoord.js.

  Each is a specification function over the store's map together with a
  method on a `Store` proved to agree with it. The network's answer
  (`Failure`, `NoResult` or `Found`) and storage errors are inputs.

Where the code and the repository's description of it differ, the model
follows the code:
- **The last row of each table is dropped.** The last row chunk of every
  table carries the closing `|}`, so it is skipped. When a table's only data
  row sits directly above `|}`, that table yields no record
  (`Parser.LastRowDropped`).
- **The city is the first kept link.** The city of a cell is its first link
  name that passes the filter (`Parser.CityIsFirstKeptLink`).
- **A lone digit is no index.** The digit fallback needs two characters, so
  a cell `7` yields no index (`Parser.LoneDigitNoIndex`).
- **An empty bold span drops the row.** A bold span of spaces gives the
  empty index, and the row is dropped. The digit fallback is not tried.
- **A row with no cells throws.** A row chunk whose cells are all blank
  makes `cells[0].match` throw a TypeError, which ends `parseWiki`. This is
  the `Err(FirstCellUndefined)` outcome.
- **`geocode` never reads what it stores.** It writes to `localStorage` but
  looks names up only in the static `coord` table
  (`Geocode.GeocodeIgnoresStore`).

## Model

| member | source | states |
|---|---|---|
| Text.Trim | script.js:72 | the result has no leading or trailing space and is never longer than the input |
| Text.TrimSpec | script.js:72 | the result is the slice of the input between a leading and a trailing run, both made only of spaces |
| Text.TrimIdempotent | script.js:77 | trimming twice is trimming once |
| Text.Split | script.js:71 | `split` on a literal: at least one piece, the pieces joined by the separator give the input back, and no piece contains the separator |
| Text.SplitOn | script.js:185-186 | `split` on a character class: one more piece than there are separator characters, and no piece holds a separator |
| Text.SplitOnJoin | script.js:185-186 | splitting on a one-character separator inverts joining with it, for parts that hold no separator |
| Text.Join | script.js:89 | a joined list starts with its first part |
| Text.Filter | script.js:114-118 | an element is kept exactly when it is in the list and passes, and the list never grows |
| Text.FilterAppend | script.js:114-118 | filtering two lists one after the other gives the kept elements of the first, then those of the second: `filter` keeps order |
| Text.FilterSingle | script.js:78 | a one-element list keeps its element exactly when it passes |
| Text.FilterFirst | script.js:122 | the first element kept is the first element that passes |
| Text.Distinct | script.js:124 | de-duplication keeps exactly the same elements and never grows the list |
| Text.DistinctUnique | script.js:124 | the de-duplicated list has no repeats |
| Text.DistinctOrder | script.js:124 | de-duplicated elements keep the order in which they first occur |
| Text.SomesAppend | script.js:86-90 | the values of the `Some` entries of two lists, one after the other, are those of the first, then those of the second |
| Scanning.Scan | script.js:69 | a global scan from a position yields spans that lie in order, each starting at or after the previous one's end, inside the text |
| Scanning.ScanLeftmost | script.js:69 | the scan finds the leftmost non-overlapping matches: every span is a match, and no match starts in the text between them |
| Scanning.LeftmostUnique | script.js:69 | the leftmost non-overlapping matches are unique: any spans with that property are the scan's |
| Scanning.ScanSkip | script.js:108 | positions where nothing matches do not change the scan |
| Scanning.ScanTake | script.js:108 | a match at the scan position is taken, and the scan resumes at its end |
| Scanning.Slices | script.js:69 | one matched text per span |
| Scanning.Gaps | script.js:62 | `split` with a pattern gives one more piece than there are matches |
| Scanning.GapsRejoin | script.js:76 | putting the matched texts back between the pieces gives the text back |
| Scanning.SliceOf | script.js:111 | each matched text is the text of one of the spans |
| Wikitext.LazyTitle | script.js:62 | the lazy `(.+?)` title ends at a place where `\s*===` closes |
| Wikitext.LazyTitleShortest | script.js:62 | that place is the first one where `\s*===` closes, and the title holds no line terminator |
| Wikitext.HeadingAt | script.js:62 | a heading is found only at a line start that begins with `===`, and it ends inside the text after that start |
| Wikitext.ClosesAtRun | script.js:62 | the closing `\s*===` matches at a position exactly when `===` follows the run of spaces there |
| Wikitext.LazyTitleComplete | script.js:62 | the lazy title search succeeds whenever a title ends at or after the current place, and stops no later than that title's end |
| Wikitext.LazyTitleExact | script.js:62 | the lazy title from a start ends at `e` exactly when a title from there ends at `e` and none ends earlier |
| Wikitext.TitleFromExact | script.js:62 | backtracking over the spaces after `===` finds the latest title start and that start's shortest title, and finds nothing exactly when no start in the range has a title |
| Wikitext.HeadingAtSome | script.js:62 | a heading found is a heading match there: the latest title start the spaces allow, that start's shortest title, and an end after the closing spaces and `===` |
| Wikitext.HeadingAtNone | script.js:62 | no heading is found at a position exactly when no heading match starts there |
| Wikitext.HeadingMatches | script.js:62 | each heading match is non-empty and ends inside the text |
| Wikitext.NoHeadingInAll | script.js:62 | the recursive no-heading predicate holds exactly when no position of the range starts a heading |
| Wikitext.NextHeading | script.js:62 | the heading found is the leftmost match: there is none before it, and none at all when nothing is found |
| Wikitext.PreambleEnd | script.js:62 | the preamble ends at the first heading, or at the end when there is none, and holds no heading |
| Wikitext.PreambleFromEnd | script.js:62 | the preamble of the split is the document up to that end |
| Wikitext.SplitHeadings | script.js:62 | the text before the first heading is a prefix of the document |
| Wikitext.SplitHeadingsFromScan | script.js:62 | the split follows the scan for heading matches: the preamble is the text up to the first match, and each block is a match's title with the text up to the next match |
| Wikitext.SectionAt | script.js:64-66 | block `k` holds the title of heading match `k` and the text from that match's end to the next match |
| Wikitext.NoHeadingNoMatch | script.js:62 | a range where no heading starts holds no heading match |
| Wikitext.PreambleHasNoHeading | script.js:62 | no position of that prefix starts a heading match |
| Wikitext.NoHeadingNoSections | script.js:62-64 | a document without a heading yields no season blocks, only the preamble |
| Wikitext.TableBlockSlice | script.js:69 | the text from an opener to the first closer after it is a table block |
| Wikitext.TableAtSpec | script.js:69 | no table matches at a position exactly when the table opener (brace, pipe) is not there or no table closer follows it; a match is a table block |
| Wikitext.TablesFromBlocks | script.js:69 | every table the search from a position finds is a table block |
| Wikitext.TableMatches | script.js:69 | each table match is non-empty and ends inside the text |
| Wikitext.Tables | script.js:69 | every table matched opens with the table opener (brace, pipe), ends with the table closer (pipe, brace) and holds no earlier closer |
| Wikitext.TablesFromScan | script.js:69 | the tables are exactly the texts of the leftmost non-overlapping table matches, in order |
| Wikitext.NoCloserNoTable | script.js:69 | with no table closer after a position, no table match starts there or later |
| Wikitext.Rows | script.js:71 | the row chunks joined by the row separator (newline, pipe, dash) give the table back, and no chunk contains the separator |
| Wikitext.LastRowCloses | script.js:69-71 | the last row chunk of a table ends with the table closer |
| Wikitext.PiecesFrom | script.js:76 | the pieces between cell separators hold neither a double pipe nor a pipe after a newline |
| Wikitext.SepMatches | script.js:76 | each cell separator match is non-empty and ends inside the text |
| Wikitext.PiecesFromScan | script.js:76 | the pieces are exactly the texts between the leftmost separator matches |
| Wikitext.PiecesRoundTrip | script.js:76 | putting the separators back between the pieces gives the row back, and each separator is a double pipe or a pipe |
| Wikitext.Cells | script.js:75-78 | every cell is non-empty, trimmed, and the trim of a separator-free piece of the row |
| Wikitext.CellsScan | script.js:75-78 | the cells are exactly the trimmed pieces between the leftmost separator matches, the empty ones filtered out, in order |
| Wikitext.BoldAt | script.js:98 | a bold match is `'''b'''` with `b` non-empty and free of apostrophes |
| Wikitext.BoldAtComplete | script.js:98 | any bold span at a position is the one the scanner finds there |
| Wikitext.FirstBold | script.js:98 | a bold match exists exactly when some position holds a bold span |
| Wikitext.FirstBoldLeftmost | script.js:98 | the bold match is the leftmost span |
| Wikitext.DigitRunAt | script.js:100 | a digit run matches at `i` exactly when a digit there is followed by a digit, a space or a parenthesis; the match is the text from `i`, starts with a digit, holds only such characters and is as long as they go |
| Wikitext.FirstDigitRunLeftmost | script.js:100 | the fallback match is the run at the leftmost position where one starts |
| Wikitext.FirstDigitRunFound | script.js:100 | a fallback match found is the run at a position before which no run starts |
| Wikitext.FirstDigitRun | script.js:100 | the fallback finds a run exactly when some digit is directly followed by a digit, a space or a parenthesis |
| Wikitext.FlagAt | script.js:108 | a flag template matches exactly where the opener (double brace, either case of the first letter, pipe) is followed by an argument character; the argument is the whole run of characters other than a closing brace or a pipe |
| Wikitext.FlagMatches | script.js:108 | each flag match is non-empty and ends inside the text |
| Wikitext.FlagArgClean | script.js:108-109 | a trimmed flag argument holds no closing brace or pipe |
| Wikitext.FlagsFrom | script.js:108-109 | every flag is trimmed and holds no closing brace or pipe |
| Wikitext.FlagsFromScan | script.js:108-109 | the flags are the trimmed arguments of the leftmost non-overlapping flag matches, one per match, in order |
| Wikitext.FlagArgumentAt | script.js:108-109 | flag `k` is the trimmed argument of flag match `k` |
| Wikitext.LinkAt | script.js:111 | a link match spans at least five characters, opens with `[[` and ends with `]]` |
| Wikitext.LinkAtSound | script.js:111 | a link found has the link form: `[[`, a target without pipe or closing bracket, optionally a pipe and a non-empty text without closing bracket, then `]]` |
| Wikitext.LinkAtComplete | script.js:111 | any link of that form at a position is the one found there |
| Wikitext.LinkMatches | script.js:111 | each link match is non-empty and ends inside the text |
| Wikitext.LinksFrom | script.js:111 | every link found starts with `[[` and ends with `]]` |
| Wikitext.LinksFromScan | script.js:111 | the links are exactly the texts of the leftmost non-overlapping link matches, in order |
| Wikitext.RemoveBrackets | script.js:113 | removing brackets leaves no bracket and every other character of the link |
| Wikitext.RemoveBracketsFilter | script.js:113 | removing brackets is filtering out the opening and closing brackets, so the other characters keep their order |
| Wikitext.AfterLastPipe | script.js:113 | the last piece of a split on pipes is a pipe-free suffix, preceded by a pipe unless it is the whole string |
| Wikitext.AfterLastPipeOf | script.js:113 | the last piece of a split on pipes is the pipe-free tail that follows the last pipe, or the whole text when it has none |
| Wikitext.LinkName | script.js:113 | a link name is trimmed and holds no pipe and no bracket |
| Wikitext.LinkNameOf | script.js:113 | a link name is the trimmed text after the last pipe of the link with its brackets removed |
| Parser.ExtractIndex | script.js:97-102 | the index is trimmed, and the call throws exactly when there are no cells |
| Parser.BoldIndex | services.js:66-68 | a bold span takes precedence: the index is the trimmed text of the leftmost one |
| Parser.DigitIndex | script.js:100-101 | without a bold span there is an index exactly when a digit of the first cell is followed by a digit, a space or a parenthesis; it then starts with a digit and is the trimmed run at the leftmost position where one starts |
| Parser.FallbackReadsFirstCell | services.js:69-70 | without a bold span, only the first cell decides the index |
| Parser.LoneDigitNoIndex | script.js:100 | a row holding just one digit has no index |
| Parser.Label | script.js:124-126 | a label ends with its city |
| Parser.LabelShape | services.js:91-95 | the qualifiers are distinct, are exactly the flags that differ from the city in lower case, keep first-seen order, and the label is `city` or `q1/…/qn: city` |
| Parser.CellLabel | script.js:107-126 | a label is always longer than one character |
| Parser.CellWithoutLabel | script.js:112-120 | a cell adds no label exactly when none of its link names passes the filter |
| Parser.CityIsFirstKeptLink | script.js:122 | the city is the first link name that passes the filter |
| Parser.Locations | js/funcs.js:56-83 | the locations have no repeats, are exactly the labels of the cells, and each is longer than one character |
| Parser.LocationsFirstSeenOrder | script.js:127 | the locations keep the order in which their labels first appear |
| Parser.ExtractLocations | script.js:104-131 | the push loop guarded by `includes` returns exactly `Locations(cells)` |
| Parser.RowOutcomeShape | script.js:72-90 | a skipped chunk yields nothing; the row throws exactly when no cell is left; it yields a record exactly when it is not skipped, its index is non-empty and it has a location, and the record then holds the block's season, that index and the distinct labels joined by "; " |
| Parser.SkippedYieldsNothing | services.js:40-42 | a blank chunk, a header chunk or one holding the table closer yields no record |
| Parser.ParseRow | script.js:71-91 | the body of the row loop computes `RowOutcome` |
| Parser.RowOutcomes | script.js:71 | one outcome per row chunk |
| Parser.TableOutcomes | script.js:69-70 | one list of outcomes per table |
| Parser.DocumentOutcomes | script.js:64-67 | one list of tables per season block |
| Parser.PushOutcomesAppends | services.js:38-60 | the records found earlier stay in front, at most one record is added per row chunk, and each is well formed |
| Parser.PushTablesAppends | script.js:69-92 | the tables of a block only append well-formed records of that block's season |
| Parser.PushBlocksAppends | script.js:64-93 | the season blocks only append records whose season is one of theirs |
| Parser.DocumentOutcomesSound | script.js:80-90 | every record a row chunk yields has an index, a location and the season of its own block |
| Parser.BlocksWellFormed | script.js:62-90 | every record pushed has an index and a location, and its season is the trimmed heading of one block |
| Parser.ParseWellFormed | script.js:60-95 | every record `parseWiki` returns has a trimmed non-empty index, a location and the trimmed heading of one block as its season |
| Parser.RecordsAppend | script.js:70-71 | the records of two runs of outcomes, one after the other, are those of the first, then those of the second |
| Parser.PushOutcomesRecords | script.js:71-91 | the row loop appends exactly the records the outcomes carry, in order, unless one outcome is the TypeError, which is then the result |
| Parser.PushTablesRecords | script.js:69-92 | the table loop appends exactly the records of its tables' outcomes, table after table, unless one is the TypeError |
| Parser.PushBlocksRecords | script.js:64-93 | the block loop appends exactly the records of every row outcome, block after block, unless one is the TypeError |
| Parser.FlattenRecords | script.js:64-93 | the records of all row outcomes are the records of each block, block after block |
| Parser.BlockRecordsSeason | script.js:65-90 | every record of a block has that block's own trimmed heading as its season, an index and a location |
| Parser.ParseRecords | script.js:60-95 | `parseWiki` throws exactly when some row chunk of some block has no cell left, and otherwise returns the records of the blocks, in document order |
| Parser.EmptyBodySkipped | script.js:66-67 | a heading with an empty body contributes nothing |
| Parser.NoHeadingNoEpisodes | services.js:31-36 | a document without a heading yields no record |
| Parser.LastChunkSkipped | script.js:71-73 | the last row chunk of every table is skipped, since it holds the table closer |
| Parser.LastRowDropped | script.js:73 | the last row chunk of a table never yields a record, even when it carries a data row |
| Parser.ParseTable | script.js:70-92 | the row loop of one table computes the push of its outcomes |
| Parser.ParseSection | script.js:65-92 | the table loop of one block computes the push of its tables |
| Parser.ParseSections | script.js:64-93 | the block loop computes the push of every block's outcomes |
| Parser.ParseWiki | script.js:60-95 | `parseWiki` computes `Parse(text)`: the push of every block's outcomes |
| Translate.Entry | script.js:186-188 | a dictionary entry is used exactly when it exists and is not the empty string |
| Translate.TranslateToken | script.js:186-189 | a token becomes either its trimmed self or a dictionary name |
| Translate.CountriesFirst | js/funcs.js:110-111 | the country dictionary is consulted first: a token it translates gets the country name whatever the city dictionary holds |
| Translate.CitiesSecond | script.js:187 | a token the country dictionary does not translate gets its city name |
| Translate.UnknownPassesThrough | js/funcs.js:109-112 | a token neither dictionary translates comes out trimmed and otherwise unchanged |
| Translate.TokenLeadingSpace | script.js:186-188 | a leading space never changes a token's translation |
| Translate.Words | script.js:186-189 | one translated token per token |
| Translate.Groups | js/funcs.js:108 | one translated group per `;`-separated part |
| Translate.GroupCount | js/funcs.js:107-115 | the output has exactly one group separator (space, pipe, space) per semicolon of the input, when neither the input nor a dictionary name holds a pipe |
| Translate.GroupLeadingSpace | script.js:185-190 | a leading space never changes a group's translation |
| Translate.LabelTokens | script.js:186 | a label `q1/…/qn: city` splits into its qualifiers and the space-led city |
| Translate.TranslateLabel | script.js:185-190 | a label `q1/…/qn: city` translates token by token: each qualifier, then the city, joined by ", " |
| Translate.TranslateCity | script.js:185-190 | a bare city translates as that single token |
| Translate.SplitLabels | script.js:185 | a location of labels joined by "; " splits back into those labels, each after the first behind one space |
| Translate.TranslateLabels | script.js:184-191 | a location made of labels translates label by label, one group each, in order, joined by the group separator |
| Storage.Store.constructor | js/cache.js:3 | a newly built model store is empty; the specifications take the store's contents as an input, so the persistent `localStorage` may hold anything |
| Storage.Store.SetItem | js/cache.js:6 | the entry for the key becomes the value and nothing else changes |
| Storage.Store.GetItem | js/cache.js:10 | the stored entry is returned when present, and `null` otherwise |
| Storage.Cached | js/cache.js:9-14 | a missing key reads as `null`, and a pair read is the stored pair |
| Storage.AddGeoCache | js/cache.js:5-7 | `addGeoCache` stores the value under the key and leaves the rest; when `setItem` throws, the error reaches the caller and the store is unchanged |
| Storage.GetGeoCache | js/cache.js:9-14 | `getGeoCache` reads the stored value or `null` and changes nothing; when `getItem` throws, the error reaches the caller |
| Storage.ReadAfterWrite | js/cache.js:5-11 | a value written is the value read back |
| Storage.WriteLeavesOthers | js/cache.js:5-14 | a write leaves every other key as it was |
| Storage.LastWriterWins | js/cache.js:6 | the last write to a key wins |
| Geocode.GeoKey | script.js:163 | the cache key is `"geo_"` before the name, so it never equals the name |
| Geocode.Encode | js/funcs.js:101 | a result is stored as its pair, or as `null` when there is none |
| Geocode.Coordinates | script.js:173-174 | an answer has coordinates exactly when a candidate was found |
| Geocode.GeocodeSpec | script.js:162-180 | `geocode` has a result exactly when the static table supplies one or the request finds coordinates whose write does not throw, and writes only its own key |
| Geocode.Geocode | script.js:162-180 | the method computes `GeocodeSpec` and leaves the store as that specifies |
| Geocode.GeocodeStaticHit | script.js:163-165 | a name in the static table is answered from it, with no request and no write |
| Geocode.GeocodeMiss | script.js:167-179 | on a miss the request is made; coordinates whose write goes through are returned and stored under `"geo_"+name`; an empty answer, an error, or a write that throws returns null and stores nothing |
| Geocode.GeocodeIgnoresStore | script.js:162-165 | the result and the request do not depend on the store, so a stored name is requested again |
| Geocode.CoordinatesSpec | js/funcs.js:90-103 | `getCoordiantes` rejects exactly when the static tier misses and either the read throws or the persistent tier misses and the write throws; otherwise it writes at most the translated name's entry |
| Geocode.FetchAndSetToCache | js/funcs.js:99-103 | the answer's coordinates are returned and written, even when absent, under the bare name; a throwing write rejects and leaves the store unchanged |
| Geocode.GetCoordinates | js/funcs.js:90-97 | the method rejects exactly when `CoordinatesSpec` does, leaving the store unchanged, and otherwise computes its outcome |
| Geocode.TiersInOrder | js/funcs.js:93-94 | the static tier is consulted before the persistent one, and a hit in either answers without a request or a write; a static hit cannot be rejected by a storage error |
| Geocode.CoordinatesMiss | js/funcs.js:93-102 | a miss in both tiers requests and writes the answer's coordinates, or `null`, under the bare name and returns them; a throwing write rejects |
| Geocode.TranslatesFirst | js/funcs.js:91-92 | the lookup sees the Russian name only through its translation |
| Geocode.AsWrittenRefetches | js/funcs.js:92-101 | after a successful request the same location is requested again, since the write key differs from the read key |
| Geocode.CoordinatesCorrected | js/funcs.js:90-103 | with the write key corrected, only the lookup key's entry is written, and storage errors reject as in `CoordinatesSpec` |
| Geocode.CorrectedSecondLookupHits | js/funcs.js:92-101 | with the write key corrected, the next lookup hits with the same coordinates and makes no request |
| Geocode.CoordKey | js/infra/nominatium_fetchCoord.js:55 | the Nominatim helpers store a name under `name + "_coord"`, never under the bare name |
| Geocode.AddCoordCache | js/infra/nominatium_fetchCoord.js:52-59 | the value is stored under the `_coord` key, and a failing write changes nothing |
| Geocode.GetCoordCache | js/infra/nominatium_fetchCoord.js:61-68 | the `_coord` entry is read, and a failing read gives `null` |
| Geocode.FetchSpec | js/infra/nominatium_fetchCoord.js:8-49 | `fetchCoordiantes` writes at most the name's `_coord` entry |
| Geocode.FetchCoordinates | js/infra/nominatium_fetchCoord.js:8-49 | the method computes `FetchSpec` and leaves the store as that specifies |
| Geocode.FetchHit | js/infra/nominatium_fetchCoord.js:10-14 | a stored pair is returned without a request or a write |
| Geocode.FetchFailureWritesNothing | js/infra/nominatium_fetchCoord.js:28-48 | on a miss, an empty answer or an error returns null and writes nothing |
| Geocode.FetchThenHit | js/infra/nominatium_fetchCoord.js:35-43 | a successful request stores the first candidate's pair, and the next lookup of the name hits with it and makes no request |
| Geocode.ReadFailureIsMiss | js/infra/nominatium_fetchCoord.js:61-68 | a failing read behaves as an empty store |
| Geocode.WriteFailureIsSilent | js/infra/nominatium_fetchCoord.js:52-59 | a failing write leaves the store unchanged and still returns the coordinates |

## Findings

| source | as written | input that shows it | evidently intended | confidence | as-written member | corrected member |
|---|---|---|---|---|---|---|
| js/funcs.js:92-101 | `getCoordiantes` looks up `"geo_"+name`, but `fetchAndSetToCache` writes the result under the bare `name` | any location missing from both tiers, requested twice, with a successful answer the first time: the second call misses again and makes another request | write under the key that is read | high, not executed | Geocode.AsWrittenRefetches | Geocode.CorrectedSecondLookupHits |

## Left out

- User interface: the map, the markers, the colour gradients and the log in
  the `UIManager` classes. These are DOM and Leaflet code.
- Transport: `fetchWiki`, `FetchService` and the other wikitext fetchers.
  The document is a parameter of `ParseWiki`.
- The network: the Nominatim request, its URL encoding and headers. Its
  outcome is the `Answer` parameter.
- `plotEpisodes`: the 1000 ms pause between requests and the async
  sequencing are timing and concurrency concerns.
- Floating point: `+data[0].lat` is not parsed. Coordinates are an opaque
  `LatLon` pair.
- JSON text: `JSON.stringify`/`JSON.parse` are not modelled. The store
  holds the JSON value itself, so the round trip is exact by construction
  and a malformed stored text cannot arise.
- The static tables: the literal `geoDict`, `coord`, `geoTranslateDict` and
  `geoCoordDict` tables are parameters.
- js/funcs.js `parseWiki` (js/funcs.js:10-45) calls `this.#extractIndex`
  outside a class, which is a syntax error. The module's functions are
  modelled by the script.js parser they copy.
- Text.Lower: `toLowerCase` is concrete only on ASCII letters and the
  Cyrillic capitals U+0400–U+042F. Other characters are left unchanged.
- Parser.CellLabel: lengths count characters, not UTF-16 code units, so the
  `length > 1` filter differs for names with characters outside the Basic
  Multilingual Plane.
- Translate.TranslateToken: inherited object keys such as `constructor` or
  `toString` are truthy dictionary entries in JavaScript. The dictionaries
  here are plain maps without them.
- Geocode.GeocodeSpec: script.js:164 calls `coord.getItem` on a plain
  object, which throws a TypeError on every call. The model performs the
  evident lookup `coord[key]` in the static table and returns its pair. The
  `JSON.parse` of that pair is not modelled. A `setItem` that throws is
  the boolean input `writeFails`.
- Geocode.CoordinatesSpec: `fetchAndSetToCache` stores and returns the
  Promise of the un-awaited `fetchCoordiantes`, and a persistent hit is
  parsed twice. The model uses the awaited coordinates and parses once.
  Only the write key is kept as written.
- Geocode.CoordinatesSpec, Storage.AddGeoCache, Storage.GetGeoCache: a
  storage error is a boolean input (`readFails`, `writeFails`) rather than
  an exception raised by the browser. A rejection is `Err(StorageThrew)`
  and carries no store; the methods leave the store unchanged. When the
  write throws, the request has already been sent, which the outcome does
  not record.
- Geocode.FetchSpec: a storage error is a boolean input (`readFails`,
  `writeFails`) rather than an exception raised by the browser.
- js/externalApi.js `fetchCoordiantes`, which js/funcs.js imports, refers
  to undefined variables. It is not part of this model; its result is the
  `Answer` parameter.
