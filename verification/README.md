# Sports rankings analytics — a Dafny model

This project models the data core of the sports-analytics dashboard in two
near-duplicate React components:

- the full page, `app/projects/sports-analytics/page.tsx`;
- the embeddable section, `components/sports-analytics.tsx`.

Both keep a table of sports. Each sport has a label and one integer rank per
country (FRA, GER, USA, CHI, RUS, JAP; lower is better). Both load the table
from a CSV file and derive the same views from it: a case-insensitive search
filter, bar and pie chart data, a stats summary with rounded per-country
averages and best performers, and the Wikipedia page title of a sport name.
They also share the add, edit and delete handlers.

The modules follow that structure:

- `JsString` models the JavaScript built-ins the core relies on:
  - `trim` with the ECMAScript whitespace set;
  - `split` on one character;
  - `includes`;
  - ASCII `toLowerCase`/`toUpperCase`;
  - the global `parseInt` with no radix: whitespace, one sign, a `0x` prefix for radix 16, the longest digit prefix, and NaN as `None`;
  - `Number.prototype.toString` for integers.
- `JsArray` models `Array.prototype.filter`, on which both the search and delete are built.
- `Sports` holds the country columns, the record schema, `COUNTRY_NAMES`, `WIKI_PAGE_MAPPING` and the CSV parse. It also holds a CSV writer, used only to state what the parse reads back.
- `Views` holds the derived views the two components compute identically.
- `Section` and `Page` hold the views the two components compute differently:
  - the pie chart's code path;
  - the stats sort, since only the page sorts averages;
  - the page's trimmed search term.

  Lemmas relate the two versions.
- `Table` holds the pure record operations of the CRUD handlers and the class `RankingsTable`. That class keeps the component state the handlers change: `data`, `loading`, `error`, `formData`, `editingSport` and `isAddDialogOpen`.

Code the two components share is cited at the page's lines. The section's
copies are noted in the third column.

## Model

| member | source | states |
|---|---|---|
| `JsString.TrimStart` | app/projects/sports-analytics/page.tsx:156 | the result is no longer than the text and does not start with whitespace |
| `JsString.TrimStartDropsWhitespace` | app/projects/sports-analytics/page.tsx:156 | trimStart keeps a suffix of the text and everything it drops is whitespace |
| `JsString.TrimEnd` | app/projects/sports-analytics/page.tsx:156 | the result is no longer than the text and does not end with whitespace |
| `JsString.TrimEndDropsWhitespace` | app/projects/sports-analytics/page.tsx:156 | trimEnd keeps a prefix of the text and everything it drops is whitespace |
| `JsString.Trim` | app/projects/sports-analytics/page.tsx:156 | trim never lengthens the text |
| `JsString.TrimIsInfix` | app/projects/sports-analytics/page.tsx:156 | trim keeps an infix of the text with only whitespace before and after it |
| `JsString.TrimEnds` | app/projects/sports-analytics/page.tsx:156 | a non-empty trim result neither starts nor ends with whitespace |
| `JsString.TrimBlank` | app/projects/sports-analytics/page.tsx:264 | trim gives the empty string exactly when the text is whitespace only (the guard `!termToSearch.trim()`) |
| `JsString.TrimUnpadded` | app/projects/sports-analytics/page.tsx:156 | a text that neither starts nor ends with whitespace is its own trim |
| `JsString.TrimPadded` | app/projects/sports-analytics/page.tsx:272 | trim removes exactly whitespace padding around a text that neither starts nor ends with whitespace |
| `JsString.Lower` | app/projects/sports-analytics/page.tsx:188 | toLowerCase maps every character and keeps the length |
| `JsString.Upper` | app/projects/sports-analytics/page.tsx:310 | toUpperCase maps every character and keeps the length |
| `JsString.CaseFolding` | app/projects/sports-analytics/page.tsx:188 | lower-casing forgets an earlier case mapping; upper-casing is idempotent |
| `JsString.Split` | app/projects/sports-analytics/page.tsx:159 | split always yields at least one piece (so `values[0]` and `lines[0]` exist) |
| `JsString.SplitPieces` | app/projects/sports-analytics/page.tsx:159 | the pieces of split hold no separator and join back to the text |
| `JsString.SplitCount` | app/projects/sports-analytics/page.tsx:156 | split yields one piece more than there are separators in the text |
| `JsString.SeparatorSplitsUniquely` | app/projects/sports-analytics/page.tsx:159 | two separator-free heads joined by a separator to their tails agree exactly when heads and tails do |
| `JsString.JoinInjective` | app/projects/sports-analytics/page.tsx:159 | joining separator-free pieces is injective |
| `JsString.SplitJoin` | app/projects/sports-analytics/page.tsx:159 | split undoes join on separator-free pieces |
| `JsString.JoinEnds` | app/projects/sports-analytics/page.tsx:156 | a joined text starts with the first piece and ends with the last |
| `JsString.IncludesIffOccurs` | app/projects/sports-analytics/page.tsx:188 | includes holds exactly when the term occurs at some index |
| `JsString.Includes` | app/projects/sports-analytics/page.tsx:188 | String.prototype.includes searching from the start; a term longer than the text is never included (characterised by `IncludesIffOccurs`) |
| `JsString.DigitPrefix` | app/projects/sports-analytics/page.tsx:163 | parseInt's digit run ends at the end of the text or at a non-digit of the radix |
| `JsString.DigitPrefixDigits` | app/projects/sports-analytics/page.tsx:163 | every character of the digit run is a digit of the radix |
| `JsString.Unsigned` | app/projects/sports-analytics/page.tsx:163 | the text parseInt reads digits from, after leading whitespace and one optional sign; never longer than the input |
| `JsString.ParseMagnitude` | app/projects/sports-analytics/page.tsx:163 | the magnitude parseInt reads: radix 16 after a `0x`/`0X` prefix, else radix 10, NaN when there is no digit (read back by `UnsignedNumeral`) |
| `JsString.ParseInt` | app/projects/sports-analytics/page.tsx:163 | the global parseInt with no radix, the sign applied to the magnitude, NaN as `None` (characterised by `ParseIntOfNumeral` and `ParseIntWithoutLeadingDigit`) |
| `JsString.ParseIntOrZero` | app/projects/sports-analytics/page.tsx:163 | `parseInt(x) || 0`: NaN and -0 become 0 (inverse of `IntToString` by `ParseIntToString`) |
| `JsString.NatToString` | app/projects/sports-analytics/page.tsx:355 | toString of a natural number is a non-empty run of decimal digits that starts with 0 only for 0 |
| `JsString.NatToStringValue` | app/projects/sports-analytics/page.tsx:355 | the digits of toString denote the number |
| `JsString.IntToString` | app/projects/sports-analytics/page.tsx:355 | Number.prototype.toString of an integer: never empty, starting with `-` exactly for a negative number |
| `JsString.DigitPrefixOfDigits` | app/projects/sports-analytics/page.tsx:163 | a digit run followed by a non-digit is exactly the digit prefix parseInt reads |
| `JsString.UnsignedNumeral` | app/projects/sports-analytics/page.tsx:163 | an unsigned numeral followed by neither a digit nor `x`/`X` reads back as its value |
| `JsString.NumeralStart` | app/projects/sports-analytics/page.tsx:355 | a numeral starts with `-` or a digit, so parseInt's whitespace skip leaves it alone |
| `JsString.NumeralSign` | app/projects/sports-analytics/page.tsx:163 | parseInt sees the numeral's sign, then the digits of the magnitude |
| `JsString.ParseIntOfNumeral` | app/projects/sports-analytics/page.tsx:163-168 | `parseInt(n.toString() + rest)` is n when rest does not continue the numeral |
| `JsString.ParseIntToString` | app/projects/sports-analytics/page.tsx:355-360 | `parseInt(n.toString())`, with NaN read as 0, is n for every integer n |
| `JsString.ParseIntWithoutLeadingDigit` | app/projects/sports-analytics/page.tsx:163 | with no digit after the whitespace and sign, parseInt is NaN, which the or-zero fallback reads as 0 |
| `JsString.ParseUndefined` | app/projects/sports-analytics/page.tsx:163-168 | a missing column (`undefined`) parses to 0 |
| `JsArray.Filter` | app/projects/sports-analytics/page.tsx:187 | filter keeps exactly the accepted elements (membership both ways) and never lengthens |
| `JsArray.KeptSelects` | app/projects/sports-analytics/page.tsx:344 | the kept positions are increasing and are exactly the accepted ones |
| `JsArray.FilterIsSelection` | app/projects/sports-analytics/page.tsx:187 | the k-th element of filter is the element at the k-th accepted position |
| `JsArray.FilterKeepsAll` | app/projects/sports-analytics/page.tsx:344 | filter leaves a sequence alone when every element is accepted |
| `JsArray.FilterAgrees` | app/projects/sports-analytics/page.tsx:187 | filters by predicates that agree on every element are equal |
| `Sports.Ordinal` | app/projects/sports-analytics/page.tsx:183 | each country sits at its ordinal in the `countries` constant |
| `Sports.PerCountry.Map` | app/projects/sports-analytics/page.tsx:311-316 | mapping the six columns applies the function to each country's value |
| `Sports.Column` | app/projects/sports-analytics/page.tsx:162-168 | `values[k]`, or the text `undefined` past the end of the split line (used by `ParseLineRank`) |
| `Sports.Columns` | app/projects/sports-analytics/page.tsx:163-168 | columns 1..6 of a split line, one per country in the `countries` order |
| `Sports.ParseRanks` | app/projects/sports-analytics/page.tsx:163-168 | each country column through `parseInt(x) || 0` (characterised by `ParseLineRank`) |
| `Sports.ParseLine` | app/projects/sports-analytics/page.tsx:159-169 | one data line: column 0 verbatim as the label, the ranks parsed, the given id |
| `Sports.DataLines` | app/projects/sports-analytics/page.tsx:156-158 | the lines of the trimmed text after the header line (counted by `IngestLines`) |
| `Sports.Records` | app/projects/sports-analytics/page.tsx:158-170 | each data line parsed under its 1-based position (characterised by `RecordsParseLines`) |
| `Sports.Ingest` | app/projects/sports-analytics/page.tsx:156-170 | fetchData's parse, one record per data line; same at components/sports-analytics.tsx:140-155 (characterised by `IngestLines`, inverted by `IngestRender`) |
| `Sports.RecordsParseLines` | app/projects/sports-analytics/page.tsx:158-170 | the k-th record is the parse of the k-th data line under id k+1 |
| `Sports.ParseLineRank` | app/projects/sports-analytics/page.tsx:163-168 | a country's rank is the or-zero parse of its own column, `values[1 + ordinal]` |
| `Sports.IngestLines` | app/projects/sports-analytics/page.tsx:156-170 | one record per line break of the trimmed text, ids 1..n in line order, each the parse of its line (same at components/sports-analytics.tsx:140-155) |
| `Sports.UnparsableColumnIsZero` | app/projects/sports-analytics/page.tsx:163-168 | a missing column, or one with no digit after blanks and sign, gives rank 0 |
| `Sports.RankIsIntegerPrefix` | app/projects/sports-analytics/page.tsx:163-168 | a column holding a numeral followed by a non-continuation (such as `\r`) gives that number |
| `Sports.ParseRenderedRow` | app/projects/sports-analytics/page.tsx:159-169 | a written record line parses back to the record under the given id |
| `Sports.RenderedRowEnd` | app/projects/sports-analytics/page.tsx:156 | a written record line ends with a digit |
| `Sports.RenderedLinesAvoidBreaks` | app/projects/sports-analytics/page.tsx:156 | written lines hold no line break when no label does |
| `Sports.RenderedTextTrimmed` | app/projects/sports-analytics/page.tsx:156 | trim leaves a written table untouched |
| `Sports.RenderedDataLines` | app/projects/sports-analytics/page.tsx:156 | the data lines of a written table are its written record lines |
| `Sports.IngestRender` | app/projects/sports-analytics/page.tsx:156-170 | ingesting a written table gives every record back, renumbered 1..n |
| `Sports.RenderSingle` | app/projects/sports-analytics/page.tsx:156 | a one-record table is written as header, line break, record line |
| `Sports.IngestExample` | app/projects/sports-analytics/page.tsx:156-170 | the header plus `TENNIS,1,3,2,5,4,6` ingests to one record with id 1 and those ranks |
| `Sports.ExampleHeader` | app/projects/sports-analytics/page.tsx:156 | the example header is a single line with no whitespace at either end |
| `Sports.ExampleFields` | app/projects/sports-analytics/page.tsx:355-360 | the example record's fields are its label and the numerals of its ranks |
| `Sports.ExampleLine` | app/projects/sports-analytics/page.tsx:159 | the example line is the written form of its record |
| `Sports.JoinSeven` | app/projects/sports-analytics/page.tsx:159 | seven joined fields spelled out with their separators |
| `Views.FilterSelectsMatches` | app/projects/sports-analytics/page.tsx:186-190 | the search view is exactly the records whose lower-cased label includes the lower-cased term, in their original order (same at components/sports-analytics.tsx:171-175) |
| `Views.FilterEmptyTerm` | app/projects/sports-analytics/page.tsx:186-190 | the empty search term keeps every record |
| `Views.FilterIgnoresCase` | app/projects/sports-analytics/page.tsx:188 | the upper- or lower-cased term selects the same records |
| `Views.Matches` | app/projects/sports-analytics/page.tsx:188 | the lower-cased label includes the lower-cased term |
| `Views.FilteredData` | app/projects/sports-analytics/page.tsx:186-190 | the search view keeps only matching records of the table and never lengthens it; same at components/sports-analytics.tsx:171-175 (order fixed by `FilterSelectsMatches`) |
| `Views.BarChartData` | app/projects/sports-analytics/page.tsx:193-207 | one entry per filtered record with its label: all six ranks for "all", the selected country's rank otherwise (same at components/sports-analytics.tsx:178-192) |
| `Views.BarProjectsColumn` | app/projects/sports-analytics/page.tsx:203-206 | a single-country bar is the selected column of the all-countries bar at the same position |
| `Views.PieSlices` | app/projects/sports-analytics/page.tsx:213-217 | six slices in country order with the display name, the rank and the code |
| `Views.FindBySport` | app/projects/sports-analytics/page.tsx:211 | find gives nothing exactly when no record carries the label |
| `Views.FindIsFirst` | app/projects/sports-analytics/page.tsx:211 | find returns the first record carrying the label |
| `Views.RankSum` | app/projects/sports-analytics/page.tsx:247 | the left fold `reduce((sum, item) => sum + item[country], 0)` (bounds the average in `AverageOf`) |
| `Views.Hundredths` | app/projects/sports-analytics/page.tsx:247-248 | toFixed(2) of total/count is the nearest hundredth, ties away from zero |
| `Views.AverageOf` | app/projects/sports-analytics/page.tsx:246-248 | the entry is the country's and lies within half a hundredth of the exact mean rank |
| `Views.CountryAverages` | app/projects/sports-analytics/page.tsx:246-248 | one average per country, in country order (same at components/sports-analytics.tsx:229-232) |
| `Views.BestStep` | app/projects/sports-analytics/page.tsx:253 | one fold step always yields a leader whose rank is at most the item's and at most the previous leader's |
| `Views.BestSoFar` | app/projects/sports-analytics/page.tsx:252-254 | the fold keeps its `Infinity` start exactly when there are no records |
| `Views.FirstMinimumExists` | app/projects/sports-analytics/page.tsx:252-254 | every non-empty view has a first record holding the minimum rank |
| `Views.BestIsFirstMinimum` | app/projects/sports-analytics/page.tsx:252-254 | the fold ends on the first record holding the country's minimum rank, since only a strictly smaller rank takes the lead |
| `Views.Performers` | app/projects/sports-analytics/page.tsx:251-256 | one best performer per country, in country order (same at components/sports-analytics.tsx:234-239) |
| `Views.WikiTitleFallback` | app/projects/sports-analytics/page.tsx:273-274 | an unmapped name keeps its length, its first character upper-cased and the rest lower-cased |
| `Views.WikiTitleIgnoresCase` | app/projects/sports-analytics/page.tsx:273-274 | the title depends on the name only up to letter case (same at components/sports-analytics.tsx:315-316) |
| `Views.WikiTitleKnown` | app/projects/sports-analytics/page.tsx:102 | `soccer` maps to `Association_football` |
| `Views.WikiTitleUnknown` | app/projects/sports-analytics/page.tsx:274 | `cURLING` is not in the table and becomes `Curling` |
| `Views.Capitalize` | app/projects/sports-analytics/page.tsx:274 | first character upper-cased, the rest lower-cased; the length is kept |
| `Views.WikiTitle` | app/projects/sports-analytics/page.tsx:273-274 | the mapped title of the upper-cased name, else the capitalised name; same at components/sports-analytics.tsx:315-316 (characterised by `WikiTitleFallback`, `WikiTitleIgnoresCase`, `WikiTitleKnown`) |
| `Section.PieBreakdown` | components/sports-analytics.tsx:195-212 | with no selection the first filtered record's slices, or none when the view is empty; with a selection the slices of the first record carrying it, or none exactly when no record does |
| `Section.PieChartData` | components/sports-analytics.tsx:195-212 | no slices or the six slices of one record (contents fixed by `PieBreakdown`) |
| `Section.StatsSummaryContents` | components/sports-analytics.tsx:226-242 | no summary exactly for an empty view; otherwise the count, each country's rounded average in country order, and for each country the first record holding its minimum rank |
| `Section.StatsSummary` | components/sports-analytics.tsx:226-242 | no summary exactly for an empty view; otherwise six averages and six best performers, each a leader rather than the `Infinity` start (contents fixed by `StatsSummaryContents`) |
| `Page.PieAgreesWithSection` | app/projects/sports-analytics/page.tsx:209-218 | the page's pie data equals the section's on every view and selection |
| `Page.PieChartData` | app/projects/sports-analytics/page.tsx:209-218 | no slices or the six slices of one record (equal to the section's by `PieAgreesWithSection`) |
| `Page.InsertByAverage` | app/projects/sports-analytics/page.tsx:249 | one insertion step adds exactly the entry (multiset) |
| `Page.InsertKeepsOrder` | app/projects/sports-analytics/page.tsx:249 | inserting an entry that precedes the rest in country order keeps them sorted by average, ties in country order |
| `Page.SortByAverage` | app/projects/sports-analytics/page.tsx:249 | the sort is a permutation |
| `Page.SortOrdersByAverage` | app/projects/sports-analytics/page.tsx:249 | an input in country order comes out sorted by average with ties in country order, as a stable sort leaves it |
| `Page.AveragesInCountryOrder` | app/projects/sports-analytics/page.tsx:246 | the averages start out in strictly increasing country order |
| `Page.StatsSortsSectionStats` | app/projects/sports-analytics/page.tsx:243-259 | the page's summary is the section's with the averages permuted into sorted order |
| `Page.StatsSummary` | app/projects/sports-analytics/page.tsx:243-259 | no summary exactly for an empty view; otherwise six sorted averages and six best performers, each a leader rather than the `Infinity` start (related to the section's by `StatsSortsSectionStats`) |
| `Page.SortedAveragesListEachCountryOnce` | app/projects/sports-analytics/page.tsx:246-249 | the sorted averages hold each country exactly once, with its own average |
| `Page.TitleForTrimmedTerm` | app/projects/sports-analytics/page.tsx:263-274 | nothing is requested exactly for a blank term; otherwise the title of the trimmed term |
| `Page.OverrideActsAsSearchTerm` | app/projects/sports-analytics/page.tsx:263 | an override term and the same term typed in the search box request the same title |
| `Page.TitleIgnoresPadding` | app/projects/sports-analytics/page.tsx:272-274 | whitespace around the term does not change the title requested |
| `Page.SearchTerm` | app/projects/sports-analytics/page.tsx:263 | `termOverride || wikiSearchTerm`: the override or the typed term, empty only when the typed term is |
| `Page.TitleFor` | app/projects/sports-analytics/page.tsx:264-274 | nothing for a blank term, else the title of the trimmed term (characterised by `TitleForTrimmedTerm`) |
| `Page.SearchTitle` | app/projects/sports-analytics/page.tsx:262-274 | the title searchWikipedia requests for an override and the typed term (see `OverrideActsAsSearchTerm`) |
| `Table.MaxId` | app/projects/sports-analytics/page.tsx:309 | `Math.max(...ids, 0)` is non-negative, bounds every id, and is 0 or an existing id |
| `Table.NewSport` | app/projects/sports-analytics/page.tsx:308-317 | the new record's id is at least 1 and above every existing id |
| `Table.FormRanks` | app/projects/sports-analytics/page.tsx:311-316 | the six form inputs through `parseInt(x) || 0` (inverse of `EditForm`'s ranks by `EditFormRanks`) |
| `Table.Updated` | app/projects/sports-analytics/page.tsx:325-338 | handleUpdate's map, of the same length as the table (characterised by `UpdateTouchesOnlyMatching`) |
| `Table.Removed` | app/projects/sports-analytics/page.tsx:344 | handleDelete's filter keeps exactly the records of the table whose id differs, never lengthening it (order by `DeleteRemovesExactly`) |
| `Table.EditForm` | app/projects/sports-analytics/page.tsx:353-361 | startEdit's form: the record's label and each rank's toString (parsed back by `EditFormRanks`) |
| `Table.IngestIdsUnique` | app/projects/sports-analytics/page.tsx:161 | ingested records have distinct ids |
| `Table.AddKeepsIdsUnique` | app/projects/sports-analytics/page.tsx:307-321 | adding keeps ids distinct (same at components/sports-analytics.tsx:245-259) |
| `Table.DeleteUndoesAdd` | app/projects/sports-analytics/page.tsx:343-345 | deleting the record just added gives the table back |
| `Table.UpdateTouchesOnlyMatching` | app/projects/sports-analytics/page.tsx:323-341 | update keeps the length, every id and every other record; a matching record takes the upper-cased label and parsed ranks; distinct ids stay distinct (same at components/sports-analytics.tsx:261-279) |
| `Table.UpdateAbsentId` | app/projects/sports-analytics/page.tsx:325-338 | updating an id no record carries changes nothing |
| `Table.EditFormRanks` | app/projects/sports-analytics/page.tsx:351-362 | the form startEdit fills parses back to the record's ranks |
| `Table.EditThenUpdate` | app/projects/sports-analytics/page.tsx:323-362 | startEdit then an unchanged save reproduces every rank and upper-cases the label |
| `Table.EditThenUpdateUnchanged` | app/projects/sports-analytics/page.tsx:323-362 | with distinct ids, re-saving an unchanged upper-case record changes nothing |
| `Table.DeleteRemovesExactly` | app/projects/sports-analytics/page.tsx:343-345 | delete drops exactly the records carrying the id and keeps the rest in order (same at components/sports-analytics.tsx:281-283) |
| `Table.DeleteKeepsIdsUnique` | app/projects/sports-analytics/page.tsx:343-345 | deleting keeps ids distinct |
| `Table.DeleteAbsentId` | app/projects/sports-analytics/page.tsx:344 | deleting an id no record carries changes nothing |
| `Table.RankingsTable.constructor` | app/projects/sports-analytics/page.tsx:116-146 | no records, loading, no error, an empty form, nothing being edited, dialog closed; ids are distinct |
| `Table.RankingsTable.FetchData` | app/projects/sports-analytics/page.tsx:150-178 | a fetched text becomes the parsed table with distinct ids; a failed fetch sets the load error and keeps the table, so distinct ids stay distinct; loading ends either way (same at components/sports-analytics.tsx:134-163) |
| `Table.RankingsTable.ResetForm` | app/projects/sports-analytics/page.tsx:347-349 | every input is emptied (same at components/sports-analytics.tsx:285-295) |
| `Table.RankingsTable.HandleAdd` | app/projects/sports-analytics/page.tsx:307-321 | appends the record built from the form, keeps ids distinct, closes the dialog and empties the form |
| `Table.RankingsTable.HandleUpdate` | app/projects/sports-analytics/page.tsx:323-341 | with nothing being edited nothing changes; otherwise the matching records take the form's values, editing ends and the form is emptied; ids stay distinct |
| `Table.RankingsTable.HandleDelete` | app/projects/sports-analytics/page.tsx:343-345 | the table becomes the filtered one, no record carries the id any more, and ids stay distinct |
| `Table.RankingsTable.StartEdit` | app/projects/sports-analytics/page.tsx:351-362 | remembers the record and fills the form with its label and the toString of each rank (same at components/sports-analytics.tsx:297-308) |

## Left out

- Floating point. An average is kept as an exact whole number of hundredths. `toFixed(2)` on the binary double can round a value that lies exactly on a half-hundredth differently. The page's `parseFloat` on the fixed string is replaced by comparing hundredths, which orders the same. The display form of a negative average that rounds to zero (`-0.00`) is not modelled.
- `Views.Hundredths`: it states the rounding of the exact quotient, not of the double `toFixed` sees.
- Number width. parseInt's precision beyond 2^53 is not modelled. Nor is `toString`'s exponent form for magnitudes of 10^21 and above. Ranks are unbounded integers.
- Unicode case mapping. Case mapping covers ASCII letters only. `toLowerCase`/`toUpperCase` on other letters, and any change of length they can cause, are not modelled.
- Wikipedia lookup. `encodeURIComponent`, the HTTP request, the JSON response and every wiki error message are not modelled; the model stops at the page title requested. The same holds for the section's `fetchWikiInfo`, whose title is `WikiTitle` of the untrimmed name.
- Network and asynchrony. The CSV fetch becomes the `FetchOutcome` parameter of `FetchData`. React's asynchronous state updates are modelled as immediate assignments. `lookupSportFromData` (never called) is not modelled, nor is its stale read of `wikiSearchTerm`.
- Charts not in the core. The radar and scatter chart data are not modelled, and neither is any JSX rendering. The line chart renders `barChartData`, modelled by `Views.BarChartData`.
- `fullName`. The page attaches `COUNTRY_NAMES[country]` to averages and performers; it is determined by the country and is left out of `CountryAverage` and `Performer`.
- The unused `headers` line. The section computes `headers` from the first CSV line and never uses it.
- `Sports.CountryName`, `Sports.WikiPageMapping`: constants, modelled without a contract of their own.
- The country selector. `selectedCountry` is modelled as "all" or one of the six codes. Any other string, which would read a missing field, is left out.
- `Table.RankingsTable.StartEdit`: its contract does not repeat that the filled form parses back to the record's ranks. `Table.EditFormRanks` states that.
- `Table.RankingsTable.HandleDelete`: its contract gives the new table through `Table.Removed`, and `Table.DeleteRemovesExactly` characterises that table. The method itself does not restate the order-preservation facts.
- The `Infinity` accumulator of the best-performer fold is modelled as `Unbeaten`. The model never reads its `sport: ""` and `value: Infinity`, because the view is non-empty whenever the summary exists.
