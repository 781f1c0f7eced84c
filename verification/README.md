# NbS dashboard: filters, charts, map glyphs and recommender

A Dafny model of the core of a dashboard of nature-based-solution (NbS)
projects. Each project is one row of a CSV table, held as a map from column
name to text.

The model covers these parts:

- **Filter panel.** The shared filter state declared in `state.js`. The
  twelve facets that `applyFilters` applies to `wholeData` in `filters.js`:
  search, countries, cities, start and end year, NbS-area range, previous
  area type, NbS type, total-cost range, funding, environmental and
  economic impacts. The option lists the panel builds. The event handlers:
  checkboxes, year clicks, sliders, active-filter tags and compare
  checkboxes.
- **Older filter page.** The four-facet filter of `main.js`.
- **Charts.** The country overview with its "Other" bucket, the
  projects-by-year series and the radar data of `charts.js`.
- **Map glyphs.** The city glyphs and pie slices of the two `mapVis.js`
  copies.
- **Recommender, Python side.** Tag splitting, one-hot and multi-hot
  encoding, `fit`, the user vector and the clamped `recommend` of
  `model.py`.
- **Recommender, browser side.** Preference inputs, preference collection,
  HTML escaping and result cards in `recommender.js`.

JavaScript values are modelled explicitly:

- A missing field is `None`; JavaScript sees it as `undefined`.
- `+text` and `Number(text)` follow StringToNumber from section 7.1.4.1.1
  of ECMA-262. The result is a `Num`: `NaN`, plus or minus infinity, or an
  exact real.
- Comparisons involving `NaN` are false.
- `Set` order is first-insertion order, and `d3.rollups` keeps groups in
  first-seen order.
- Sorting is modelled as a sort by the source's comparator. String sort is
  by code point.

Modules, one per source concern:

- `Wrappers`, `Seqs`, `Ordering`, `Grouping`: generic helpers. These are
  Option and Result, filter and map, sorting, and `d3.rollups`.
- `JsNumber`, `JsString`, `PyText`: the JavaScript and Python text and
  number primitives the source relies on.
- `Records`, `FilterState`, `FilterEngine`, `FacetOptions`, `FilterEvents`:
  `filters.js` and `state.js`.
- `LegacyMain`: `main.js`.
- `Charts`: `charts.js`.
- `MapVis`: both copies of `mapVis.js`.
- `RecommenderModel`: `model.py`.
- `RecommenderUi`: `recommender.js`.

The range filters start as `[null, null]`, but `initializeNbsAreaSlider`
and `initializeCostSlider` store `[min, max]` of the numeric values. From then
on the range facet is active, so it drops every record whose value is not a
number (`FilterEvents.InitialRangeAdmitsNumeric`,
`FilterEngine.KeptRecordsHaveKnownValues`).

## Model

| member | source | states |
|---|---|---|
| Records.OrUnknown | project/assets/js/charts.js:147 | the `"Unknown"` fallback yields the field's text when it is truthy (present and non-empty), and the sentinel "Unknown" otherwise |
| JsNumber.ToNumber | project/assets/js/filters.js:320 | unary `+` on a field's text: blank or all-white-space text is 0, as StringToNumber prescribes |
| JsNumber.ToNumberOpt | project/assets/js/filters.js:386 | `+d.nbs_area` on a missing field (`undefined`) is NaN |
| JsNumber.NatToString | code/webapp/assets/js/recommender.js:244 | the decimal numeral of a card's position is non-empty, all digits, without a leading zero |
| JsNumber.NatToStringRoundTrip | code/webapp/assets/js/recommender.js:244 | the numeral a card title starts with converts back to the same number under `Number()` |
| JsNumber.NegativeNatRoundTrip | project/assets/js/filters.js:320 | a minus sign followed by a numeral converts to the negated number |
| JsNumber.NonNumericTextIsNaN | project/assets/js/filters.js:320-321 | a year written with a non-digit letter converts to NaN, so the `!isNaN` filter drops it |
| JsNumber.Sub | project/assets/js/charts.js:8 | `end - begin` on two numbers is their real difference, and NaN when either side is NaN |
| JsString.Trim | project/assets/js/filters.js:172 | `t.trim()` is the text with the white space at both ends removed: it occurs in the input between two all-space margins and neither end is white space |
| JsString.TrimNoSpace | project/assets/js/filters.js:172 | text without white space is left unchanged by `trim()` |
| JsString.Split | project/assets/js/filters.js:172 | `split(";")` gives at least one part, and no part contains the separator |
| JsString.JoinSplit | project/assets/js/filters.js:172 | joining the parts of a `split(";")` with ";" gives back the original text |
| JsString.SplitJoin | project/assets/js/filters.js:172 | splitting a ";"-join of separator-free parts gives back the parts |
| JsString.Lower | project/assets/js/filters.js:118 | lower-casing maps each character on its own and keeps the length |
| JsString.ReplaceAll | code/webapp/assets/js/recommender.js:196-200 | after `replaceAll(c, rep)` with a replacement free of `c`, the text holds no `c`; text without `c` is unchanged |
| JsString.ReplaceAllKeepsOut | code/webapp/assets/js/recommender.js:196-200 | `replaceAll` introduces no character that is in neither the input nor the replacement |
| JsString.ReplaceAllAppend | code/webapp/assets/js/recommender.js:196-200 | `replaceAll` of a concatenation is the concatenation of the replaced parts |
| JsString.SplitOn | project/assets/js/mapVis.js:108 | splitting on a multi-character separator gives at least one part |
| JsString.SplitOnPair | project/assets/js/mapVis.js:107-108 | two separator-free names joined by the separator split back into exactly those two names |
| JsString.SplitOnSeparated | project/assets/js/mapVis.js:108 | a text holding the separator splits into at least two parts, so the destructuring always finds a city and a country |
| JsString.IndexOfSub | code/webapp/assets/js/recommender.js:244 | the first occurrence of a pattern, or the length when it does not occur |
| Seqs.Filter | project/assets/js/filters.js:110 | `Array.filter` keeps exactly the elements satisfying the callback, in order, as a subsequence |
| Seqs.Map | project/assets/js/charts.js:148 | `Array.map` keeps the length and applies the callback position by position |
| Seqs.FilterFilter | project/assets/js/filters.js:105-211 | two successive filters equal one filter by the conjunction of the two tests |
| Seqs.Dedup | code/webapp/assets/js/mapVis.js:135-141 | `Array.from(new Set(xs))` holds each value of `xs` exactly once |
| Seqs.DedupFirstSeen | code/webapp/assets/js/mapVis.js:135-141 | the values of `Array.from(new Set(xs))` come in the order of their first occurrence in `xs` |
| Ordering.SortDistinct | project/assets/js/filters.js:248 | `[...new Set(xs)].sort()` is strictly increasing and has the same elements as `xs` |
| Ordering.StrictlySortedUnique | project/assets/js/filters.js:248 | two strictly sorted lists with the same elements are equal, so the option list does not depend on the record order |
| Ordering.StrLtIsStrictTotalOrder | project/assets/js/filters.js:248 | the default string order of `sort()` is a strict total order |
| Ordering.NumLtIsStrictTotalOrder | project/assets/js/filters.js:322 | the numeric order the year options are sorted by, with NaN (which the options drop beforehand) placed first, is a strict total order |
| Ordering.SortBy | project/assets/js/charts.js:148 | sorting by a comparator gives an ordered permutation of the input |
| Ordering.SortByStable | project/assets/js/charts.js:147 | the sort is stable, as `Array.prototype.sort` is: the entries that compare equal to any given one (countries with the same count) come out in their input order |
| Ordering.PermutationSum | project/assets/js/charts.js:154 | sorting does not change the sum of the counts |
| Grouping.GroupBy | project/assets/js/charts.js:147 | `d3.rollups` makes one group per distinct key, and the group sizes add up to the input length |
| Grouping.GroupByFirstSeen | project/assets/js/charts.js:147 | the groups of `d3.rollups` come in the order their keys first occur in the input, and every group's key does occur |
| Grouping.GroupByMembers | project/assets/js/charts.js:147 | each group is non-empty and holds exactly the elements with its key, in input order; every element's key has a group |
| Grouping.GroupBySizeWhere | project/assets/js/charts.js:420-421 | the groups whose key passes a test hold exactly the elements whose key passes it |
| Grouping.GroupByRekey | project/assets/js/mapVis.js:94-98 | grouping by a joined key that separates the elements as the pair does, then splitting the keys, equals grouping by the pair |
| FilterState.BoundValue | project/assets/js/filters.js:685 | a numeric bound compares as its number; a text bound that the DOM stored compares as `+text` |
| FilterEngine.TruthyValues | project/assets/js/filters.js:111-118 | `.filter(Boolean)` on the search fields keeps every present, non-empty field value, and nothing else |
| FilterEngine.SearchText | project/assets/js/filters.js:111-118 | the searched text holds no upper-case letter |
| FilterEngine.Tags | project/assets/js/filters.js:172 | `split(";").map(t => t.trim())` gives at least one tag, and every tag is already trimmed |
| FilterEngine.TrimIdempotent | project/assets/js/filters.js:172 | trimming twice is trimming once |
| FilterEngine.Narrow | project/assets/js/filters.js:105-211 | the facets applied one after another leave a subsequence of `wholeData` |
| FilterEngine.NarrowIsFilter | project/assets/js/filters.js:105-211 | applying the active facets in turn equals a single filter by the conjunction of their tests |
| FilterEngine.ApplyFilters | project/assets/js/filters.js:105-211 | `filteredData` is a subsequence of `wholeData` holding exactly the records every active facet admits |
| FilterEngine.ApplyFiltersIsConjunction | project/assets/js/filters.js:105-211 | the facet order does not matter: the result is one pass keeping records that satisfy all active facets |
| FilterEngine.AdmitsAllFacetOrder | project/assets/js/filters.js:105-211 | the facet sequence applied by `applyFilters` covers every facet of the filter state |
| FilterEngine.NoActiveFacetKeepsAll | project/assets/js/filters.js:105-211 | with no facet active, `filteredData` is `wholeData` |
| FilterEngine.InitialKeepsAll | project/assets/js/state.js:4-17 | the filter state the page starts with keeps every record |
| FilterEngine.OnlyFacet | project/assets/js/filters.js:105-211 | with one facet active, a record is kept iff that facet's test keeps it |
| FilterEngine.SearchFacet | project/assets/js/filters.js:109-121 | the search alone keeps a record iff the term is empty or occurs in the record's lower-cased joined text |
| FilterEngine.SearchTermLowerCase | project/assets/js/filters.js:118-120 | an active search only keeps records when the term has no upper-case letter, since the text it is looked up in is lower-cased |
| FilterEngine.NbsTypeFacet | project/assets/js/filters.js:168-175 | the NbS-type facet keeps a record iff its type is known and one of its trimmed ";"-tags is selected |
| FilterEngine.KeptRecordsHaveKnownValues | project/assets/js/filters.js:168-211 | while a multi-tag or funding facet is active, every kept record has a known (present, non-empty, not "Unknown") value there; while the cost range is set, every kept cost is a number |
| FilterEngine.NbsAreaRangeInclusive | project/assets/js/filters.js:153-158 | the NbS-area range is inclusive at both ends and drops records whose area is not a number |
| FilterEngine.InRangeFinite | project/assets/js/filters.js:153-158 | a value is in a finite range iff it is a real between the bounds, both ends included |
| FilterEngine.YearThresholds | project/assets/js/filters.js:139-150 | a kept record begins no earlier than the start year and ends no later than the end year, and these years are numbers |
| FacetOptions.SortStrings | project/assets/js/filters.js:429-430 | a de-duplicated, sorted option list holds exactly the input values, each once |
| FacetOptions.PresentValues | project/assets/js/filters.js:248 | the listed values are exactly those some record has in the field |
| FacetOptions.CountryOptions | project/assets/js/filters.js:248 | the country options are sorted and list each country of the data once; a missing country shows as one trailing `undefined`, and only when some record lacks the field |
| FacetOptions.KnownValues | project/assets/js/filters.js:288-289 | a value is kept iff some record has it, it is non-empty and it is not "Unknown" |
| FacetOptions.KnownOptions | project/assets/js/filters.js:288-290 | the city, previous-area and funding options are sorted and list exactly the known values, each once |
| FacetOptions.AllTags | project/assets/js/filters.js:457-464 | the tags gathered are exactly the trimmed ";"-tags of the records whose field is known |
| FacetOptions.TagOptions | project/assets/js/filters.js:457-466 | the NbS-type, environmental and economic options are sorted, distinct, and exactly those tags |
| FacetOptions.NumericValues | project/assets/js/filters.js:386 | the slider's values are exactly the field values that convert to a number |
| FacetOptions.NoNumericValues | project/assets/js/filters.js:386 | with no numeric value in the data, the slider has no values |
| FacetOptions.YearOptions | project/assets/js/filters.js:320-322 | the year options are the distinct numeric years of the data, in increasing order |
| FilterEvents.InitialPageConsistent | project/assets/js/state.js:4-23 | the globals the page starts with satisfy `filteredData == applyFilters(wholeData)` |
| FilterEvents.Refresh | project/assets/js/filters.js:105-106 | after `applyFilters()`, `filteredData` matches the filters, and no other global changes |
| FilterEvents.WithSelected | project/assets/js/state.js:5-15 | replacing the selection of one checkbox panel leaves every other facet unchanged |
| FilterEvents.AddOrDelete | project/assets/js/filters.js:260-264 | after a checkbox change the value is selected iff the box is checked; other values are unchanged |
| FilterEvents.CheckboxChange | project/assets/js/filters.js:257-281 | a checkbox change updates its own panel only, except that a country change also clears the cities; ranges, years, search, the data, the compare set and both slider defaults are unchanged; `filteredData` is refreshed |
| FilterEvents.CheckUncheckRestores | project/assets/js/filters.js:257-311 | checking and then unchecking a value restores the filters |
| FilterEvents.RemoveSetTag | project/assets/js/filters.js:643-660 | a tag's `x` removes exactly its value from its panel, leaves every other panel, the years, both ranges, the search, the data, the compare set and both slider defaults unchanged, and refreshes the results |
| FilterEvents.CityOptionsFor | project/assets/js/filters.js:268-279 | after a country change the city list is sorted and holds exactly the known cities of the selected countries, or of all countries when none is selected |
| FilterEvents.ClickYear | project/assets/js/filters.js:329-343 | clicking the selected year clears the year; clicking any other year selects it |
| FilterEvents.ClickStartYear | project/assets/js/filters.js:329-343 | a start-year click changes only the start year (the data, the compare set and the slider defaults included) and refreshes the results |
| FilterEvents.ClickEndYear | project/assets/js/filters.js:363-377 | an end-year click changes only the end year (the data, the compare set and the slider defaults included) and refreshes the results |
| FilterEvents.YearClickTwice | project/assets/js/filters.js:329-343 | two clicks on the same year option return to no year |
| FilterEvents.Min2 | project/assets/js/filters.js:388 | the smaller of two numbers is one of them and not above either |
| FilterEvents.Max2 | project/assets/js/filters.js:389 | the larger of two numbers is one of them and not below either |
| FilterEvents.MathMin | project/assets/js/filters.js:388 | `Math.min(...xs)` is the least element, and `Infinity` for no arguments |
| FilterEvents.MathMax | project/assets/js/filters.js:389 | `Math.max(...xs)` is the greatest element, and `-Infinity` for no arguments |
| FilterEvents.InitialRange | project/assets/js/filters.js:386-389 | a slider's starting range has two non-NaN numeric bounds |
| FilterEvents.MinMaxRangeAdmits | project/assets/js/filters.js:386-405 | the range from the least to the greatest value admits each of the values and rejects NaN |
| FilterEvents.InitialRangeAdmitsNumeric | project/assets/js/filters.js:385-406 | right after slider initialisation, a record passes the range iff its value is a number |
| FilterEvents.InitialRangeWithoutNumbers | project/assets/js/filters.js:386-389 | with no numeric value the range is `[Infinity, -Infinity]` and admits nothing |
| FilterEvents.InitializeNbsAreaSlider | project/assets/js/filters.js:384-406 | the NbS-area filter and its defaults both become the data's numeric range; nothing else changes |
| FilterEvents.InitializeCostSlider | project/assets/js/filters.js:488-510 | the cost filter and its defaults both become the data's cost range; nothing else changes |
| FilterEvents.SliderRange | project/assets/js/filters.js:408-418 | the range read from two thumbs is ordered and made of the two thumb values |
| FilterEvents.UpdateNbsAreaFilter | project/assets/js/filters.js:408-425 | moving an NbS-area thumb sets the NbS-area range only (both slider defaults, the data and the compare set stay) and refreshes the results |
| FilterEvents.UpdateCostFilter | project/assets/js/filters.js:512-529 | moving a cost thumb sets the cost range only (both slider defaults, the data and the compare set stay) and refreshes the results |
| FilterEvents.ResetNbsAreaAsWritten | project/assets/js/filters.js:685 | the NbS-area tag's `x` stores the slider's `min` and `max` attributes, which are text, changes no other filter, keeps the data, the compare set and both slider defaults, and refreshes the results |
| FilterEvents.ResetNbsAreaAsWrittenKeepsTag | project/assets/js/filters.js:683-695 | after that reset, the `!==` test still shows the tag, although the filtered records are those of the defaults |
| FilterEvents.ResetNbsArea | project/assets/js/filters.js:683-695 | resetting to the numeric defaults changes only the NbS-area range, keeps the data, the compare set and both slider defaults, and makes the tag disappear |
| FilterEvents.ResetTotalCost | project/assets/js/filters.js:719-724 | the cost tag's `x` re-initialises the cost slider and its defaults from `wholeData`, so the cost tag disappears; the other filters, the data, the compare set and the NbS-area defaults stay |
| FilterEvents.SameBoundValuesSameResult | project/assets/js/filters.js:153-158 | ranges whose bounds stand for the same numbers filter identically, whether the bounds are stored as numbers or as text |
| FilterEvents.RemoveStartYearTag | project/assets/js/filters.js:663-670 | the start-year tag's `x` clears the start year only; the data, the compare set and both slider defaults stay, and the results are refreshed |
| FilterEvents.RemoveEndYearTag | project/assets/js/filters.js:673-680 | the end-year tag's `x` clears the end year only; the data, the compare set and both slider defaults stay, and the results are refreshed |
| FilterEvents.RemoveSearchTag | project/assets/js/filters.js:634-640 | the search tag's `x` empties the search only; the data, the compare set and both slider defaults stay, and the results are refreshed |
| FilterEvents.CompareChange | project/assets/js/filters.js:860-868 | after a compare checkbox change, the project is compared iff the box is checked; others are unchanged |
| FilterEvents.ToggleCompare | project/assets/js/mapVis.js:285-290 | the popup's compare button flips the project's membership and leaves the others alone |
| FilterEvents.CompareToggleTwice | code/webapp/assets/js/mapVis.js:248-253 | pressing the compare button twice restores the compare set |
| FilterEvents.CompareBarAfterToggle | project/assets/js/filters.js:875-885 | the compare bar shows iff at least two projects are compared after the toggle |
| FilterEvents.MoveCountryFromChart | project/assets/js/charts.js:281-293 | a chart click flips one country's selection, changes no other filter, keeps the data, the compare set and both slider defaults, and refreshes the results |
| FilterEvents.MoveCountryTwice | project/assets/js/charts.js:281-293 | clicking the same country twice restores the country selection |
| LegacyMain.Embed | project/assets/js/main.js:114-139 | the older page's filter is the full filter state with only its four facets possibly active |
| LegacyMain.LegacyAdmitsAll | project/assets/js/main.js:117-139 | the four facets admit a record iff its country, city, begin year and end year pass the page's four tests |
| LegacyMain.LegacyApplyFilters | project/assets/js/main.js:114-143 | the local result is a subsequence of `wholeData` holding exactly the records that pass the four tests |
| LegacyMain.LegacyAgreesWithFull | project/assets/js/main.js:114-143 | the older page filters as the full `applyFilters` would with the other eight facets off |
| LegacyMain.LegacyCountryChange | project/assets/js/main.js:69-94 | a country change sets the country's selection, clears the cities and rebuilds the sorted city list; the global `filteredData` stays as it was |
| LegacyMain.LegacyCityChange | project/assets/js/main.js:96-108 | a city change sets that city's selection only |
| LegacyMain.LegacyStartYearClick | project/assets/js/main.js:187-200 | a start-year click clears a reselected year or selects the new one |
| LegacyMain.LegacyEndYearClick | project/assets/js/main.js:187-200 | the end-year option toggles the end year in the same way |
| LegacyMain.LegacyInitialKeepsAll | project/assets/js/main.js:114-143 | before any click the older page keeps every record |
| Charts.CountNotLessIsTotalPreorder | project/assets/js/charts.js:148 | the comparator `b.count - a.count` orders the entries totally, so the sort is well defined |
| Charts.SumCountryCounts | project/assets/js/charts.js:147-148 | the rollup's counts add up to the number of grouped records |
| Charts.RollupEntries | project/assets/js/charts.js:147-148 | each rollup entry counts one country; the countries are distinct; every record's country has an entry; the counts sum to the record count |
| Charts.SortedRollupEntries | project/assets/js/charts.js:148 | those facts survive sorting the rollup |
| Charts.Summed | project/assets/js/charts.js:147-148 | `summed` lists each country of the data once, with its exact count, by decreasing count; the counts sum to the number of records |
| Charts.TopBucketSum | project/assets/js/charts.js:152-160 | the "Other" bucket's count makes the bars add up to the same total |
| Charts.TopBucketCovers | project/assets/js/charts.js:152-160 | every record's country either has its own bar or has no more projects than any top bar |
| Charts.AllShown | project/assets/js/charts.js:150 | every record's country has its own bar in `summed`, which is returned whole when it fits the limit |
| Charts.TopBucketShape | project/assets/js/charts.js:152-162 | the top bars keep the sorted order and "Other" comes last |
| Charts.OverviewProjectsCountry | project/assets/js/charts.js:146-164 | the bars total the record count; at most `top` country bars and then one "Other"; country bars are distinct and exact and in decreasing order; a record's country missing from the bars has no more projects than any top bar |
| Charts.SummedTiesFirstSeen | project/assets/js/charts.js:147-148 | two countries of `summed` with the same count come in the order the data first mentions them, because the rollup lists keys by first occurrence and the sort is stable |
| Charts.OverviewCutFirstSeen | project/assets/js/charts.js:150-152 | when countries with equal counts straddle the cut at `top`, the ones with bars are those the data mentions first: a country left in "Other" was first mentioned after every country bar with its count |
| Charts.BarClick | project/assets/js/charts.js:275-279 | clicking the "Other" bar changes nothing; clicking a country bar flips that country only and refreshes the results |
| Charts.YearNotAfterIsTotalPreorder | project/assets/js/charts.js:423 | the comparator `a.year - b.year` orders numeric years totally |
| Charts.SumYearCounts | project/assets/js/charts.js:420-421 | the counts of the numeric-year entries add up to the number of records with a numeric begin year |
| Charts.YearRollupEntries | project/assets/js/charts.js:420-422 | each year entry counts one numeric year exactly; the years are distinct; every numeric year has an entry |
| Charts.SortedYearEntries | project/assets/js/charts.js:423 | those facts survive sorting, which makes the years strictly increasing |
| Charts.ProjectsByYear | project/assets/js/charts.js:416-424 | the series has one entry per numeric begin year, in strictly increasing year order, each with the exact count; records without a numeric year are left out |
| Charts.RadarData | project/assets/js/charts.js:2-13 | one radar entry per project, in order, carrying its name, `+nbs_area`, `+total_cost` and `end_year - begin_year` |
| Charts.DurationOfWrittenYears | project/assets/js/charts.js:8 | a project with plainly written years lasts their difference |
| Charts.DurationWithoutYear | project/assets/js/charts.js:8 | a project lacking a year has a NaN duration |
| MapVis.DecodeHasTwoParts | project/assets/js/mapVis.js:107-108 | a joined key always splits into at least a city part and a country part |
| MapVis.DecodeEncode | project/assets/js/mapVis.js:97-108 | for names without a bar character, splitting the joined key gives back the city and the country |
| MapVis.RowIndex | project/assets/js/mapVis.js:110 | the position of the first city-table row at the place, or the table length when none is |
| MapVis.FindRow | project/assets/js/mapVis.js:110 | `cityData.find` finds a row iff one is at the place, and then the first one |
| MapVis.Locate | project/assets/js/mapVis.js:107-121 | a group becomes a glyph iff the city table has a row at its place; the glyph carries the group's projects, their count and that row's coordinates |
| MapVis.LocateAll | project/assets/js/mapVis.js:107-122 | after dropping the nulls, every glyph comes from a group, and the glyph counts do not exceed the group sizes |
| MapVis.LocateAllCovers | project/assets/js/mapVis.js:107-122 | every group whose place is in the city table gets its glyph |
| MapVis.LocateAllDistinct | project/assets/js/mapVis.js:107-122 | groups with distinct places give glyphs at distinct places |
| MapVis.PairGlyphContents | project/assets/js/mapVis.js:94-122 | each glyph holds exactly the projects at its place |
| MapVis.PairGlyphCoverage | project/assets/js/mapVis.js:94-122 | a project's place has a glyph exactly when the city table has a row there |
| MapVis.CityGlyphs | code/webapp/assets/js/mapVis.js:97-124 | grouped by the (city, country) pair itself, the glyphs sit at distinct places, each holds exactly its place's projects, and every project at a listed place is drawn |
| MapVis.CityGlyphsAsWritten | code/webapp/assets/js/mapVis.js:100-121 | with the joined text key, each glyph comes from one group of the text-keyed rollup: it sits at that key split back into a place, at a row of the city table, and shows exactly the projects whose joined key is that key, counted |
| MapVis.AsWrittenAgrees | project/assets/js/mapVis.js:94-122 | when no city or country name contains a bar, the joined-key grouping draws the same glyphs as grouping by the pair |
| MapVis.DecodeMerged | project/assets/js/mapVis.js:108 | a key with an extra separator decodes to its first two parts only |
| MapVis.BarredPlacesMerge | project/assets/js/mapVis.js:97 | two projects at different places share one joined key, so the rollup makes one group where the pair grouping makes two |
| MapVis.BarredGroup | project/assets/js/mapVis.js:94-98 | the rollup puts both projects in one group under the merged key |
| MapVis.BarredGlyphsAsWritten | project/assets/js/mapVis.js:94-122 | the written code draws one glyph of count 2 at a place where neither project is |
| MapVis.BarredGlyphsIntended | project/assets/js/mapVis.js:94-122 | grouping by the pair draws no glyph for them |
| MapVis.SumSlices | project/assets/js/mapVis.js:169-172 | the slice values add up to the glyph's project count |
| MapVis.PieData | project/assets/js/mapVis.js:169-172 | one slice per distinct category (missing shown as "Unknown"), each with its exact count, ordered by the first project carrying each category; the slices total the project count |
| MapVis.PieCoversGlyph | code/webapp/assets/js/mapVis.js:168-171 | a glyph's pie covers exactly its projects |
| MapVis.Projects | code/webapp/assets/js/mapVis.js:135-139 | the projects visited are exactly those of the glyphs |
| MapVis.Categories | code/webapp/assets/js/mapVis.js:135-141 | the colour domain lists each category of any glyph's projects once |
| MapVis.CategoriesFirstSeen | code/webapp/assets/js/mapVis.js:135-141 | the colour domain is ordered by first appearance, glyph by glyph |
| PyText.Strip | code/webapp/recommenderSystem/model.py:74 | `str.strip()` leaves no white space at either end, adds no character, keeps stripped text, and is empty iff the text is all white space |
| PyText.Segments | code/webapp/recommenderSystem/model.py:77 | `re.split(r"[\n;,]+")` gives at least one part, no part holds a separator, and no character is invented |
| PyText.SegmentsJoin | code/webapp/recommenderSystem/model.py:77 | splitting the ";"-join of non-empty separator-free texts gives them back |
| PyText.JoinStripped | code/webapp/recommenderSystem/model.py:74 | a join that starts and ends with stripped non-empty texts is itself stripped and non-empty |
| RecommenderModel.Clamp | code/webapp/recommenderSystem/model.py:65 | `max(3, min(10, n))` is between 3 and 10, is `n` when `n` is in range, and otherwise the nearer end |
| RecommenderModel.ClampIdempotentMonotone | code/webapp/recommenderSystem/model.py:268 | clamping twice is clamping once, and clamping keeps the order of counts |
| RecommenderModel.ParseInt | code/webapp/recommenderSystem/model.py:62 | `int(t)` succeeds exactly on a non-empty digit string, optionally after one `+` or `-`; the value is the decimal value, negated after `-`; empty text, a lone sign or any other character fails |
| RecommenderModel.ChooseK | code/webapp/recommenderSystem/model.py:60-65 | the CLI count is between 3 and 10: 5 when the answer does not parse, else the clamped answer |
| RecommenderModel.ChooseKTyped | code/webapp/recommenderSystem/model.py:60-65 | typing a count in decimal gets that count, clamped |
| RecommenderModel.SplitMultivalue | code/webapp/recommenderSystem/model.py:70-78 | a missing, NaN, blank or "unknown" cell gives no tags; every tag is non-empty, stripped, separator-free and made of the cell's characters |
| RecommenderModel.SplitJoinedTags | code/webapp/recommenderSystem/model.py:70-78 | tags joined with ";" split back into the same tags, unless the join reads "unknown" |
| RecommenderModel.Partition | code/webapp/recommenderSystem/model.py:148-150 | the numeric and categorical columns keep the selection order and are exactly the selected allowed ones; funding is used iff selected |
| RecommenderModel.PartitionExact | code/webapp/recommenderSystem/model.py:148-150 | each selected feature of the menu is used in exactly one way |
| RecommenderModel.Levels | code/webapp/recommenderSystem/model.py:191 | a column's levels are sorted, distinct, and exactly its cell texts with missing cells as "Unknown" |
| RecommenderModel.AllRowTags | code/webapp/recommenderSystem/model.py:171-172 | the gathered tags are exactly those of some row |
| RecommenderModel.Vocab | code/webapp/recommenderSystem/model.py:172 | the funding vocabulary is sorted, distinct and exactly the tags of the rows |
| RecommenderModel.OneHot | code/webapp/recommenderSystem/model.py:194-200 | a one-hot block has one entry per level, 1 exactly where the level is the value, and 0 elsewhere |
| RecommenderModel.OneHotOnes | code/webapp/recommenderSystem/model.py:194-200 | over distinct levels, a block has a single 1 when the value is a level, and none otherwise |
| RecommenderModel.OneHotRoundTrip | code/webapp/recommenderSystem/model.py:194-200 | decoding the block gives the level back; a value that is not a level gives an all-zero block |
| RecommenderModel.MultiHot | code/webapp/recommenderSystem/model.py:205-212 | a multi-hot vector has 1 exactly at the vocabulary entries among the tags |
| RecommenderModel.DecodeMultiHot | code/webapp/recommenderSystem/model.py:205-212 | the tags a vector marks are vocabulary entries |
| RecommenderModel.MultiHotRoundTrip | code/webapp/recommenderSystem/model.py:205-212 | decoding gives exactly the tags that are in the vocabulary |
| RecommenderModel.FirstAbsentUnique | code/webapp/recommenderSystem/model.py:153-161 | the first listed column missing from the frame is determined: two columns that are both first absent are the same |
| RecommenderModel.FirstMissing | code/webapp/recommenderSystem/model.py:153-161 | the column the checking loop stops at is absent and every column listed before it is present; none iff every listed column is present |
| RecommenderModel.MissingColumn | code/webapp/recommenderSystem/model.py:153-170 | the `KeyError` column is a needed column absent from the frame: the first absent categorical column when there is one, else the first absent numeric column, else the funding column when funding is used and absent; none iff every needed column is present |
| RecommenderModel.Fit | code/webapp/recommenderSystem/model.py:136-218 | `fit` fails iff a used feature's column is missing, and the `KeyError` names the column the checks reach first; on success it keeps the column partition and stores the cleaned copy `work`, where each categorical cell is its text with a missing or NaN cell as "Unknown" and every other cell is kept, with one encoding per row |
| RecommenderModel.CleanTable | code/webapp/recommenderSystem/model.py:153-156 | `fillna("Unknown").astype(str)` sets each categorical cell to its category text, keeps every other cell, and changes no row's category text |
| RecommenderModel.FitEncodesStoredRows | code/webapp/recommenderSystem/model.py:187-217 | the stored levels, funding vocabulary and row encodings are exactly those computed from the stored cleaned table |
| RecommenderModel.FitLevels | code/webapp/recommenderSystem/model.py:189-192 | each categorical column's stored levels are sorted, distinct and exactly its cell texts |
| RecommenderModel.FitOneHot | code/webapp/recommenderSystem/model.py:189-201 | every row has exactly one 1 in each categorical block, at its own level |
| RecommenderModel.FitMultiHot | code/webapp/recommenderSystem/model.py:166-212 | with funding selected, a row's vector marks exactly its own tags |
| RecommenderModel.UserCategory | code/webapp/recommenderSystem/model.py:226-233 | a non-empty text preference gives the one-hot block of its value; anything else gives a zero block |
| RecommenderModel.UserCategoryDecodes | code/webapp/recommenderSystem/model.py:226-233 | a preference naming a level decodes back to that level; otherwise the block is all zero |
| RecommenderModel.UserCategoryBlock | code/webapp/recommenderSystem/model.py:220-233 | a categorical preference that is not among the fitted levels contributes nothing to the user vector |
| RecommenderModel.UserFundingTags | code/webapp/recommenderSystem/model.py:237-245 | a text preference is split like a table cell; a list gives exactly its stripped non-blank items, in list order; anything else gives no tags |
| RecommenderModel.MakeUserVector | code/webapp/recommenderSystem/model.py:220-255 | the user vector has one block per categorical column, the preference's block, followed by the multi-hot of the funding tags when funding is used |
| RecommenderModel.Recommend | code/webapp/recommenderSystem/model.py:264-275 | `recommend` fails iff the model is not fitted; otherwise, given a reordering of the stored table, it returns exactly the first `max(3, min(10, n))` rows of it (all of them when the table is shorter), each a row of the stored table, with no row repeated more often than in the table |
| RecommenderUi.EscapeHtmlNoMarkup | code/webapp/assets/js/recommender.js:194-201 | escaped text holds no `<`, `>`, `"` or `'` |
| RecommenderUi.EscapeHtmlPlain | code/webapp/assets/js/recommender.js:194-201 | text without any of the five special characters passes through unchanged |
| RecommenderUi.EscapeHtmlPerChar | code/webapp/assets/js/recommender.js:194-201 | the five passes, with `&` first, equal escaping every character on its own, so no entity is escaped twice |
| RecommenderUi.EscapeHtmlAmpersands | code/webapp/assets/js/recommender.js:194-201 | every `&` in the output begins one of the five entities |
| RecommenderUi.UnescapeEscape | code/webapp/assets/js/recommender.js:194-201 | decoding the five entities gives back the original text, so escaping loses nothing |
| RecommenderUi.FeatureKeysMatchModel | code/webapp/assets/js/recommender.js:3-11 | the page's feature menu has the same keys, in the same order, as the Python model's feature choices |
| RecommenderUi.FeatureKindsMatchModel | code/webapp/assets/js/recommender.js:3-11 | each feature's input type agrees with the model's column kinds: categorical exactly for the one-hot columns, numeric exactly for the scaled ones, multi-tag exactly for the funding column |
| RecommenderUi.FindFeature | code/webapp/assets/js/recommender.js:146-147 | `RS_FEATURES.find` finds a feature iff the key is in the menu, and it is the one with that key |
| RecommenderUi.ListSize | code/webapp/assets/js/recommender.js:124 | the multi-select shows between 4 and 8 rows, as many as options when that is in range |
| RecommenderUi.FiniteBound | code/webapp/assets/js/recommender.js:103-104 | a number input gets a `min` or `max` exactly when the meta bound is finite |
| RecommenderUi.WidgetFor | code/webapp/assets/js/recommender.js:62-162 | a feature gets the widget of its type with the matching caption; a select lists the meta's levels, or none; a number input takes each of `min` and `max` from the meta range exactly when that bound is finite, and has neither without a range; a multi-select lists the funding tags |
| RecommenderUi.WidgetsFor | code/webapp/assets/js/recommender.js:145-163 | one widget per selected key that names a feature, in the selection order, each suiting its feature |
| RecommenderUi.BuildInputs | code/webapp/assets/js/recommender.js:138-164 | without meta there are no inputs; otherwise one suitable widget per known selected key |
| RecommenderUi.BuildInputsKeys | code/webapp/assets/js/recommender.js:138-164 | a key gets an input iff it is selected and is a feature |
| RecommenderUi.SelectValues | code/webapp/assets/js/recommender.js:74-84 | a select offers the empty "(optional)" choice first and then exactly its options |
| RecommenderUi.PrefFor | code/webapp/assets/js/recommender.js:174-188 | a multi-select gives its non-empty choices when there are any; a single input gives nothing when empty; numeric keys give a non-NaN number; other keys give the text |
| RecommenderUi.Preferences | code/webapp/assets/js/recommender.js:166-192 | the preference map has exactly the selected keys whose input yields a preference, with that preference |
| RecommenderUi.NumberPrefReadBack | code/webapp/assets/js/recommender.js:182-184 | a number typed in decimal reaches the model as that number |
| RecommenderUi.CategoricalChoiceReachesModel | code/webapp/assets/js/recommender.js:180-187 | a chosen level reaches the model's one-hot block as that level; the empty choice gives an all-zero block |
| RecommenderUi.FundingChoiceReachesModel | code/webapp/assets/js/recommender.js:174-177 | the funding tags chosen in the multi-select are exactly the model's user tags |
| RecommenderUi.OrText | code/webapp/assets/js/recommender.js:244-246 | the `or` fallback of a card field is the value's text when it is truthy, else the fallback |
| RecommenderUi.TitleNumberReadsBack | code/webapp/assets/js/recommender.js:244 | a card title starts with its position, which reads back as that number |
| RecommenderUi.Details | code/webapp/assets/js/recommender.js:229-259 | the detail lines are the important fields, in their order, that the item has with a non-blank value, each carrying the raw value |
| RecommenderUi.LinkTarget | code/webapp/assets/js/recommender.js:248-250 | a link is shown iff `item.link` is truthy; its escaped target holds no `"`, so it cannot leave the `href` attribute, and decodes back to the link |
| RecommenderUi.Render | code/webapp/assets/js/recommender.js:217-270 | no items, or none at all, gives the "no recommendations" message; otherwise one card per item, in order, numbered from 1 |
| RecommenderUi.RenderedCard | code/webapp/assets/js/recommender.js:240-266 | card `i` is titled with number `i + 1` and shows exactly the important fields the item has |

## Left out

- Drawing: DOM building, `innerHTML` templating, CSS class toggles (`active`, `open`, `selected`, `hidden`), d3 scales, axes, arcs, projections, zoom, tooltips and popups. They are outside the data logic.
- The search box's input handler is not part of the modelled files. `filters.search` is taken as given, without lower-casing it.
- Loading: `d3.csv`, `fetch` of the recommender meta and results, and server code. These are I/O; the loaded data is a parameter.
- The order of the recommender's selected feature chips (Sortable drag and drop) is not modelled; the selected keys are a parameter.
- Radar-chart normalisation against `radarMaxValues`, and every use of floating point. Numbers are exact reals, so IEEE rounding and overflow are not modelled.
- Unicode case mapping: `toLocaleLowerCase` and Python's `lower()` are modelled for ASCII letters only.
- String ordering: `sort()` compares UTF-16 code units and the model compares code points. They differ only for characters outside the Basic Multilingual Plane.
- RecommenderModel.Fit: numeric columns are not modelled. That covers the median fill, `log1p`, the scaler, the numeric part of the matrix and of the user vector, and cosine similarity; this is floating point.
- RecommenderModel.Fit: the `duration` column that `fit` adds to `work` is not stored in the rows, and numeric cells are stored as they are in the input rather than coerced and median-filled; both are floating point.
- RecommenderModel.Fit: `str()` of non-text cells is not modelled. Cells are missing, NaN or text.
- RecommenderModel.Fit: a failed `fit` that leaves attributes half-updated is not modelled. A failure is a result value.
- RecommenderModel.Recommend: the ranking by similarity is a parameter (`ranked`, any reordering of the stored table), since similarity is floating point. Only the clamp, the head and the not-fitted error are modelled. The added `similarity` column and the reordering of the columns with `preferred_first` (model.py:273-292) are not modelled either; a row is returned with its stored cells.
- RecommenderModel.ParseInt: Python's `int()` also accepts underscores between digits and non-ASCII digits; only ASCII digits with an optional sign are modelled.
- RecommenderModel.UserCategory: a categorical preference that is a number or a list is converted with `str()` in Python; the model gives it a zero block.
- The command-line feature chooser of `model.py` beyond the count prompt is not modelled. It is console I/O.
- RecommenderUi.Details: `formatNumber` (`toLocaleString`) is locale-dependent; a detail keeps the raw value rather than its formatted text.
- RecommenderUi.Render: `String(n)` of a number cell is the `text` field carried by the number value; JavaScript's number-to-text algorithm is not modelled.
- The number input's placeholder text and the browser's own sanitising of number input values are not modelled.
- Event listeners that each re-render adds again (duplicate handlers) are not modelled. Each event is applied once.

## Findings

| source | as written | input that shows it | evidently intended | confidence | as-written member | corrected member |
|---|---|---|---|---|---|---|
| project/assets/js/filters.js:683-695 | the NbS-area tag's `x` sets `filters.nbsArea` to the slider's `min` and `max` attributes, which are strings, while `nbsAreaDefaults` holds numbers, so the `!==` test at line 683 stays true | any page after `initializeNbsAreaSlider`, where the NbS-area tag's `x` is clicked: the filtered records are those of the defaults, yet the tag is shown again | restore the numeric defaults, so the tag disappears | not executed | FilterEvents.ResetNbsAreaAsWrittenKeepsTag | FilterEvents.ResetNbsArea |
| project/assets/js/mapVis.js:94-110 | projects are grouped by a text key that joins city and country with a triple-bar separator, and the key is split back, so names containing the separator merge different places | projects {city "A", bars, "B"; country "C"} and {city "A"; country "B", bars, "C"}, where "bars" is the separator with a city table row at ("A", "B"): one glyph of count 2 is drawn at ("A", "B") | one group per (city, country) pair; neither project is at ("A", "B"), so no glyph | not executed | MapVis.BarredGlyphsAsWritten | MapVis.CityGlyphs |
