# Fuel-price dashboard: filter, cache, outliers and overview figures

This project models the plumbing of a fuel-price analytics dashboard for Belo
Horizonte. The model covers:

- the record filter that produces the active view;
- the per-chapter statistics cache and how a filter change empties it;
- the interquartile-range outlier detector;
- the figures of the overview chapter: record and station counts, the fuels
  and regions present, the four `countBy` tallies, the sorted semester axis
  and the ten brands with most records.

The model is written in Dafny and proved.

Modules, in dependency order:

- `Collections` (`collections.dfy`): the array and lodash operations the
  dashboard uses (`filter`, `map`, `uniq`, `uniqBy`, `countBy`, `toPairs`,
  `sortBy`, `reverse`). Each one comes with a specification: subsequence,
  membership, multiplicity, counts, sortedness and permutation.
- `Lexical` (`lexical.dfy`): the order that `Array.prototype.sort` without a
  comparator puts strings in, proved to be a total order.
- `Records` (`records.dfy`): the observation record and the unidentified-region
  label.
- `FilterEngine` (`filter_engine.dfy`): the filter predicate of `applyFilters`.
- `Outliers` (`outliers.dfy`): `detectOutliers`.
- `StatsCache` (`stats_cache.dfy`): the cache. `Fetch` is a pure
  specification of compute-or-fetch. The class `StatsCache` holds the
  `map<string, V>` that `getCachedStats` updates in place and that the
  filter step empties.
- `Overview` (`overview.dfy`): the computations in `renderChapterOverview`,
  without the markup.
- `Dashboard` (`dashboard.dfy`): the application state of `js/main.js`
  (`allData`, `filteredData`, `statsCache`), with `applyFilters` and the
  overview case of `renderActiveChapter`. Its invariant says that a cached
  overview entry is always the statistics of the loaded data.

Two behaviours of the dashboard's code are worth knowing; the model follows
the code in both:

- The overview chapter is computed from `allData`, not from `filteredData`
  (`js/main.js:107`), so the overview ignores the filter.
- `_.countBy` keeps its keys in the order they are first met, and the top-10
  chart's tie order depends on that. The model therefore represents a tally
  as a `Tally` value: the keys in insertion order plus a map from key to count,
  and `Collections.CountByKeyOrder` with `Collections.UniqByKeepsFirst`
  proves that order is first occurrence.

I/O is not modelled. The three filter values are parameters of
`ApplyFilters`, not reads from the form widgets. The loaded data is a
parameter of the `Dashboard` constructor.

## Model

| member | source | states |
|---|---|---|
| FilterEngine.ApplyFilter | js/main.js:71-75 | the result is a subsequence of the data (original order kept); a record is kept iff the semester is "all" or matches, the fuel selection is empty or contains its product, and the region is "all" or matches; each kept record keeps its multiplicity, others have none |
| FilterEngine.NoRestrictionKeepsAll | js/main.js:72-74 | with semester "all", no fuel checked and region "all" the filter returns the data unchanged |
| FilterEngine.EmptyFuelSelectionExcludesNothing | js/main.js:73 | an empty fuel selection gives the same result as selecting every fuel that occurs in the data |
| FilterEngine.ApplyFilterIdempotent | js/main.js:71-75 | filtering the filtered view again with the same values changes nothing |
| FilterEngine.ApplyFilterAppend | js/main.js:71-75 | filtering concatenated data is concatenating the filtered parts |
| Dashboard.Dashboard.constructor | js/main.js:11-14 | the state starts with the loaded data, an empty filtered view and an empty cache |
| Dashboard.Dashboard.ApplyFilters | js/main.js:71-77 | afterwards the filtered view is the filter of the loaded data and the cache is empty; the cache invariant holds |
| Dashboard.Dashboard.ApplyFiltersAndRender | js/main.js:66-78 | with the overview as the active chapter: the filtered view is the filter of the loaded data, the overview figures are those of fresh statistics of all the data, and the cache then holds exactly the overview entry |
| Dashboard.Dashboard.RenderOverview | js/main.js:105-108 | the overview figures are those of freshly computed statistics of all the data, whether the cache hit or missed; the cache then holds the overview entry and the invariant still holds |
| StatsCache.Fetch | js/main.js:93-97 | after compute-or-fetch the key is present and maps to the returned value; the keys grow by exactly that key; every existing entry is unchanged; on a miss the calculator's result is returned |
| StatsCache.FetchHit | js/main.js:94 | on a hit the stored value is returned and the entries are unchanged |
| StatsCache.FetchTwice | js/main.js:93-97 | two fetches of the same key with no clear in between return the same value and the second leaves the entries as they were, whatever the calculator returns the second time |
| StatsCache.StatsCache.GetCached | js/main.js:93-97 | the method returns and stores exactly what `Fetch` specifies: on a hit the stored value with the map unchanged, on a miss the computed value with only that key added |
| StatsCache.StatsCache.constructor | js/main.js:14 | the cache starts empty |
| StatsCache.StatsCache.Clear | js/main.js:77 | afterwards the cache is empty |
| Outliers.DetectOutliers | js/main.js:98-103 | empty when any quartile argument is missing; otherwise the result is a subsequence of the data holding exactly the values below q1 - 1.5 iqr or above q3 + 1.5 iqr, each with its multiplicity |
| Outliers.DetectOutliersIdempotent | js/main.js:98-103 | running the detector on its own output with the same quartiles returns that output |
| Outliers.AppendInsideFences | js/main.js:100-102 | appending a value between the two fences leaves the outliers unchanged |
| Collections.Filter | js/main.js:71 | `Array.prototype.filter`: a subsequence of the input, membership iff the predicate holds, multiplicities kept for kept elements |
| Collections.FilterIdempotent | js/main.js:102 | filtering twice by the same predicate equals filtering once |
| Collections.MapSeq | js/ui.js:10-11 | `Array.prototype.map`: as long as the input, each position holds the function of the input at that position, and the values are exactly the images of the input's elements |
| Collections.UniqBy | js/ui.js:9 | `_.uniqBy`: a subsequence with pairwise distinct keys covering every key of the input; its length is the number of distinct keys and at most the input length |
| Collections.UniqByKeepsFirst | js/ui.js:9 | every element `_.uniqBy` keeps is the first element of the data with its key |
| Collections.Uniq | js/ui.js:10-11 | `_.uniq`: a duplicate-free subsequence with the same elements as the input |
| Collections.CountBy | js/ui.js:14-17 | `_.countBy`: the keys are duplicate-free and are exactly the keys present in the data; each count is the number of elements with that key |
| Collections.CountByKeyOrder | js/ui.js:14-17 | the tally's keys are, position by position, the keys of the elements `_.uniqBy` keeps (the first element of each key, by `UniqByKeepsFirst`), in the order they occur in the data |
| Collections.ValuesAt | js/ui.js:59 | `keys.map(k => tally[k])`: one value per key, each the value stored under the key at the same position |
| Collections.ToPairs | js/ui.js:72 | `_.toPairs` of a tally: one pair per key, in key order, each pairing the key with its count |
| Collections.SortWith | js/ui.js:72 | the stable sort (`_.sortBy`, and `.sort()` with the default order) returns a permutation of its input |
| Collections.CountByConservation | js/ui.js:62-69 | read in key order, the tally's values are the per-key counts, and they sum to the number of records |
| Collections.Reverse | js/ui.js:72 | `.reverse()`: as long as the input, with position i holding the input's element at position length - 1 - i |
| Collections.SortWithSorted | js/ui.js:58 | the stable insertion sort yields a sequence ordered by any total, transitive order |
| Lexical.LexLeIsTotalOrder | js/ui.js:58 | the default string sort order is total and transitive |
| Lexical.LexLeAntisymmetric | js/ui.js:58 | two strings that each sort no later than the other are equal |
| Overview.UniqueStations | js/ui.js:9 | the number of distinct station identifiers, at most the number of records |
| Overview.FuelTypes | js/ui.js:10 | duplicate-free, and contains exactly the products occurring in the data |
| Overview.Regionals | js/ui.js:11 | duplicate-free, never the unidentified label, and contains every other region occurring in the data |
| Overview.ComputeOverviewStats | js/ui.js:13-18 | each of the four tallies has as keys exactly the values of its field in the data, and each count is the number of records with that value |
| Overview.SortedSemesters | js/ui.js:58 | a permutation of the semester tally's keys, in strictly ascending string order |
| Overview.SemesterChartCounts | js/ui.js:57-59 | each semester chart value is the number of records of the semester at the same position, and the values sum to the number of records |
| Overview.Top10Brands | js/ui.js:72 | at most 10 entries (all brands if there are fewer); each pairs a brand with its tally count; counts descend and brands are distinct; no brand is left out whose count exceeds that of an included one |
| Overview.OverviewOf | js/ui.js:8-72 | the record count is the length of the data; each chart has as many values as labels |
| Overview.OverviewChartsCount | js/ui.js:8-69 | on statistics of the same data: stations at most records; every semester, fuel and region chart value is the count of its label, and each chart sums to the number of records; the region chart shows the unidentified label iff some record has it |

## Left out

- Markup, charts, icons and number formatting (`innerHTML`, `createMetricCard`, `createChartCard`, `createBHMap`, `createSidebar`, the chart calls, `lucide.createIcons`, `toLocaleString`): presentation with no stateable logic.
- Event wiring and navigation (`setupEventListeners`, `setActiveChapter`, `renderNavigation`, `initUI`), the asynchronous start-up in `main` and its error message: I/O and UI.
- Reading the filter values from the form widgets (`js/main.js:67-69`): the values are parameters.
- The distribution, temporal and regional chapters and their calculators (mean, median, standard deviation, quartiles, regression, seasonality), and the placeholder correlation and insight chapters: the calculators are in `js/ui.js`'s other chapters and in files that are not part of this model. For the same reason the cache in `Dashboard` holds only overview statistics.
- Dashboard.Dashboard.ApplyFilters: stops after emptying the cache (`js/main.js:77`); the re-render of line 78 is `RenderOverview`, and `ApplyFiltersAndRender` is the two together. The dashboard's other chapters, which `renderActiveChapter` would show when one of them is active, are not part of this model (see below), so the active chapter is always the overview, the one the dashboard opens on (`js/main.js:13`).
- StatsCache.StatsCache.GetCached: takes the calculator's result as a value, so it does not model that the calculator runs only on a miss. The calculators are pure, so the returned value and the new state are the same.
- The JavaScript truthiness test `if (statsCache[key])` is modelled as key membership; the cached objects are always truthy.
- Outliers.DetectOutliers: a quartile that is not a number is `None`. `NaN` and the infinities, which pass the `typeof` test, are not modelled. Prices are `real`, without floating-point rounding.
- Lexical.LexLe: compares Dafny characters (Unicode scalar values). JavaScript compares UTF-16 code units, which differs only for characters outside the Basic Multilingual Plane.
- `Object.keys` lists integer-like keys first, in numeric order. The model keeps plain insertion order for every key, which differs only for a semester, fuel, region or brand named by a bare integer.
- Overview.Top10Brands: its contract does not state the order among brands with equal counts; the definition follows the lodash chain at `js/ui.js:72` (`toPairs`, a stable ascending `sortBy(1)`, then `reverse`), which puts the later-inserted brand first.
