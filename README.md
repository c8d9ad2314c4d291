# New England airports dashboard — table logic

A Dafny model of the table logic behind a Streamlit dashboard of New England
airports (`FinalProject.py`). Each airport is one row. The model covers
three things:

- **Cleaning** (`Airports`). When the table is loaded, three columns are
  rewritten in place:
  - `state` becomes the segment of `iso_region` after its last `-`;
  - a missing `scheduled_service` becomes `"no"`;
  - a present `name` is stripped of surrounding whitespace and title-cased.

  The string operations behind this (Python's `str.strip`, `str.title` and
  `str.split`, restricted to ASCII) live in `Text`.
- **`filter_data`** (`Filtering`). It keeps the rows that match an optional
  state, an optional type (`"All"` imposes no constraint) and a minimum
  elevation. It then orders them by elevation, highest first.
- **Summaries of the filtered rows** (`Statistics`). These are the
  per-state counts of the bar chart, the per-type counts of the pie chart,
  the per-type elevation statistics of the table (mean and maximum), and
  the number of rows shown at the bottom of the page.

The table is a `seq<Airport>`. The cleaning pass works in place on an
`array<Airport>`. A NaN cell is `None` in an `Option`. The `type` column is
the field `kind`, because `type` is a Dafny keyword. Files:

- `Wrappers.dfy`: `Option`.
- `Text.dfy`: the string operations.
- `Airports.dfy`: the row record and the cleaning.
- `Filtering.dfy`: selection and sorting.
- `Statistics.dfy`: `value_counts` and the `groupby` aggregation.

Two facts about the code shape the model:

- **Default filter.** With every selector at its default (`'All'`,
  `'All'`, `0`), the elevation test `elevation_ft >= 0` still drops rows
  whose elevation is NaN or negative, so the default view does not show
  every airport (`Filtering.DefaultFilterDropsRows`).
- **Sort stability.** `sort_values` uses pandas' default quicksort, which
  is not stable. `FilterData` therefore promises only "sorted and a
  permutation". `SortedPermutationsAgree` shows that this fixes the
  elevation at every position, so only rows of equal elevation can appear
  in a different order.

## Model

| member | source | states |
|---|---|---|
| Text.Upper | FinalProject.py:28 | upper-casing turns a letter into the upper-case form of the same letter and leaves other characters that are not lower-case letters alone |
| Text.Lower | FinalProject.py:28 | lower-casing turns a letter into a lower-case letter and leaves other characters that are not upper-case letters alone |
| Text.StripStart | FinalProject.py:28 | the result is a suffix of the input, everything removed is whitespace, and it does not start with whitespace |
| Text.StripEnd | FinalProject.py:28 | the result is a prefix of the input, everything removed is whitespace, and it does not end with whitespace |
| Text.Strip | FinalProject.py:28 | stripping never lengthens a string |
| Text.StripSpec | FinalProject.py:28 | `strip()` yields a string without whitespace at either end, found inside the input with only whitespace around it |
| Text.StripStartSkips | FinalProject.py:28 | removing a whitespace-only prefix up to the first non-space character is what the leading strip does |
| Text.StripEndSkips | FinalProject.py:28 | removing a whitespace-only suffix after the last non-space character is what the trailing strip does |
| Text.StripUnique | FinalProject.py:28 | any stripped string surrounded only by whitespace in the input is exactly the input's `strip()` |
| Text.StripBlank | FinalProject.py:28 | a string made of whitespace only strips to the empty string |
| Text.StripAround | FinalProject.py:28 | a non-empty string with non-space ends, padded by whitespace, is what `strip()` returns |
| Text.StripKeepsStripped | FinalProject.py:28 | `strip()` leaves an already stripped string unchanged |
| Text.StripIdempotent | FinalProject.py:28 | stripping twice is stripping once |
| Text.TitleFrom | FinalProject.py:28 | title-casing keeps the length |
| Text.TitleFromAt | FinalProject.py:28 | each character is lower-cased after a letter and upper-cased otherwise |
| Text.Title | FinalProject.py:28 | `title()` keeps the length |
| Text.TitleAt | FinalProject.py:28 | character `i` of `title()` is lower-cased when character `i-1` is a letter and upper-cased otherwise |
| Text.TitleCasesWords | FinalProject.py:28 | a letter that starts a word becomes upper case, any other letter lower case, and non-letters are unchanged |
| Text.TitleIdempotent | FinalProject.py:28 | title-casing twice is title-casing once |
| Text.TitleKeepsStripped | FinalProject.py:28 | title-casing a stripped string leaves it stripped (whitespace is not touched) |
| Text.Split | FinalProject.py:26 | `split(sep)` always yields at least one piece |
| Text.SplitPartsFree | FinalProject.py:26 | no piece of `split(sep)` contains the separator |
| Text.SplitLast | FinalProject.py:26 | a single piece is the whole string; otherwise the last piece is the suffix after the last separator, and it is shorter than the string |
| Text.JoinConsFirst | FinalProject.py:26 | prepending a character to the first piece prepends it to the joined string |
| Text.JoinSplit | FinalProject.py:26 | joining the pieces of `split(sep)` with `sep` gives back the string |
| Text.LastSegment | FinalProject.py:26 | `.str.split('-').str[-1]`: the last piece of the split; `Text.LastSegmentSpec` states what it is |
| Text.LastSegmentSpec | FinalProject.py:26 | `split('-')[-1]` has no `-`, is a suffix of the input preceded by `-` when shorter than it, and is the whole input when there is no `-` |
| Wrappers.Option.GetOr | FinalProject.py:27 | `fillna`: the value when present, the default otherwise; `Airports.CleanRowSpec` states its use for `scheduled_service` |
| Airports.CleanName | FinalProject.py:28 | a cleaned name is exactly as long as the stripped name (so never longer than the original) and has no surrounding whitespace |
| Airports.CleanNameCasesWords | FinalProject.py:28 | character `i` of a cleaned name is character `i` of the name inside its surrounding whitespace, lower-cased when it follows a letter and upper-cased otherwise: word-initial letters become upper case, other letters lower case, non-letters are kept |
| Airports.CleanRow | FinalProject.py:26-28 | cleaning keeps `type`, `elevation_ft` and `iso_region`, and keeps a null name null (and a present one present) |
| Airports.CleanRowSpec | FinalProject.py:26-28 | after cleaning, `state` is the part of `iso_region` after its last `-` (the whole code when there is none) and contains no `-`; `scheduled_service` is present, unchanged if it was present, `"no"` otherwise; a present name becomes its cleaned form (`Airports.CleanNameCasesWords`), which is stripped |
| Airports.CleanRowIdempotent | FinalProject.py:26-28 | cleaning an already cleaned row changes nothing |
| Airports.CleanedTableRow | FinalProject.py:26-28 | every row of the cleaned table has the state derived from its region code (no `-`, the suffix after the last `-`), a service flag kept or filled in with `"no"`, a null name kept null or a present name cleaned, and `type`, `elevation_ft` and `iso_region` unchanged |
| Airports.CleanTable | FinalProject.py:26-28 | the in-place column rewrites leave the table equal to the row-by-row cleaning of its old contents |
| Airports.RegionExample | FinalProject.py:26 | `"US-MA"` yields state `"MA"` |
| Airports.StripExample | FinalProject.py:28 | `" boston logan "` strips to `"boston logan"`; `"bedford"` is unchanged |
| Airports.TitleExample | FinalProject.py:28 | `"boston logan"` title-cases to `"Boston Logan"`, `"bedford"` to `"Bedford"` |
| Airports.NameExample | FinalProject.py:28 | `" boston logan "` cleans to `"Boston Logan"` |
| Airports.CleanExample | FinalProject.py:26-28 | two raw rows clean to rows with state `"MA"`, title-cased names and service `"no"` (filled in) and `"yes"` (kept) |
| Filtering.SelectRows | FinalProject.py:39 | a boolean-mask selection keeps exactly the accepted rows, each as often as in the input |
| Filtering.ConsSorted | FinalProject.py:45 | a row that may precede every row of a sorted sequence can be put in front of it |
| Filtering.Insert | FinalProject.py:45 | inserting into a sorted sequence keeps it sorted and adds exactly that row |
| Filtering.SortByElevationDesc | FinalProject.py:45 | the sort yields a permutation of its input in non-increasing elevation, NaN last |
| Filtering.Matches | FinalProject.py:38-43 | the three criteria: state equal unless `"All"`, type equal unless `"All"`, elevation present and at least the minimum; `Filtering.FilterKeepsOnlyMatches` and `Filtering.FilterKeepsAllMatches` state them of the result |
| Filtering.FilterData | FinalProject.py:36-45 | the result is sorted by elevation, highest first, and holds each input row that meets every active criterion as often as the input does, and no other row |
| Filtering.FilterKeepsOnlyMatches | FinalProject.py:38-43 | every result row is an input row, has the selected state and type when these are not `"All"`, and has an elevation of at least the minimum (never NaN) |
| Filtering.FilterKeepsAllMatches | FinalProject.py:36-45 | every input row that meets the criteria is in the result, as many times as in the input |
| Filtering.FilterSortedAdjacent | FinalProject.py:45 | of two neighbouring result rows, the first has an elevation at least that of the second |
| Filtering.HigherTransitive | FinalProject.py:45 | the sort order is transitive |
| Filtering.HigherBothWays | FinalProject.py:45 | two rows that may each precede the other have the same elevation |
| Filtering.SortedWithout | FinalProject.py:45 | removing a row keeps a sorted sequence sorted |
| Filtering.SortedTail | FinalProject.py:45 | the tail of a sorted sequence is sorted |
| Filtering.SamePrefixElevation | FinalProject.py:45 | a row further down a sorted sequence that may still head it shares the head's elevation with every row before it |
| Filtering.MultisetWithout | FinalProject.py:45 | removing position `j` removes exactly that row from the multiset |
| Filtering.HeadsAgree | FinalProject.py:45 | two sorted arrangements of the same rows start with the same elevation |
| Filtering.RemoveMatched | FinalProject.py:45 | removing the same row from two sorted arrangements of the same rows leaves two sorted arrangements of the same rows |
| Filtering.ElevationsAfterRemoval | FinalProject.py:45 | agreement after removing the matched row extends to agreement of the whole sequences |
| Filtering.SortedPermutationsAgree | FinalProject.py:45 | any two sorted arrangements of the same rows have the same elevation at every position, so the unstable sort fixes everything except the order among ties |
| Filtering.FilterIdempotent | FinalProject.py:36-45 | filtering the result again with the same criteria gives the same rows, sorted, with the same elevation at every position |
| Filtering.DefaultFilterDropsRows | FinalProject.py:43 | with the defaults (`"All"`, `"All"`, 0) a row at -5 ft and a row with NaN elevation are both dropped |
| Filtering.FilterExample | FinalProject.py:36-45 | of Boston Logan (20 ft) and Bedford (133 ft), a minimum of 50 ft keeps Bedford alone |
| Statistics.StateColumn | FinalProject.py:71 | the `state` column has one entry per row |
| Statistics.KindColumn | FinalProject.py:91 | the `type` column has one entry per row |
| Statistics.ValueCounts | FinalProject.py:71 | `value_counts()` has an entry exactly for each value that occurs, holding its number of occurrences |
| Statistics.Total | FinalProject.py:95 | `sum(type_counts)`: the sum of the counts; `Statistics.CountsSumToLength` states its value |
| Statistics.TotalRemove | FinalProject.py:95 | the sum of a map's counts is any one count plus the sum of the others |
| Statistics.TotalIncrement | FinalProject.py:95 | counting one more occurrence adds one to the sum of the counts |
| Statistics.CountsSumToLength | FinalProject.py:71 | the counts of `value_counts()` add up to the length of the column |
| Statistics.ChartCountsMatchShownTotal | FinalProject.py:135 | the per-state counts and the per-type counts of the filtered rows (the latter are the pie's `total`) each add up to the number of rows shown |
| Statistics.SelectedStateSingleBar | FinalProject.py:71 | with a state selected, the bar chart has at most one bar: that state, as tall as the number of rows shown |
| Statistics.Add | FinalProject.py:119 | one step of the NaN-skipping count, sum and max; `Statistics.AddCommutes` and `Statistics.MeanStep` state its properties |
| Statistics.Summarize | FinalProject.py:119 | a group's statistics count at most its rows, the maximum is absent exactly when no elevation is present, and then the sum is zero |
| Statistics.SummarizeMax | FinalProject.py:119 | `max` skips NaN: it is absent exactly when every elevation is NaN, and otherwise bounds every elevation from above and equals one of them |
| Statistics.SummarizeCount | FinalProject.py:119 | the mean's divisor is the number of rows whose elevation is not NaN |
| Statistics.SumPresent | FinalProject.py:119 | the sum of the non-NaN elevations, added from the last row back, as an independent reference for the mean's numerator |
| Statistics.SummarizeSum | FinalProject.py:119 | the `sum` kept for the mean is exactly the sum of the non-NaN elevations |
| Statistics.ScaleMonotone | FinalProject.py:119 | multiplying by a count keeps the order of two bounds |
| Statistics.MeanStep | FinalProject.py:119 | adding one elevation keeps the sum within count times the maximum |
| Statistics.MeanAtMostMax | FinalProject.py:119 | a group's mean (`sum / present`) is never above its maximum |
| Statistics.AddCommutes | FinalProject.py:119 | folding two elevations in either order gives the same statistics |
| Statistics.SummarizeWithout | FinalProject.py:119 | any one row of a group can be folded in last |
| Statistics.SummarizeOrderFree | FinalProject.py:119 | a group's statistics depend only on which rows it holds, not on their order |
| Statistics.OfKind | FinalProject.py:119 | a type's group holds exactly the rows of that type, each as often as the table does |
| Statistics.Kinds | FinalProject.py:119 | the `groupby('type')` keys: the types that occur; `Statistics.TableTypesAreChartTypes` states them |
| Statistics.StatsByType | FinalProject.py:119 | no group's count of present elevations exceeds the number of rows |
| Statistics.OfKindSize | FinalProject.py:91 | the size of a type's group is that type's count in the `type` column |
| Statistics.TableTypesAreChartTypes | FinalProject.py:91-119 | the statistics table and the pie chart list the same types, exactly those that occur |
| Statistics.TypeMaxIsMaximum | FinalProject.py:119 | a type's maximum is at least every present elevation of that type and is one of them; it is absent only when all of them are NaN |
| Statistics.FilteredStats | FinalProject.py:119 | on the filtered rows every type has a maximum of at least the chosen minimum, and its mean is taken over exactly that type's count in the pie chart |
| Statistics.AllPresentSelected | FinalProject.py:119 | when no elevation is NaN, no row is skipped |
| Statistics.StatsOrderFree | FinalProject.py:119 | the statistics table is the same for any two arrangements of the same rows, so sorting before grouping does not change it |
| Statistics.ExampleTypes | FinalProject.py:119 | three small airports form one group |
| Statistics.ExampleGroup | FinalProject.py:119 | elevations 100, NaN and 200 give two present values, sum 300 and maximum 200 |
| Statistics.StatsExample | FinalProject.py:119 | the table for those three rows has one entry, small airports, with mean 300 / 2 and maximum 200 |

## Left out

- Reading the CSV file, its hard-coded path and the `@st.cache_data` memoisation: file I/O and framework caching. The model starts from the rows as read.
- The `FileNotFoundError` branch: it only shows a message and returns a table without columns. The model makes no claim about that empty table beyond `FilterData` on an empty sequence.
- The Streamlit widgets and page layout: UI. The selected state, type and minimum elevation are plain parameters of `FilterData`.
- The matplotlib bar and pie charts and the plotly map: rendering by foreign libraries. Latitude and longitude are not part of the row record.
- The pie chart's percentages, the division that gives the mean and `round(2)`: floating point. The mean is kept as the pair `sum` / `present` of integers.
- Statistics.Summarize: models `elevation_ft` as an integer, not a float column.
- The display order of `value_counts()` (by decreasing count) and of the `groupby` table (by type name): order of display only. Both are modelled as maps.
- Filtering.FilterData: does not fix the order of rows with equal elevation, because pandas' default quicksort is not stable.
- Filtering.SortByElevationDesc: is an insertion sort, standing for pandas' quicksort. Only its contract (sorted, a permutation) is relied on.
- Text.Strip: whitespace is the ASCII part of Python's definition. Non-ASCII whitespace (such as U+00A0 or U+0085) is not stripped.
- Text.Title: only ASCII letters are cased letters. Python's Unicode case rules are not modelled.
- The `state` value a row holds before cleaning is not used, because cleaning overwrites it.
- A NaN `iso_region` (which pandas would turn into a NaN `state`) is not modelled. `isoRegion` is always a string.
