# World Bank projects: theme, country and name-fill queries

A Dafny model of `json/json_project.py`, a pandas script over a list of
World Bank project records. It runs three queries:

- `question_1`: count the projects per `countryname` and keep the ten
  largest counts (`value_counts().nlargest(10)`).
- `question_2`: flatten the `mjtheme` column, count the entries with
  `collections.Counter`, and return `most_common(10)` as a frame with the
  columns `theme` and `occurance`.
- `new_df`: flatten every project's `mjtheme_namecode` pairs into one table.
  Empty names become missing. Each missing name then takes the nearest
  present name below it (`fillna(method='bfill')`).

The records come in already parsed, as parameters. Modules:

- `Wrappers` (`wrappers.dfy`): `Option` (`None` stands for NaN) and `Result`.
- `Counting` (`counting.dfy`): `Counter` as a sequence of (value, count)
  entries in first-seen order. `most_common(n)` is a stable sort by count,
  largest first, followed by taking the first `n` entries.
- `Countries` (`countries.dfy`): `question_1`.
- `Themes` (`themes.dfy`): `question_2`. The two list-building loops are a
  method. It is proved equal to a state-machine function (`ScanCells`) that
  carries `flat_list` and the loop variable `subitem`. A `Cell` is either
  `Iterable(items)` or `NonIterable(value)`. The second kind raises
  `TypeError` when the loop tries to walk it (NaN, a number).
- `TextOrder` (`textorder.dfy`): Python's string order, used only for the
  sorted fill.
- `NameFill` (`namefill.dfy`): `new_df`. The empty-to-missing replace is an
  in-place array update. The back-fill is a right-to-left loop over a new
  array.

`new_df` reads as if the fill ran over the table sorted by (code, name), and
its design is usually described that way. In the code, however, the
result of `df.sort_values(by=['code','name'])` is neither assigned nor sorted
in place. So the fill runs over the rows in flattening order: project order,
then pair order. `NewDf` follows the code. The sorted fill is modelled beside
it (`SortedFilledNames`); see Findings.

## Model

| member | source | states |
|---|---|---|
| `Counting.CounterOf` | json/json_project.py:30 | Counter has one entry per distinct value and no value twice; each count is that value's number of occurrences; every value of the list has an entry |
| `Counting.CounterOfSum` | json/json_project.py:30 | the counts of the full, untruncated Counter add up to the length of the counted list |
| `Counting.CounterOfFirstSeen` | json/json_project.py:30 | Counter lists values in first-encountered order: every occurrence of a later value comes after some occurrence of an earlier one |
| `Counting.SortByCount` | json/json_project.py:31 | the sort behind `most_common` returns a permutation of the Counter, counts non-increasing, and keeps values distinct |
| `Counting.SortByCountStable` | json/json_project.py:31 | for every count, the entries with that count come out in the Counter's order (stable sort) |
| `Counting.MostCommonCounts` | json/json_project.py:31 | `most_common(n)` has min(n, number of distinct values) entries; each holds a value of the list with its true count; no value twice; counts non-increasing |
| `Counting.MostCommonKeepsLargest` | json/json_project.py:31 | a value left out of `most_common(n)` means n entries were kept, and its count is at most the smallest kept count |
| `Counting.MostCommonTieOrder` | json/json_project.py:31 | among entries of equal count, the one listed first was encountered first in the list |
| `Countries.QuestionOne` | json/json_project.py:12 | country top ten: at most ten entries, min(10, distinct countries) of them; counts non-increasing and equal to the number of rows per country; no left-out country outnumbers the tenth; no tie order promised |
| `Themes.ScanCellsSpec` | json/json_project.py:22-28 | the flatten loop fails exactly when a non-iterable cell comes before any iterable entry; otherwise `flat_list` holds each iterable cell's entries in order, and each non-iterable cell adds the last entry walked before it; `subitem` ends as the last entry walked |
| `Themes.ExpectedLength` | json/json_project.py:22-28 | the flattened list has one entry per element of an iterable cell plus one per non-iterable cell |
| `Themes.AllIterableConcatenates` | json/json_project.py:23-26 | a column of iterable cells flattens to the in-order concatenation of the cells |
| `Themes.ScanCellsErrSticky` | json/json_project.py:27-28 | once the fallback raises, the whole loop ends with that error |
| `Themes.StaleSubitemFallback` | json/json_project.py:24-28 | the fallback appends the stale `subitem`, not the cell's value; an empty list leaves `subitem` unchanged; a non-iterable cell before any entry raises |
| `Themes.FlattenIntendedContents` | json/json_project.py:24-28 | the intended flattening holds exactly the iterable cells' entries plus the non-iterable cells' own values (multiset and length) |
| `Themes.FlattenIntendedAgrees` | json/json_project.py:23-26 | with no non-iterable cell, the loop as written equals the intended flattening |
| `Themes.IntendedKeepsOwnValue` | json/json_project.py:27-28 | on the defect-showing column, the intended flattening keeps the cell's own value |
| `Themes.FlatListSpec` | json/json_project.py:22-28 | the flattened list is an error exactly when some non-iterable cell has no iterable entry before it; otherwise it is the expected list |
| `Themes.WalkItems` | json/json_project.py:25-26 | the inner loop appends every entry of an iterable cell in order and leaves `subitem` at its last entry, or unchanged when the cell is empty |
| `Themes.WalkCells` | json/json_project.py:18-28 | the copy loop and the outer loop over cells produce exactly the state machine's `flat_list`, or its error |
| `Themes.FlattenThemes` | json/json_project.py:18-28 | the copy loop and the nested flatten loop compute the state machine's `flat_list`, or its error; fails exactly when `subitem` is unbound at a fallback |
| `Themes.QuestionTwo` | json/json_project.py:16-34 | fails exactly when the flatten loop fails; otherwise columns are `theme`, `occurance` and rows are `most_common(10)` of the flattened list: at most ten, distinct, non-increasing, true counts |
| `NameFill.BackFillNearest` | json/json_project.py:42 | back-fill keeps present entries; a missing entry takes the nearest present entry below it; it stays missing exactly when all entries from it down are missing |
| `NameFill.FilledNamesSpec` | json/json_project.py:41-42 | replace-and-fill keeps non-empty names; only names equal to `''` are filled, from the nearest non-empty name below; they stay missing exactly when no non-empty name follows |
| `NameFill.ReplaceEmpty` | json/json_project.py:41 | in-place `replace('', NaN)` turns exactly the empty names into missing entries and leaves the others |
| `NameFill.BackFillColumn` | json/json_project.py:42 | `fillna(method='bfill')` returns a new array equal to the back-fill of the column |
| `NameFill.NewDf` | json/json_project.py:36-44 | the returned name column has one entry per flattened pair, in flattening order (the sort is discarded); non-empty names are kept, empty names take the nearest later non-empty name, or stay missing when none follows |
| `NameFill.SortRows` | json/json_project.py:40 | the table sorted by (code, name) is a permutation of the rows, ordered by code and then by name |
| `NameFill.DiscardedSortCrossesCodes` | json/json_project.py:40-42 | without the sort, an empty name for code "1" is filled with code "2"'s name, although code "1" has a name |
| `NameFill.SortedFilledNamesSpec` | json/json_project.py:40-42 | over the sorted table, an empty name whose code has a non-empty name elsewhere is filled with a non-empty name of the same code |
| `NameFill.SortedFillExample` | json/json_project.py:40-42 | sorted first, the same three rows fill code "1" with its own name "Health" |

## Left out

- File reading and the paths it uses (`pd.read_json`, `json.load(open(...))`), the commented-out `os.chdir`, and all printing in `main`. The queries take the parsed columns as parameters.
- The second file read inside `question_1`, which ignores its argument. Reading is I/O; the model passes the `countryname` column in.
- `json_normalize` parsing. `Normalize` models only its result: the concatenation of each project's `(code, name)` list.
- NaN as a floating-point value. A missing name is `None`. A NaN theme cell is `NonIterable`.
- DataFrame and Series rendering, index labels and dtypes. The theme frame is its two column names and its rows.
- `Countries.QuestionOne`: does not promise a tie order among equal counts, because pandas' `value_counts().nlargest(10)` does not fix one. The function lists ties in first-seen order.
- `value_counts()` drops missing country names. The model takes `countryname` as strings, so no entry is missing.
- Cells whose iteration raises `TypeError` part-way through, and entries that `Counter` cannot hash. Cells of parsed JSON (lists, dicts, strings, numbers, NaN) either walk fully or fail before yielding anything. The model takes entries as values with equality.
- The order pandas gives to rows with equal (code, name) in the sorted fill. Such rows are identical, so the filled names do not depend on it.

## Findings

| source | as written | input that shows it | evidently intended | confidence | as-written member | corrected member |
|---|---|---|---|---|---|---|
| json/json_project.py:27-28 | the `except TypeError` branch appends `subitem`, the last entry of an earlier cell | `mjtheme` = `[[a], [], NaN]` gives `[a, a]`; `[NaN]` raises `UnboundLocalError` | append the non-iterable cell's own value | high; not executed | `Themes.StaleSubitemFallback` | `Themes.FlattenIntendedContents` |
| json/json_project.py:40 | `df.sort_values(by=['code','name'])` discards its result, so the fill runs in flattening order | pairs `("1","")`, `("2","Education")`, `("1","Health")` fill as `Education, Education, Health` | sort first, giving `Health, Health, Education` | high; not executed | `NameFill.DiscardedSortCrossesCodes` | `NameFill.SortedFilledNamesSpec` |

Both queries keep the behaviour as written. `QuestionTwo` uses the loop as it
is. `NewDf` fills in flattening order. The corrected definitions
(`FlattenIntended`, `SortedFilledNames`) are proved beside them.
