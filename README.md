# Snapshot differ for apprenticeship CSV exports, in Dafny

`apprentices.py` compares two CSV snapshots of the same export, keyed by the
`ID` column. It loads each file (only `.csv` files that exist and have both
an `ID` and a `Title` column), strips whitespace from those two columns, and
summarises each file per ID: the number of rows and the sorted list of
distinct non-empty titles. It then walks the new summary and reports

- a `new_id` row for every ID the old snapshot does not have: old count 0,
  the new count, all new titles;
- a `count_or_title_change` row for a shared ID whose row count changed or
  which gained titles: both counts and the gained titles, sorted.

IDs that disappeared are not reported. Command-line paths are resolved with
`resolve_under_base`: absolute paths are kept, relative ones are placed under
the script's directory.

The model has six modules:

- `Text` (text.dfy): Python's whitespace test, `str.strip()` and ASCII
  lower-casing.
- `Order` (order.dfy): Python's `<` on strings, strictly ascending lists, and
  the sorted insert and sorted set difference behind `sorted(set(...))`.
- `Paths` (paths.dfy): paths as a root flag plus segments, `Path.suffix`, the
  `.csv` test, and `resolve_under_base`.
- `Loader` (loader.dfy): `read_csv_required`. `Load` is the specification
  function. `ReadCsvRequired` is the method that runs the checks and then
  strips the required columns in a loop. The file system is a map from paths
  to the tables the CSV reader returns.
- `Summarizer` (summarizer.dfy): `summarize_by_id`, written as a fold over the
  rows that adds one row at a time.
- `Differ` (differ.dfy): the `compare` loop as the method `Compare`, and
  `compare(old_path, new_path)` as `CompareFiles`. The predicate `IsDiff`
  says which rows a report holds, in any order.

Dafny reserves `old` and `new`, so the old and new summaries are called
`before` and `after`.

The code raises `ValueError` for a wrong extension, `FileNotFoundError` for
a missing file and `ValueError` for missing columns. The model names these
three cases `UnsupportedSuffix`, `FileNotFound` and `MissingColumns`. The
code's `count` counts every row of an ID, including rows whose Title is
empty.

## Model

| member | source | states |
|---|---|---|
| `Text.StripMeaning` | apprentices.py:23 | `str.strip()` returns the infix of the cell left after cutting the whitespace at both ends, and the result neither starts nor ends with whitespace |
| `Text.StripFixpoint` | apprentices.py:23 | a cell is unchanged by stripping exactly when it has no whitespace at either end |
| `Text.StripIdempotent` | apprentices.py:23 | stripping twice equals stripping once |
| `Text.TrimStartMeaning` | apprentices.py:23 | the leading half of `strip`: what it cuts off is whitespace, and the rest does not start with whitespace |
| `Text.TrimEndMeaning` | apprentices.py:23 | the trailing half of `strip`: what it cuts off is whitespace, and the rest does not end with whitespace |
| `Text.Strip` | apprentices.py:23 | `str.strip()` with no argument; no contract of its own, see `StripMeaning`, `StripFixpoint` and `StripIdempotent` |
| `Order.LessTransitive` | apprentices.py:36 | Python's string order, which `sorted` uses, is transitive |
| `Order.LessTotal` | apprentices.py:36 | any two different strings are ordered one way or the other |
| `Order.LessIrreflexive` | apprentices.py:36 | no string is below itself |
| `Order.Insert` | apprentices.py:36 | adding a title to a group keeps its title list strictly ascending, and its elements become the old ones plus the new title |
| `Order.SortedDifference` | apprentices.py:65 | `sorted(set(n) - set(o))` is strictly ascending and holds exactly the titles of `n` that are not in `o` |
| `Order.SortedUnique` | apprentices.py:36 | a strictly ascending list is determined by its elements, so it is the `sorted` list of its set |
| `Paths.LastIndexOf` | apprentices.py:10 | `rfind('.')` gives the last dot of the name, or -1 when there is none |
| `Paths.Suffix` | apprentices.py:10 | `PurePath.suffix` of the file name; no contract of its own, see `CsvNameIff` |
| `Paths.IsCsvSuffix` | apprentices.py:10-11 | `path.suffix.lower() != ".csv"` negated; no contract of its own, see `CsvNameIff` |
| `Paths.CsvNameIff` | apprentices.py:10-11 | the extension test passes exactly for names longer than four characters that end in `.csv` in any letter case; a name that is just `.csv` has no suffix |
| `Paths.ResolveUnderBase` | apprentices.py:81-88 | `resolve_under_base`; no contract of its own, see `ResolveMeaning`, `ResolveIdempotent` and `ResolveIsJoin` |
| `Paths.ResolveMeaning` | apprentices.py:81-88 | an absolute argument comes back unchanged; a relative one becomes the base directory's segments followed by the argument's, with the base directory's root flag |
| `Paths.ResolveIdempotent` | apprentices.py:87-88 | under an absolute base directory the result is absolute, and resolving it again changes nothing |
| `Paths.ResolveIsJoin` | apprentices.py:88 | the result equals pathlib's `base_dir / p` for every argument, because `/` already keeps an absolute right-hand side |
| `Loader.Missing` | apprentices.py:16 | the missing-column list holds exactly the required columns that are not in the header |
| `Loader.MissingColumnsOrder` | apprentices.py:16-18 | the missing-column list is in `REQ` order (ID, then Title), and it is empty exactly when both columns are present |
| `Loader.Normalize` | apprentices.py:21-23 | the normalisation step keeps the table well formed and its header unchanged; its cells are described by `NormalizeCells` |
| `Loader.NormalizeRowMeaning` | apprentices.py:22-23 | a normalised row has the same columns, its ID and Title cells are stripped, every other cell is unchanged, and normalising again changes nothing |
| `Loader.NormalizeCells` | apprentices.py:21-23 | normalising a table keeps its header and its number of rows, and normalises each row |
| `Loader.NormalizeIdempotent` | apprentices.py:20-23 | normalising a normalised table changes nothing |
| `Loader.Load` | apprentices.py:8-24 | a successful load is of an existing file, and gives a table with one cell per column in every row and both required columns |
| `Loader.LoadSucceedsIff` | apprentices.py:10-18 | loading succeeds exactly for a file in the map (one that exists and that the CSV reader parses) with a `.csv` suffix whose header has ID and Title, and then returns the normalised table |
| `Loader.LoadErrorOrder` | apprentices.py:10-18 | a wrong suffix is reported whether or not the file exists; a missing file is reported before any column check; a column error carries the non-empty missing-column list |
| `Loader.ReadCsvRequired` | apprentices.py:8-24 | the method runs the checks in order, then strips ID and Title one column at a time, and its result is `Load` |
| `Summarizer.LoadedEntries` | apprentices.py:20-23 | the summary is built from the IDs and Titles of the file with whitespace stripped, row for row |
| `Summarizer.Tally` | apprentices.py:33-36 | adding one row keeps every group valid and adds the row's ID to the keys |
| `Summarizer.Summarize` | apprentices.py:32-38 | the summary's keys are exactly the IDs of the rows; every group has at least one row, and its titles are strictly ascending and never empty |
| `Summarizer.SummarizeById` | apprentices.py:48-49 | `summarize_by_id(df).set_index("ID")` for a loaded table; no contract of its own, see `Summarize` and `SummarizeGroup` |
| `Summarizer.SummarizeGroup` | apprentices.py:33-36 | an ID has a group exactly when some row has that ID; its count is the number of those rows, rows with an empty Title included; its titles are exactly the non-empty titles of those rows |
| `Summarizer.SummaryTitlesAreSortedSet` | apprentices.py:36 | each title list is the strictly ascending list of the group's non-empty titles, so it equals `sorted({t for t in s if t})` |
| `Summarizer.TotalCountPick` | apprentices.py:35 | the sum of the counts does not depend on which ID is taken first |
| `Summarizer.TallyTotal` | apprentices.py:35 | adding one row raises the sum of the counts by one |
| `Summarizer.SummarizeTotal` | apprentices.py:35 | the counts of a summary add up to the number of rows |
| `Differ.ReportedIff` | apprentices.py:65-67 | a shared ID is reported exactly when its count changed or one of its new titles is not among its old titles; an ID missing from the old summary is always reported |
| `Differ.Reported` | apprentices.py:53-67 | the condition under which an ID gets a row; no contract of its own, see `ReportedIff` and `UnchangedNotReported` |
| `Differ.RowFor` | apprentices.py:53-74 | the row built for a reported ID; no contract of its own, see `RowMeaning` |
| `Differ.IsDiff` | apprentices.py:51-74 | what a finished report holds, up to row order; no contract of its own, see `Compare`, `DiffSize` and `DiffUniqueUpToOrder` |
| `Differ.RowMeaning` | apprentices.py:53-74 | a `new_id` row is built exactly for IDs absent from the old summary: old count 0, the new count, all new titles. Otherwise the row holds both counts and the ascending titles in new minus old, which are a subset of the new titles and disjoint from the old ones |
| `Differ.UnchangedNotReported` | apprentices.py:65-67 | an ID with the same count and no new title gets no row, even when it lost titles |
| `Differ.RemovalsIgnored` | apprentices.py:46-52 | an ID present only in the old summary never appears in the report |
| `Differ.SelfDiffEmpty` | apprentices.py:65-67 | comparing a summary with itself gives an empty report |
| `Differ.DistinctIdsCount` | apprentices.py:52 | rows with pairwise different IDs have as many IDs as rows |
| `Differ.DiffSize` | apprentices.py:52-74 | a report has exactly one row per reported ID |
| `Differ.DiffUniqueUpToOrder` | apprentices.py:52-74 | two reports for the same pair of summaries have the same length and the same rows, so only their order can differ |
| `Differ.Compare` | apprentices.py:51-74 | the loop builds a report: each row's ID is a key of the new summary, appears once, and gets the row built for it, and a key gets a row exactly when it is reported |
| `Differ.CompareFiles` | apprentices.py:40-79 | the old file's loading error comes first, then the new file's; when both files load, the result is a report comparing their two summaries |
| `Differ.SameFileNoChanges` | apprentices.py:48-74 | comparing a loaded file with itself gives an empty report |
| `Differ.SingleReport` | apprentices.py:52-74 | when exactly one ID is reported, the report is that ID's row alone |
| `Differ.ScenarioTitleAdded` | apprentices.py:62-74 | old A1 {Welder}, new A1 {Welder, Pipefitter}: exactly one `count_or_title_change` row for A1, counts 1 and 2, added [Pipefitter] |
| `Differ.ScenarioNewId` | apprentices.py:53-61 | B2 only in the new snapshot, once, as Electrician: exactly one `new_id` row, counts 0 and 1, titles [Electrician] |

## Left out

- `Loader.Load`: errors raised by `pd.read_csv` itself (an empty file, a directory named `x.csv`, malformed rows, undecodable bytes) are not modelled. `files` holds only paths the reader can parse, so a path in the map stands for a file that exists and parses.
- `Loader.LoadSucceedsIff`: for the same reason, its "succeeds exactly when" covers only files the reader can parse; a file that exists but fails to parse raises in the code and has no counterpart here.
- Parsing CSV text (`pd.read_csv` with `dtype=str, keep_default_na=False`) is not modelled. A file is the table the reader would return: a header plus rows that map every header column to a string, with empty cells as `""`. The check that the file exists is whether the path is a key of that map.
- Turning the argument string into a `Path` and `expanduser()` are not modelled. A path is given as a root flag plus its segments.
- `Paths.Suffix` follows CPython 3.11 to 3.13: a name ending in a dot has no suffix. Python 3.14 gives such a name the suffix `"."`. Neither version gives `".csv"`, so the extension test is the same.
- `.lower()` is modelled only for ASCII letters. No other character lower-cases to `.`, `c`, `s` or `v`, so comparing with `".csv"` gives the same answer.
- The order of the summary rows and of the report is not modelled. The code uses pandas' sorted groupby keys and `iterrows`, but its comments do not promise this order. `Compare` picks the keys in any order, and `IsDiff` fixes the rows up to order.
- `main()` is not modelled: argument parsing, `__file__` resolution, `mkdir`, writing the CSV, and the two console messages. All of it is I/O. The message choice depends on whether the report is empty, which `SelfDiffEmpty` and `DiffSize` describe.
- The stringified list form of `new_titles_added` in the written CSV is not modelled. The model keeps the list itself.
- main.py is not part of this model. It is a module-level script with fixed file names. Its only logic is a pandas left `merge` on company name, plus CSV reading, writing and printing.
