# Trip analytics core, modelled in Dafny

This project models the analytics at the heart of the trips pipeline. The
pipeline loads ride records (region, origin and destination as WKT
`POINT (lon lat)` text, a timestamp and a datasource) and answers two
questions about them:

* **Which trips are alike?** `group_similar_trips` gives each trip a time of
  day (`get_time_of_day`). It snaps origin and destination to a grid of
  one-decimal cells (`round_coordinate`). It then groups trips on
  (region, time of day, origin cell, destination cell), counting the trips and
  collecting the datasources of each group.
* **How many trips per week?** `weekly_avg_trips` checks `location_filter`. It
  then keeps the trips inside an inclusive bounding box (by origin,
  destination, or either), keeps those of one region, and returns the mean
  number of trips per Monday-to-Sunday week.

The ingestion step rewrites each raw point with `clean_coordinates`, giving
`POINT(lon lat)` text or `None`.

The logic appears twice: in `main.py` and in `reports/reports_in_python.py`.
The two copies of `round_coordinate` differ only in which pieces of
`split(" ")` they read:

* `reports` reads pieces 0 and 1;
* `main.py` reads pieces 1 and 2.

The model therefore has a single `RoundCoordinate` with the index of the first
piece as a parameter: `ReportsFirstToken = 0` and `MainFirstToken = 1`.

Files, one module each:

| file | module | contents |
|---|---|---|
| `wrappers.dfy` | `Wrappers` | `Option` and `Result` |
| `pystr.dfy` | `PyStr` | the Python string operations used: the `[^0-9.\s]` regular-expression removal, `split(" ")`, `split()`, `str.replace`, `strip`, and Python's whitespace set |
| `pyfloat.dfy` | `PyFloat` | numbers as exact decimals: `float()` on text, the decimal text of a number as an f-string prints it, and `round(x, 1)` (half to even) |
| `coordinates.dfy` | `Coordinates` | `round_coordinate` (both copies), `Series.apply` of it, and `clean_coordinates` |
| `grouping.dfy` | `Grouping` | `get_time_of_day`, and a `groupby(...).agg(count, set)` generic in the key |
| `trips.dfy` | `Trips` | the trip record |
| `weekly.dfy` | `Weekly` | the specification of `weekly_avg_trips` |
| `frame.dfy` | `TripFrames` | the trips frame as a class, whose `GroupSimilarTrips` adds its columns in place, and `WeeklyAvgTrips`, which works on a copy |

Numbers are exact decimals `Decimal(mantissa, scale)`. A rounded cell
coordinate is an integer count of tenths. Errors Python raises are values:

* `CoordError`: `IndexError` or `ValueError`;
* `GroupError`: a `CoordError` raised inside the grouping, or the failed
  two-way unpack of an empty frame;
* `WeeklyError`: `ValueError` for the filter name, or `KeyError` for a
  missing column.

One might expect `"POINT (8.681 50.112)"` and `" 8.681   50.112 "` to yield
the same cell. The code does not do this. `split(" ")` leaves empty pieces at
every leading, doubled and trailing space, and `float("")` raises, so both
copies raise `ValueError` on the padded form
(`Coordinates.SpacedNumbersRejected`).

`float()` strips less whitespace than `split()` splits on. The ASCII
separators U+001C to U+001F count as whitespace for `str.split()` and for the
`\s` of the regular expression, but `float()` keeps them, so `float("1\x1c")`
raises (`PyFloat.SeparatorNotStripped`).

In the same way:

* `reports` rejects every raw `POINT (x y)` (`Coordinates.ReportsRejectsRawPoint`);
* `main.py` rejects every cleaned `POINT(x y)` (`Coordinates.MainRejectsCleanedPoint`).

Because `clean_coordinates` emits the longitude first, the `lat` field of a
cell read from its output holds the longitude. That is the code's own naming.

## Model

| member | source | states |
|---|---|---|
| Grouping.TimeOfDayOf | reports/reports_in_python.py:108-115 | Morning exactly for hours 5 to 11, Afternoon exactly for 12 to 18 (18 included), Night exactly for every other hour, so each hour gets one label; the main.py copy (main.py:62-69) is identical |
| PyStr.KeepCoordinateChars | reports/reports_in_python.py:121 | the regular expression keeps exactly the digits, dots and whitespace, and never lengthens the text |
| PyStr.KeepIdempotent | main.py:75 | removing the characters outside `[0-9.\s]` twice is the same as once |
| PyStr.SplitOn | reports/reports_in_python.py:121 | `split(" ")` gives at least one piece, even for the empty text |
| PyStr.SplitOnNoSeparator | main.py:76 | no piece of `split(" ")` holds a space |
| PyStr.JoinSplit | reports/reports_in_python.py:121 | `split(" ")` loses nothing: joining the pieces with a space gives back the text |
| PyStr.SplitOnAppend | main.py:76 | splitting at a separator splits the two sides independently |
| PyStr.SplitOnAbsent | main.py:76 | text without a space is a single piece |
| PyStr.SplitOnExcludes | reports/reports_in_python.py:121 | a character absent from the text is absent from every piece |
| PyStr.SplitWhitespace | src/process_data.py:114 | `split()` yields only non-empty words without whitespace |
| PyStr.SplitWhitespaceSkip | src/process_data.py:114 | leading whitespace of any kind and length is ignored by `split()` |
| PyStr.TwoWordsGap | src/process_data.py:114 | two words separated by any non-empty run of whitespace split into exactly those two words |
| PyStr.Replace | src/process_data.py:113 | `str.replace` introduces no character that is in neither the text nor the replacement |
| PyStr.ReplaceFront | src/process_data.py:113 | an occurrence of the pattern at the front is replaced and the scan resumes after it (left to right, non-overlapping) |
| PyStr.RemoveChar | src/process_data.py:113 | `replace(")", "")` removes exactly the `)` characters and keeps every other |
| PyStr.Trim | reports/reports_in_python.py:122-123 | the text `float()` reads is a slice of its argument with only whitespace cut off on either side, and it neither starts nor ends with whitespace; U+001C to U+001F are not stripped |
| PyFloat.ParseFloat | reports/reports_in_python.py:122-123 | `float()` of text yields a normalised decimal, and a non-negative one when the text has no minus sign |
| PyFloat.SeparatorNotStripped | main.py:77 | `float()` raises on a number followed by U+001C, which `str.isspace` counts as whitespace |
| PyFloat.NotANumber | reports/reports_in_python.py:122 | text with no digit and no dot, the empty piece included, is rejected by `float()` |
| PyFloat.ParsePointLiteral | main.py:77-78 | the unsigned-literal step of `float()` reads "digits.digits" as the decimal those digits denote, scaled by the number of fraction digits |
| PyFloat.ParseFloatPointLiteral | reports/reports_in_python.py:122-123 | `float()` of "digits.digits" is the decimal those digits denote, scaled by the number of fraction digits |
| PyFloat.Render | src/process_data.py:115 | the printed number is non-empty, starts with no whitespace, ends in a digit, and starts with `-` exactly when the number is negative |
| PyFloat.RenderMagnitude | src/process_data.py:115 | the printed number is an optional minus sign followed by the printed magnitude, which is a non-empty run of digits, one point and a non-empty run of digits |
| PyFloat.ParseRender | src/process_data.py:114-115 | reading back a printed number gives the same number (`float(str(x)) == x`) |
| PyFloat.Normalize | reports/reports_in_python.py:122 | a decimal in lowest terms with the same value and sign |
| PyFloat.RoundTenths | reports/reports_in_python.py:126 | `round(x, 1)` is within half a tenth of x, even on an exact tie, and non-negative for non-negative x |
| PyFloat.NearestTenth | main.py:81 | the integer step of rounding: within half a tenth, ties to even |
| PyFloat.RoundTenthsExact | reports/reports_in_python.py:126 | rounding a value that already has one decimal returns it unchanged |
| Coordinates.RoundCoordinate | reports/reports_in_python.py:118-126 | the minus sign is stripped, so every cell `round_coordinate` returns is non-negative; the main.py copy (main.py:72-81) reads the next two pieces |
| Coordinates.RoundCoordinateIgnoresStripped | main.py:72-81 | characters outside `[0-9.\s]` never change the result or the exception |
| Coordinates.SpacedNumbersRejected | main.py:75-78 | text with a leading, doubled and trailing space raises ValueError in both copies |
| Coordinates.PiecesOfPointText | reports/reports_in_python.py:121 | a cleaned `POINT(lon lat)` splits into the two numbers without sign |
| Coordinates.ReportsReadsCleanedPoint | reports/reports_in_python.py:118-126 | the reports copy reads a cleaned point as the rounded absolute longitude and latitude |
| Coordinates.ReportsRejectsRawPoint | reports/reports_in_python.py:121-122 | the reports copy raises ValueError on every raw `POINT (x y)`, because piece 0 is empty |
| Coordinates.MainRejectsCleanedPoint | main.py:75-78 | the main.py copy raises IndexError on every cleaned `POINT(x y)`, because there are only two pieces |
| Coordinates.PiecesOfRawPoint | main.py:75-76 | a raw `POINT (u v)` splits into an empty piece and the two cleaned numbers |
| Coordinates.MainReadsRawPoint | main.py:72-81 | the main.py copy reads a raw point as its two numbers without sign, rounded, or raises ValueError when one is not a number |
| Coordinates.RoundColumn | reports/reports_in_python.py:138-143 | applying `round_coordinate` down a column succeeds exactly when every row does, giving each row's cell in order; otherwise it raises the error of the first failing row |
| Coordinates.Apply | main.py:93-98 | `Series.apply` of a function that may raise: all results in order, or the first exception |
| Coordinates.CleanCoordinates | src/process_data.py:109-117 | `None` for a null value, for other than exactly two words after removing `POINT (` and `)`, or for a word `float()` rejects. Otherwise the text is `POINT(a b)` of the two numbers in input order; the reports copy of `round_coordinate` reads it back as the cell of their rounded magnitudes, and the main.py copy raises IndexError on it. The reports copy of the cleaner (reports/reports_in_python.py:98-105) is identical |
| Coordinates.CleanCoordinatesRoundTrip | src/process_data.py:113-115 | a raw `POINT (a<any whitespace>b)` of two printed numbers is cleaned to `POINT(a b)` of the same numbers |
| Coordinates.GluedWordNotNumber | src/process_data.py:114 | a word starting `POINT(` is not a number to `float()` |
| Coordinates.CleanCoordinatesNotIdempotent | src/process_data.py:113-117 | cleaning the cleaner's own output gives `None`, because only `POINT (` with its space is removed |
| Grouping.FindKey | reports/reports_in_python.py:146-156 | finds the position of the group with a key, or reports that no group has it |
| Grouping.GroupBy | reports/reports_in_python.py:146-163 | the grouped frame is a grouping of the rows: distinct keys, exactly the keys that occur, each with its count and its set of datasources |
| Grouping.GroupRows | main.py:101-118 | one pass over the rows fills the groups, and the result is that grouping |
| Grouping.AddGrouping | reports/reports_in_python.py:146-163 | adding one row to a grouping gives a grouping of the longer table |
| Grouping.AddToGroup | reports/reports_in_python.py:157-162 | a row with an existing key increments that group's count and adds its datasource |
| Grouping.AddNewGroup | reports/reports_in_python.py:157-162 | a row with a new key starts a group of one |
| Grouping.AbsentKey | reports/reports_in_python.py:157-162 | a key that never occurs has no rows and no datasources |
| Grouping.PresentKey | reports/reports_in_python.py:157-162 | a key that occurs has at least one row and one datasource |
| Grouping.GroupByTotal | reports/reports_in_python.py:158 | the `trip_count` values add up to the number of rows |
| Grouping.AddTotal | main.py:113 | each added row adds exactly one to the total count |
| Grouping.GroupsNonEmpty | main.py:113-115 | every `trip_count` is at least 1, and every group has a datasource |
| Grouping.DistinctKeysCount | reports/reports_in_python.py:146-156 | distinct keys make the number of groups equal to the number of keys |
| Grouping.GroupingSize | main.py:101-118 | there is exactly one group per distinct key of the rows |
| Grouping.KeysOfSize | reports/reports_in_python.py:146-156 | there are no more keys than rows, and at least one once there is a row |
| Grouping.CountOfAppend | reports/reports_in_python.py:157-162 | counts, datasource sets and keys of two stacked tables are the sums and unions of each |
| Grouping.GroupingUnique | reports/reports_in_python.py:146-163 | any two groupings of the same rows hold the same groups, whatever their order |
| Grouping.PermutationCounts | reports/reports_in_python.py:157-162 | each key's count, its datasources and the set of keys depend only on the multiset of rows |
| Grouping.GroupByOrderIndependent | main.py:101-118 | two tables holding the same rows in any order have the same groups |
| Grouping.MoreThanOne | reports/reports_in_python.py:166 | the shared trips are exactly the groups with `trip_count > 1` |
| Grouping.MoreThanOneOfGrouping | main.py:121 | a key is among the shared trips exactly when at least two rows carry it |
| Grouping.TwoTripsOneGroup | reports/reports_in_python.py:146-166 | two trips under one key from two datasources form one shared group of two with both datasources |
| Weekly.ParseLocationFilter | reports/reports_in_python.py:178-181 | only "origin", "destination" and "both" are accepted, each as the filter of that name |
| Weekly.ParseFilterName | main.py:133-136 | every filter is accepted under its own name |
| Weekly.MissingColumnFor | reports/reports_in_python.py:188-215 | the box test fails on a missing column exactly when it reads a cell column the frame lacks |
| Weekly.InBoxInclusive | reports/reports_in_python.py:190-196 | both ends of each range are inside the box, and a box whose minimum exceeds its maximum holds nothing |
| Weekly.HitReadsItsColumns | main.py:145-169 | the origin mask reads only the origin cell and the destination mask only the destination cell. The model's mask rejects a row lacking that cell, but `WeeklyAverage` never reaches that case: the source raises KeyError on the missing column first (`MissingColumnFor`) |
| Weekly.Filter | reports/reports_in_python.py:217 | `df.loc[mask]` keeps every row the mask selects as often as it occurs and drops every other row, never adding rows |
| Weekly.FilterAll | main.py:172 | a mask true on every row keeps the frame unchanged |
| Weekly.BoxStage | reports/reports_in_python.py:187-217 | without a box the rows are unchanged; with one, exactly the rows the box mask of the filter selects remain, each as often as before |
| Weekly.RegionStage | reports/reports_in_python.py:220-221 | without a region, or with an empty one, the rows are unchanged; otherwise exactly the rows of that region remain, each as often as before |
| Weekly.BothIsUnion | reports/reports_in_python.py:205-216 | "both" keeps exactly the rows "origin" or "destination" keeps |
| Weekly.LargerBoxKeepsMore | main.py:143-172 | the box test is monotone: an enclosing box keeps every row a smaller box keeps |
| Weekly.RegionNarrows | reports/reports_in_python.py:220-221 | the region filter only removes rows, and removes none when every row is in that region |
| Weekly.WeekSpan | main.py:184 | a day falls in week `w` exactly when it lies between day `7w - 3`, a Monday, and day `7w + 3`, a Sunday |
| Weekly.WeekStartsOnMonday | reports/reports_in_python.py:230 | a new week starts exactly on a Monday, and consecutive other days share a week |
| Weekly.WeekColumnKeys | main.py:184-187 | the distinct `week_year` values are the weeks of the surviving rows |
| Weekly.WeeksSize | reports/reports_in_python.py:234 | at least one week and no more weeks than rows |
| Weekly.MeanPerWeek | reports/reports_in_python.py:234-238 | the mean is the number of rows divided by the number of distinct weeks, and lies between 1 and the number of rows |
| Weekly.OneWeek | main.py:187-191 | trips all in one week average to their number |
| Weekly.WeeklyAverage | reports/reports_in_python.py:177-240 | an unknown filter raises ValueError before anything else, and a result is 0.0 or lies between 1 and the number of trips |
| Weekly.SurvivorsPassFilters | main.py:143-176 | every counted trip is in the frame, passes the box mask and is in the region |
| Weekly.NoFilterKeepsAll | reports/reports_in_python.py:188-238 | with no box and no region the result is the number of trips divided by their number of weeks, or 0.0 for no trips |
| Weekly.NothingSurvives | reports/reports_in_python.py:224-226 | when no trip survives the filters the result is 0.0 |
| Weekly.MissingColumnRaises | main.py:143-170 | a box filter raises when it needs a cell column that grouping has not added |
| Weekly.CellsPresentOnlyFilterRaises | reports/reports_in_python.py:177-221 | once both cell columns exist, the only exception is the filter check |
| TripFrames.GroupSimilar | reports/reports_in_python.py:129-174 | an empty frame raises from the unpack; otherwise the result exists exactly when every origin and destination rounds; its keys are distinct and its counts add up to the number of trips |
| TripFrames.KeyedTrips | reports/reports_in_python.py:146-156 | each trip keeps its datasource, and two trips share a key exactly when they agree on region, time of day, origin cell and destination cell |
| TripFrames.GroupSimilarGroups | reports/reports_in_python.py:146-163 | a result groups the trips under (region, time of day, origin cell, destination cell), with no empty group |
| TripFrames.SharedTrips | main.py:121 | the reported subset holds exactly the keys of at least two trips |
| TripFrames.TripFrame.GroupSimilarTrips | reports/reports_in_python.py:129-174 | `time_of_day` is added first and stays when rounding raises. The origin cells are added once the origin column rounds and unpacks, and the destination cells after that. The trips are unchanged, and the result is `GroupSimilar` of the trips. The main.py copy (main.py:84-129) behaves the same |
| TripFrames.TripFrame.WeeklyAvgTrips | reports/reports_in_python.py:177-240 | with no box, no region and the "origin" filter as defaults, changes nothing in the frame, and returns `WeeklyAverage` of its trips and cell columns; the main.py copy (main.py:132-194) differs only in printing |

## Left out

- Binary floating point is not modelled.
  - Numbers are exact decimals, so `round(x, 1)` rounds the exact decimal value half to even. Python rounds the nearest double.
  - The printed form of a number is always positional (`50.0`, `-8.681`). Python switches to exponent notation for very large or very small values.
- `float()` does not accept `inf`, `nan`, digit-group underscores or non-ASCII digits, and `-0.0` is not distinguished from `0.0`.
- A trip's timestamp is given as its local calendar day (days since 1970-01-01) and its hour.
  - Parsing with `pd.to_datetime` is not modelled.
  - Time zones are not modelled. The reports copy strips the zone before bucketing and the main.py copy does not. Both bucket by the local calendar week, which is what the model does.
- `pandas` null handling is not modelled: every field is present.
  - `count` and `size` coincide.
  - No key is NaN, so no group is dropped.
  - A null coordinate is not passed to `round_coordinate`.
- Grouping.GroupBy: the groups come in order of first appearance, not in the sorted key order `groupby` produces. Grouping.GroupingUnique shows the groups are the same in any order.
- The `datasources` text is `", ".join(set(...))`, whose order is unspecified, so it is modelled as the set itself.
- Weekly.WeeklyAverage: a `bounding_box` is a four-number box or absent. A tuple of another length, which Python fails to unpack, is not modelled.
- Weekly.WeeklyAverage: the box limits are exact reals, compared with the exact tenths of each cell.
- `clean_coordinates` receives a text or a null. Other non-text values, which its bare `except` also turns into `None`, are not modelled.
- The `print` calls are not modelled: the shared-trip table, the "no trips found" message, and the weekly average that main.py prints.
- Other parts of the repository are not part of this model:
  - BigQuery table creation, loading and queries (`main.py`, `src/run_queries.py`);
  - CSV ingestion with its progress bar and timing (`src/process_data.py`, apart from `clean_coordinates`);
  - the chart and report printing modules;
  - the scenario-printing driver.
