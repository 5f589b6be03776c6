# Heat map of stations: the data pipeline in Dafny

The script `app.py` reads a CSV sheet of stations (`posto`). Each row
holds a station name (`posto`), a latitude (`lat`), a longitude (`long`) and
a count (`registros`). The script draws a satellite heat map weighted by the
count, with clickable markers. This project models the part of the script
that turns the sheet's text into the data the map shows, and proves what
that part promises:

- `parse_coord`, which turns a coordinate cell into a number. It tolerates
  blank cells, `nan`, decimal commas, a misplaced second period (`-13.010.079`)
  and stray characters. Its model is in `coord.dfy`, built on Python's
  `str.strip`/`str.lower` in `text.dfy` and on the literals `float()`
  accepts in `decimal.dfy`.
- The row pipeline, in `pipeline.dfy`:
  - header normalisation;
  - the required-column check;
  - the coordinate and metric columns;
  - the drop of rows without coordinates;
  - the inclusive slider filter on the count;
  - the weighted heat list;
  - the map centre with its fallback;
  - the slider's default range.
- The script's top level, in `script.dfy`: the marker cluster, which the
  `iterrows` loop fills one marker at a time, and a method that runs the
  whole pipeline from the frame's header line and cell texts to the map's
  views. It stops where the script stops.

Numbers are exact: a coordinate is a `Decimal` literal with its exact real
value. NaN is `None`. The frame is a header line plus rows of cell texts, as
`str()` shows them. The script overwrites its frame's columns in place and
then rebinds the frame. `Script.Run` follows the same steps with local
variables, since nothing else holds a reference to the frame.

Some behaviours of app.py that the model keeps as written:

- Every `-` survives app.py:26's filter, wherever it stands, so `1-2`
  reaches `float()` and gives NaN.
- A negative count stays negative: `fillna(0)` (app.py:67) replaces only
  NaN.
- The marker loop (app.py:116-126) adds one marker per filtered row, so two
  rows at the same place give two markers.
- When no row has both coordinates, the script never reaches the centre.
  `int()` of the NaN minimum count raises at app.py:73 first. The model
  stops there (`Script.Stop.NoRows`).
- The default range is `int()` of the smallest and largest counts, so with
  a fractional count the default selection can leave rows out. With two
  rows counting 1 and 2.5 the range is (1, 2) and only the first row is
  kept (`Pipeline.FractionalCountDropped`).

## Model

| member | source | states |
|---|---|---|
| Text.Strip | app.py:16 | the result has no whitespace at either end (Python's `str.isspace` set) and is no longer than the input |
| Text.StripDecomposes | app.py:16 | every text is its stripped core with whitespace only before and after it |
| Text.StripPadded | app.py:16 | a stripped text padded with whitespace on both sides strips back to itself; with `StripDecomposes` this pins `strip()` down |
| Text.StripIdempotent | app.py:37 | stripping twice is stripping once |
| Text.TrimStart | app.py:16 | what is left after the leading whitespace goes is a suffix starting with a non-space |
| Text.TrimEnd | app.py:16 | what is left after the trailing whitespace goes is a prefix ending with a non-space |
| Text.TrimStartDropsSpaces | app.py:16 | every character removed from the front is whitespace |
| Text.TrimEndDropsSpaces | app.py:16 | every character removed from the back is whitespace |
| Text.LowerAscii | app.py:17 | same length, each upper-case ASCII letter becomes its own lower-case letter (32 code points on), no upper-case ASCII letter is left and every other character is kept |
| Text.LowerAsciiIdempotent | app.py:37 | lower-casing twice is lower-casing once |
| Text.LowerAsciiKeeps | app.py:37 | text without upper-case letters is unchanged |
| Text.LowerKeepsStripped | app.py:37 | lower-casing a stripped text leaves it stripped |
| Decimal.Parse | app.py:27-30 | `float()` on the cleaned text: whatever it accepts is a valid literal (a digit at least, digits only around an optional point, an optional leading minus) whose text is exactly the input; otherwise `None` (NaN, the caught error) |
| Decimal.ParseUnsigned | app.py:28 | an accepted unsigned literal renders back to the input |
| Decimal.LeadingDigits | app.py:28 | the length of the longest all-digit prefix |
| Decimal.ParseRender | app.py:28 | every valid literal is read back from its own text, so `Parse` succeeds exactly on the texts of valid literals |
| Decimal.ParseUnsignedRender | app.py:28 | the unsigned reader reads every valid unsigned literal back |
| Decimal.RenderNegated | app.py:28 | a negative literal's text is its unsigned text behind a minus |
| Decimal.ParseRejects | app.py:27-30 | `""`, `"-"`, `"."`, `"1-2"` and `"--1"` are rejected |
| Decimal.ParseAccepts | app.py:28 | `"1."` and `".5"` are accepted, as the literals one-point and point-five |
| Decimal.Value | app.py:28 | the number a literal denotes: not positive when the literal is negative, not negative otherwise, and of magnitude below 10 to the number of whole digits |
| Decimal.DigitsValue | app.py:28 | the integer a digit string spells is below 10 to the power of its length |
| Decimal.DigitsValueAppend | app.py:28 | the value of two digit strings joined is the first's value shifted by the second's length plus the second's value |
| Decimal.TrailingZero | app.py:20-25 | a trailing zero in the fraction does not change the value |
| Coord.Count | app.py:21 | `str.count`: the number of occurrences is at most the length |
| Coord.CountAppend | app.py:21 | the count of a concatenation is the sum of the counts |
| Coord.CountZero | app.py:21 | a count of zero means no position holds the character |
| Coord.CountAbsent | app.py:21 | conversely, a text no position of which holds the character counts zero |
| Coord.IsMissing | app.py:17 | the NaN test holds exactly for the empty text and for the three letters `n`, `a`, `n` in any mix of upper and lower case |
| Coord.ReplaceCommas | app.py:19 | same length, no comma left, each comma turned into a period and every other character kept |
| Coord.ReplaceCommasCount | app.py:19-21 | the periods counted at line 21 are the old periods plus the old commas |
| Coord.ReplaceCommasNoPoint | app.py:19 | a text with no period after the replacement was unchanged by it and is the only text with that image |
| Coord.StripReplaceCommas | app.py:16-19 | replacing commas before or after stripping gives the same text |
| Coord.Split | app.py:24 | `split(".")` yields one more piece than there are periods, none holding a period |
| Coord.SplitJoin | app.py:24 | joining the pieces with periods gives the text back |
| Coord.Concat | app.py:25 | `"".join`: pieces without periods join into text without periods |
| Coord.Reassemble | app.py:25 | from pieces without periods, the rebuilt text has exactly one period, right after the first piece |
| Coord.RemoveAll | app.py:25 | no occurrence is left and the length drops by the number removed |
| Coord.RemoveAllAppend | app.py:25 | deleting from a concatenation deletes from each part |
| Coord.RemoveAllAbsent | app.py:25 | deleting a character that does not occur changes nothing |
| Coord.FirstIndex | app.py:24 | the position of the first period: it holds a period and none comes before it |
| Coord.KeepFirstPoint | app.py:21-25 | the intended reading of the fix: exactly one period is left, and the length drops by the periods deleted after the first |
| Coord.ConcatSplit | app.py:25 | gluing the pieces together deletes the periods |
| Coord.SplitAtFirst | app.py:24-25 | the first piece is the text before the first period; the others are the split of the text after it |
| Coord.JoinedPieces | app.py:24-25 | first piece, a period and the other pieces glued together is the text up to the first period followed by the rest without periods |
| Coord.SignedKeepFirstPoint | app.py:22-23 | setting the leading minus aside and putting it back does not change `KeepFirstPoint` |
| Coord.FixPeriodsMeaning | app.py:21-25 | the sign-aware rebuild the script performs equals `KeepFirstPoint` |
| Coord.KeepFirstPointProperties | app.py:20-25 | `KeepFirstPoint` leaves exactly one period and the same non-period characters in the same order |
| Coord.KeepFirstPointCons | app.py:22-25 | a leading character other than a period passes through `KeepFirstPoint` untouched |
| Coord.FixPeriods | app.py:21-25 | at most one period afterwards; text with at most one period untouched; otherwise the text up to the first period followed by the rest with its periods deleted; no other character lost or moved |
| Coord.IsNumericChar | app.py:26 | the characters `[0-9.-]` keeps are never commas, whitespace or upper-case letters, so the earlier steps leave them alone |
| Coord.KeepNumeric | app.py:26 | only digits, `.` and `-` are left, each digit, `.` and `-` occurs as often as in the input, and text made only of those is unchanged |
| Coord.KeepNumericAppend | app.py:26 | the filter works character by character: filtering a concatenation is filtering each part, in order |
| Coord.KeepNumericOne | app.py:26 | one character is kept exactly when it is a digit, `.` or `-` |
| Coord.Clean | app.py:19-26 | the text handed to `float()` holds only digits, `.` and `-`, with at most one period |
| Coord.ParseCoord | app.py:15-30 | NaN when the stripped text is empty or `nan` in any case; otherwise any value read is a valid literal whose text is exactly the cleaned text |
| Coord.ParseCoordComplete | app.py:15-30 | conversely, when the cleaned text is a valid literal that literal is the result |
| Coord.CommaInsensitive | app.py:19 | two inputs equal up to commas read as periods give the same result |
| Coord.NanHasNoPoint | app.py:17-19 | a `nan` text has no period after the comma replacement |
| Coord.ParseCoordRender | app.py:15-30 | round trip: the text of any valid decimal reads back as that decimal |
| Coord.NumericCoord | app.py:16-26 | non-empty text of digits, `.` and `-` skips the NaN test and the comma step unchanged |
| Coord.NumericStripped | app.py:16 | such text is already stripped |
| Coord.NumericPresent | app.py:17 | such text is not empty and not `nan` |
| Coord.NumericNoComma | app.py:19 | such text is unchanged by the comma replacement |
| Coord.NumericCoordOnePoint | app.py:21-28 | such text with at most one period goes to `float()` as it is |
| Coord.RenderNumeric | app.py:28 | a valid literal's text is of that kind with at most one period |
| Coord.FirstIndexAfter | app.py:24 | in `p.q` with no period in `p` the first period follows `p` |
| Coord.ThousandsRepair | app.py:20-25 | any `[-]a.b.c` of digit groups reads as the literal `[-]a.bc` |
| Coord.ThousandsFix | app.py:21-25 | the period fix turns `p.b.c` into `p.bc` |
| Coord.TwoPeriods | app.py:21 | `p.b.c` with period-free groups has two periods, so the fix applies |
| Coord.KeepFirstPointAfter | app.py:24-25 | `KeepFirstPoint` keeps `p.` and deletes the later periods |
| Coord.RemoveSecondPeriod | app.py:25 | gluing `b` and `c` deletes the period between them |
| Coord.DecimalComma | app.py:19 | any `[-]a,b` of digit groups reads as the literal `[-]a.b` |
| Coord.RepairedThousandsCase | app.py:20 | `-13.010.079` reads as -13.010079 |
| Coord.RepairedThousandsValue | app.py:20 | the literal `-13.010079` denotes -13.010079 |
| Coord.RepairedTrailingZerosCase | app.py:20-25 | `-13.020.500` reads as -13.0205 |
| Coord.RepairedTrailingZerosValue | app.py:20-25 | the literal `-13.020500` denotes -13.0205 |
| Coord.TrailingZeros | app.py:20-25 | `-13.020500` and `-13.0205` denote the same number |
| Coord.ShortFractionValue | app.py:20-25 | the literal `-13.0205` denotes -13.0205 |
| Coord.RejectedCoords | app.py:26-30 | `-`, `.`, `1-2` and `--1` give NaN, not an error |
| Coord.RejectedShort | app.py:26-28 | `-` and `.` reach `float()` unchanged |
| Coord.RejectedSigns | app.py:26-28 | `1-2` and `--1` reach `float()` unchanged |
| Coord.OneCharCoord | app.py:21-28 | a one-character numeric text reaches `float()` unchanged |
| Coord.NoPointCoord | app.py:21-28 | a three-character numeric text without a period reaches `float()` unchanged |
| Coord.MissingCoords | app.py:16-18 | the empty text, `nan`, `NaN` and ` nan ` give NaN |
| Coord.NanSpelling | app.py:17 | any three letters spelling `nan`, in any case, pass the NaN test |
| Coord.NanStripped | app.py:16-17 | such three letters strip to themselves and so still pass it |
| Coord.MissingPlain | app.py:17 | `nan` is the NaN token |
| Coord.MissingMixedCase | app.py:17 | `NaN` is the NaN token in any case |
| Coord.MissingPadded | app.py:16-17 | ` nan ` is the NaN token once stripped |
| Pipeline.NormalizeHeader | app.py:37 | a normalised column name has no whitespace at either end and no upper-case letter |
| Pipeline.NormalizeHeaderIdempotent | app.py:37 | normalising a column name twice is normalising it once |
| Pipeline.NormalizeHeaderPadded | app.py:37 | surrounding whitespace and letter case do not matter: ` Lat ` becomes `lat` |
| Pipeline.NormalizeHeaders | app.py:37 | same number of columns, in the same order, each one normalised |
| Pipeline.NormalizeHeadersIdempotent | app.py:37 | renaming the columns twice is renaming them once |
| Pipeline.Missing | app.py:54-59 | the missing names are a subsequence of the required list (its order; the script's list is `Required`: `posto`, `lat`, `long`, `registros`), exactly the required names that are not columns, and empty exactly when all are present |
| Pipeline.RequiredPresent | app.py:59-60 | when nothing is missing the four required names are columns |
| Pipeline.IndexOf | app.py:65-67 | the first position of a column name, `None` exactly when it is not a column |
| Pipeline.Cell | app.py:36 | the cell's own text when the line has it; past the end of a short line a text whose coordinate is NaN |
| Pipeline.Column | app.py:65-67 | one cell per row, the one at the column's position |
| Pipeline.CoordValue | app.py:65-66 | NaN exactly when `parse_coord` gives NaN, otherwise the exact value of the literal it read |
| Pipeline.CoordColumn | app.py:65-66 | `apply(parse_coord)`: one value per cell, in order |
| Wrappers.Option.GetOr | app.py:67 | `fillna`: the value when there is one, the default otherwise |
| Pipeline.MetricColumn | app.py:67 | a cell that does not convert becomes 0, any other its converted value |
| Pipeline.Stations | app.py:65-67 | row `k` of the frame holds entry `k` of each column |
| Pipeline.Frame | app.py:65-67 | row `k` holds row `k`'s parsed latitude and longitude and its coerced count, from the first column of each required name |
| Pipeline.Stored | app.py:69 | the records seen as rows, one for one and in order |
| Pipeline.DropUnparsed | app.py:69 | the kept rows form a subsequence of the frame and are exactly its rows with both coordinates parsed |
| Pipeline.DropUnparsedAppend | app.py:69 | the drop works row by row: it distributes over concatenation |
| Pipeline.DropOne | app.py:69 | a single row is kept exactly when both coordinates parsed |
| Pipeline.SubseqSkip | app.py:69 | skipping a leading element keeps a subsequence a subsequence |
| Pipeline.InRange | app.py:81 | a row passes the mask only when the range is not empty, and then its truncated count lies in it |
| Pipeline.RangeFilter | app.py:81 | the kept rows form a subsequence and are exactly the rows with `lo <= registros <= hi` |
| Pipeline.RangeFilterAppend | app.py:81 | the filter works row by row: it distributes over concatenation |
| Pipeline.RangeFilterKeepsAll | app.py:81 | rows all in range are kept as they are |
| Pipeline.RangeFilterIdempotent | app.py:81 | filtering twice with the same range is filtering once |
| Pipeline.RangeFilterNested | app.py:81 | two filters in a row are the filter by the intersection of the ranges |
| Pipeline.Heat | app.py:110 | one point per filtered row, in order, at its coordinates and weighted by its count |
| Pipeline.HeatWithinRange | app.py:81-110 | every heat weight lies in the slider range and every point is a row's location |
| Pipeline.Min | app.py:73 | the smallest value: a member, not above any other |
| Pipeline.Max | app.py:74 | the largest value: a member, not below any other |
| Pipeline.Sum | app.py:84-85 | the sum added from the front equals the sum added from the back |
| Pipeline.SumFromBackCons | app.py:84-85 | the sum added from the back also splits off the first value |
| Pipeline.Mean | app.py:84-85 | `mean()`: the mean times the number of values is their sum |
| Pipeline.SumBounds | app.py:84-85 | a sum of values between two bounds lies between the count times each bound |
| Pipeline.DivideBounds | app.py:84-85 | dividing by a positive count keeps such bounds |
| Pipeline.MeanWithin | app.py:84-85 | a mean of values between two bounds lies between them |
| Pipeline.MeanBounds | app.py:84-85 | a mean lies between the smallest and the largest value |
| Pipeline.Lats | app.py:84 | entry k is the latitude of row k |
| Pipeline.Lons | app.py:85 | entry k is the longitude of row k |
| Pipeline.Center | app.py:83-86 | the filtered mean when the filter keeps rows, else the mean of all rows, NaN only when both are empty; each coordinate lies between the minimum and maximum of the rows it is taken from |
| Pipeline.MinMaxOfSubset | app.py:83-86 | the extremes of a subset lie within those of the whole |
| Pipeline.CenterInsideAll | app.py:83-86 | with rows at all, the centre exists and lies in the bounding box of all rows |
| Pipeline.Trunc | app.py:73-74 | `int()` on a float truncates toward zero |
| Pipeline.TruncMonotone | app.py:73-74 | truncation is monotone |
| Pipeline.TruncWithin | app.py:118 | a value between two integers truncates to a value between them |
| Pipeline.TruncIntegral | app.py:73-74 | a whole number truncates to itself |
| Pipeline.Metrics | app.py:73-74 | entry k is the count of row k |
| Pipeline.MetricsOf | app.py:73-74 | every row's count is among the counts, and whole counts stay whole |
| Pipeline.DefaultRange | app.py:73-75 | no range (the script raises) exactly when no row is left; otherwise the lower bound is the truncated count of some row and not above any row's, the upper bound the truncated count of some row and not below any row's, and lower is not above upper |
| Pipeline.TruncExtremes | app.py:73-74 | `int()` of the smallest and largest counts are truncated counts of rows and bound every row's truncated count |
| Pipeline.DefaultRangeKeepsAll | app.py:73-81 | with whole-number counts the default slider selection keeps every row |
| Pipeline.FractionalCountDropped | app.py:73-81 | two rows counting 1 and 2.5 get the default range (1, 2), which keeps only the first |
| Script.MarkerOf | app.py:117-126 | a marker sits at its row's coordinates, shows `Strip` of the row's name and the count truncated toward zero |
| Script.MarkersOf | app.py:116-129 | one marker per row, in row order |
| Script.MarkersOfSnoc | app.py:116-129 | one more row adds its marker at the end |
| Script.MarkersOnHeat | app.py:110-124 | every marker sits on the heat point of the same row |
| Script.MarkerCountsInRange | app.py:81-118 | the count a marker shows lies in the slider range |
| Script.MarkerCluster.constructor | app.py:115 | a new cluster is empty |
| Script.MarkerCluster.Add | app.py:123-129 | the marker is appended after those already there |
| Script.AddMarkers | app.py:114-129 | the loop appends the rows' markers in row order |
| Script.Prepared | app.py:37-74 | stops with the missing names and the columns found exactly when a required column is missing; with all columns present, stops exactly when no row has both coordinates parsed; otherwise yields the non-empty drop of the frame built from those columns |
| Script.NoRowsExactly | app.py:65-73 | the drop of the frame is empty exactly when every row lacks a latitude or a longitude |
| Script.SomeParsed | app.py:69-73 | a non-empty drop keeps some parsed row |
| Script.NoneParsed | app.py:69-73 | an empty result of the drop means no row parsed |
| Script.Run | app.py:37-129 | stops exactly when `Prepared` does, with its reason; otherwise the centre, heat list and markers (none when unticked) are those of the rows the selected range keeps |

## Left out

- The page setup, sidebar widgets, refresh button, error display and caption (app.py:13, 40-51, 61-63, 71-79, 134) are UI. The slider's selection is the parameter `pick` of `Script.Run`, and the marker checkbox is `showMarkers`. The radius, blur and zoom sliders are not modelled.
- The HTTP fetch, `raise_for_status` and the 60-second cache with its clearing (app.py:32-36, 43-44) are I/O. `Script.Run` starts from the fetched frame.
- `pd.read_csv` is not modelled. The frame is given as its header line and its rows of cell texts (`str()` of each cell). A short line is padded with `nan` cells, and a numeric cell's `str()` formatting (such as `1e-05`) is taken as given.
- `pd.to_numeric(errors="coerce")` is the parameter `toNumeric` of `Pipeline.MetricColumn`, whose `None` is the coerced NaN. Its own parsing is pandas code this model does not include; `fillna(0)` is modelled.
- Folium rendering, tile layers, the heat-map radius and blur, and the popup and tooltip texts with their `:.6f` formatting (app.py:88-132) are rendering. A marker keeps the name, count and position those texts show.
- IEEE double behaviour is not modelled: values are exact reals. This covers rounding in `float()` and in the means, infinities (`int()` of an infinite count raises), and NaN arithmetic.
- Pipeline.CoordValue: gives the exact value of the literal read, not the nearest double.
- Text.LowerAscii: lower-cases ASCII letters only. No other character lower-cases to `n` or `a`, and the required column names are plain ASCII, so the `nan` test and the column match are unaffected. A non-ASCII header's own lower-casing is not modelled.
- Pipeline.IndexOf: when two columns normalise to the same name, the model reads the first. pandas would hand back both columns, and the script's behaviour then is not modelled.
- Script.MarkerOf: when every column of the frame is numeric, `iterrows` hands back the row as floats, so a `posto` read as 12 shows as `12.0`. The model takes the name's cell text as given.
- Script.Run: a slider whose bounds coincide, and any other widget error, are not modelled. `pick` may return any pair.
