# Weather-report extractor and derived signals, in Dafny

This project models the part of the water-leak study that turns monthly
weather reports into daily records, and the arithmetic the plots derive
from those records, taken on unbounded integers (see "## Left out" for the
int64 and float64 columns pandas uses).

* `scripts/transform.py`: the current extractor. It finds every
  `Max Avg Min` table in a report with one regular expression. It picks one
  table per variable by position (temperature 0, dew point 1, humidity 2),
  and only when there are more tables than that position. It turns each line
  of the table into `{date, max, avg, min}`, dated by the line's position.
  Year and month come from the file's stem.
* `water-leak-2024-2025/scripts/transform.py`: the older copy, written as
  three blocks of module-level code (humidity, temperature, dew point). Its
  guard only checks that the list of tables is not empty, and it takes the
  year and month from the file name with every ".txt" removed.
* `scripts/plot.py`: loading a variable's series (the selected files'
  rows, concatenated and sorted by date). Also the pointwise integer signals:
  the gap `tmin - dew_max`, the dew excess `max(0, dew_max - tmin)`, the
  temperature floored at 19, and the capped excess
  `max(0, dew_min - max(tmin, 19))`. The capped plot uses the dew point's
  daily minimum (`scripts/plot.py:196`), where the gap and the uncapped excess
  use its maximum (lines 109 and 130).

Modules:

| file | module | models |
|---|---|---|
| `wrappers.dfy` | `Wrappers` | `Option`, `Result` |
| `text.dfy` | `Text` | `str.isspace`, `strip()`, `split(c)`, `str(n)`, `f"{n:02d}"` |
| `numeric.dfy` | `Numeric` | `int()` and `float()` on the shapes the regex hands them; `avg` is an exact decimal |
| `pattern.dfy` | `Pattern` | `re.findall` of the table pattern, as a left-to-right scanner |
| `transform.dfy` | `Transform` | `SECTION_INDEX`, `extract_section_data`, `process_variable`, `main` |
| `legacy_transform.dfy` | `LegacyTransform` | the three blocks of the older script, and how it relates to the current one |
| `plot.dfy` | `Plot` | the concatenate-and-sort of `read_variable_series`, and the gap and excess signals |
| `worked_example.dfy` | `WorkedExample` | the report `"Max\tAvg\tMin\n20\t15.5\t10\n21\t16.0\t11\n"`, named `202401.txt`, run through `main` |

How the code is represented:

* The loop of `extract_section_data` is a `method` with a `while` loop. It
  is proved equal to `Extract`, a function that collects the outcome of each
  line.
* The variable loop of `main` is a `method` with a `for` loop, proved equal
  to `RunInOrder` of the three steps.
* The older script is a `method` of three straight-line blocks, each with its
  own early exit when a block raises.
* The masked assignment `capped_temp[capped_temp < 19] = 19` works on a copy
  of an `array`.
* An exception (`ValueError` from `int()`/`float()`, `IndexError` from an
  index) is the `Fault` that ends a run. A file written is a `Saved` event
  that carries the file name and the rows; a "not found" message is a
  `NotFound` event.

The regular expression is deterministic: backtracking never changes its
result. `\s+` is always followed by a letter and each field by a tab, so the
longest run is the only one that can succeed. Nothing follows the repeated
group, so the greedy first success is the match. The scanner therefore takes
the longest run at every step. Rows end at a newline or at the end of the
text, as the pattern demands.

A row may follow the previous one without a newline when it begins with `-`
(`\n?` is optional). After `strip().split("\n")` such glued rows form one
line of five or more tab-separated fields. That is the only kind of line of
a matched table that `extract_section_data` skips (`TableLines`).

## Model

| member | source | states |
|---|---|---|
| Transform.SectionIndex | scripts/transform.py:8-12 | each variable's table position is below 3 |
| Transform.SectionOrderIndices | scripts/transform.py:8-12 | `main` visits positions 0, 1, 2 in order, and different variables read different tables |
| Transform.Fields | scripts/transform.py:18 | `line.strip().split("\t")` always has at least one part |
| Text.Strip | scripts/transform.py:18 | the result is no longer than the string and has no whitespace at either end |
| Text.StripSpec | scripts/transform.py:18 | the result is the slice of the string that starts where leading whitespace ends, and everything removed before and after it is whitespace |
| Text.StripSlice | scripts/transform.py:18 | the part `strip()` keeps is the slice that starts where leading whitespace ends, and all that it drops after it is whitespace |
| Text.StripTrimmed | scripts/transform.py:18 | `strip()` leaves a string with no whitespace at either end unchanged |
| Text.Split | scripts/transform.py:18 | `split(c)` gives at least one piece, and no piece holds `c` |
| Text.JoinSplit | scripts/transform.py:18 | joining the pieces of a split with the separator gives back the string |
| Text.SplitAtSeparator | scripts/transform.py:18 | a separator-free prefix followed by the separator becomes the first piece |
| Text.SplitGlued | scripts/transform.py:18 | a separator-free prefix glued to a string joins that string's first piece |
| Text.Pad2RoundTrip | scripts/transform.py:22 | `f"{n:02d}"` is all digits and reads back as `n` |
| Transform.DateLabel | scripts/transform.py:22 | definition: `f"{year}-{month}-{day:02d}"`; `DateLabelInjective` and `ExtractDates` state its properties |
| Transform.DateLabelInjective | scripts/transform.py:22 | two dates of the same year and month are equal only for the same day |
| Transform.ParseLine | scripts/transform.py:18-19 | a line is skipped exactly when it does not have three tab-separated fields |
| Transform.ParseLineSpec | scripts/transform.py:19-26 | a kept line is dated as day `i + 1` and holds `int(max)`, `float(avg)`, `int(min)`; a failed line names the first field that does not parse, in the order the dictionary display evaluates them |
| Transform.ParseLinePosition | scripts/transform.py:17-22 | whether a line is kept or fails does not depend on its position; only its date does |
| Transform.Outcomes | scripts/transform.py:17 | definition: one outcome per line of `enumerate`, the outcome of line `i` being `ParseLine` at position `i`; what the outcomes hold is stated by `ExtractOk`, `ExtractDates`, `ExtractCount` and `ExtractErr` |
| Transform.Collect | scripts/transform.py:16-27 | definition: the dictionary filled outcome by outcome, stopping at the first failure; `CollectOk`, `CollectCount` and `CollectErr` state what it holds |
| Transform.Extract | scripts/transform.py:14-27 | definition: `Collect` of the outcomes of the lines; `ExtractOk`, `ExtractDates`, `ExtractCount` and `ExtractErr` state what it holds, and `ExtractSectionData` is proved equal to it |
| Transform.ExtractSectionData | scripts/transform.py:14-27 | the loop's result is `Extract` of the lines: the collected rows, or the first fault |
| Transform.ExtractOk | scripts/transform.py:16-27 | a successful extraction keeps every line with three fields and only those, in line order, each under its 0-based position as key |
| Transform.ExtractDates | scripts/transform.py:17-22 | every row is dated with the day after its key, so a skipped line leaves a gap and does not shift later dates |
| Transform.ExtractCount | scripts/transform.py:16-27 | never more rows than lines, and as many exactly when every line has three fields |
| Transform.ExtractErr | scripts/transform.py:17-25 | extraction fails exactly when some line fails, and then with the fault of the first such line |
| Transform.ExtractFaults | scripts/transform.py:23-25 | only `int()` and `float()` make an extraction fail |
| Transform.CollectOk | scripts/transform.py:16-27 | a successful collection keeps exactly the kept outcomes, in order, keyed by position |
| Transform.CollectCount | scripts/transform.py:16-27 | a collection has at most one row per line, and one per line exactly when all are kept |
| Transform.CollectErr | scripts/transform.py:17-25 | a collection fails exactly when some outcome failed, with the first failure's fault |
| Transform.CollectErrPersists | scripts/transform.py:23-25 | once a prefix has failed, the whole loop fails with the same fault |
| Transform.ExtractStep | scripts/transform.py:17-26 | one turn of the loop: the prefix one line longer collects to the old rows, the old rows plus the new record, or the run fails with the line's fault |
| Transform.SectionLines | scripts/transform.py:36 | definition: `section.strip().split("\n")`; `StripRows` and `MatchIsTable` state what it gives on a matched group |
| Transform.OutputName | scripts/transform.py:38 | definition: `f"{variable_name}_{year}_{month}.csv"`; `OutputNamesDistinct` and `Plot.SeriesFileOfOutput` state its properties |
| Transform.OutputNamesDistinct | scripts/transform.py:38 | different variables are written to different files |
| Transform.ProcessVariable | scripts/transform.py:30-42 | definition: `matches[index]` extracted and saved when there are more matches than `index`, "not found" otherwise; `ProcessVariableSpec` and `NoIndexError` state its properties |
| Transform.ProcessVariableSpec | scripts/transform.py:32-42 | "not found" exactly when there are no more matches than the index; otherwise the result is the extraction of `matches[index]`, saved as `{variable}_{year}_{month}.csv` |
| Transform.NoIndexError | scripts/transform.py:34-35 | the length guard makes `matches[index]` safe |
| Transform.TableLineOutcome | scripts/transform.py:18-25 | a line of a matched table fails exactly when it has three fields and an integer field is over the 4300-digit limit or `float()` rejects the average; the fault names the first such field in evaluation order |
| Transform.MatchedSectionOutcome | scripts/transform.py:32-37 | a table findall returned extracts exactly when every three-field line has integers within the digit limit and an average `float()` accepts; otherwise it fails with `BadFloat`, or with `BadInt` on an over-long integer |
| Transform.TableLinesOutcome | scripts/transform.py:17-25 | the same, for any lines of the table-line shape |
| Transform.LastIndexOf | scripts/transform.py:51 | the position found holds the character, and no later position does |
| Transform.Stem | scripts/transform.py:51 | `Path.stem`: the name without its last suffix, where the suffix starts at a dot that is neither the first nor the last character; otherwise the whole name |
| Transform.LastIndexOfBefore | scripts/transform.py:51 | the last dot is the one no dot follows |
| Transform.StemOfTxt | scripts/transform.py:51 | the stem of `s + ".txt"` is `s` |
| Transform.YearMonth | scripts/transform.py:52 | `YYYYMM[:4]` and `YYYYMM[4:]` put back together give the stem, and the year has at most four characters |
| Transform.YearMonthOf | scripts/transform.py:52 | a four-character year followed by a month splits back into the two |
| Transform.RunInOrder | scripts/transform.py:55-56 | definition: the steps run in order, stopping at the first that raises; `RunInOrderSpec`, `RunInOrderPrefix`, `RunStopsAt` and `RunCompletes` state its properties |
| Transform.RunInOrderSpec | scripts/transform.py:55-56 | a run reports the events of the steps before the first failing one, and that step's fault |
| Transform.RunInOrderPrefix | scripts/transform.py:55-56 | once the first `k` steps succeed, the run is their events followed by the run of the rest |
| Transform.RunStopsAt | scripts/transform.py:55-56 | a run whose step `k` is the first to fail reports the events before it and its fault |
| Transform.RunCompletes | scripts/transform.py:55-56 | a run in which every step succeeds reports all their events |
| Transform.RunOfThree | scripts/transform.py:55-56 | a run of three steps, case by case |
| Transform.MainSteps | scripts/transform.py:55-56 | definition: step `k` of `main` is `process_variable` for the `k`-th variable of `SECTION_INDEX`; `RunTransform` and `RunOfThree` state what the run of these steps reports |
| Transform.StepsOfMain | scripts/transform.py:55-56 | the steps are temperature, dew point and humidity, in that order |
| Transform.RunTransform | scripts/transform.py:45-56 | `main` on a report is the ordered run of the three steps, with year and month from the stem |
| Transform.MainNoIndexError | scripts/transform.py:34-35 | a run of `main` never stops on a missing table |
| Transform.NoStepFault | scripts/transform.py:55-56 | a fault no step raises is not the fault a run stops on |
| Numeric.ParseInt | scripts/transform.py:23 | `int()` succeeds exactly on `-?\d+` with at most 4300 digits (CPython's default limit on converting text to `int`) |
| Numeric.IntRoundTrip | scripts/transform.py:23 | `int(str(n)) == n` whenever `str(n)` has at most 4300 digits |
| Numeric.FindChar | scripts/transform.py:24 | the first position of a character, or the length when it does not occur |
| Numeric.ParseDecimal | scripts/transform.py:24 | `float()` on `-?[\d.]+` succeeds exactly when there is a digit and at most one dot, and keeps the sign |
| Numeric.DigitsOf | scripts/transform.py:24 | the digits of an average with the dot left out are all digits |
| Numeric.DecimalRoundTrip | scripts/transform.py:24 | every decimal reads back unchanged from its written form |
| Numeric.BodyRoundTrip | scripts/transform.py:24 | the unsigned part of a written decimal reads back as its magnitude and scale |
| Numeric.FloatAccepted | scripts/transform.py:24 | `float("15.5")` is 155 tenths, and `float("-0")` keeps its sign |
| Numeric.FloatRejected | scripts/transform.py:24 | `float(".")` and `float("1.2.3")` fail, although the regex matches both |
| Pattern.RunEnd | scripts/transform.py:32 | the longest run of `\d` (or `[\d.]`): its last character belongs, the next one does not |
| Pattern.RunEndAll | scripts/transform.py:32 | every character of the run belongs to it |
| Pattern.SpaceEnd | scripts/transform.py:32 | the longest run of `\s`: the next character is not whitespace |
| Pattern.SpaceEndAll | scripts/transform.py:32 | every character of the whitespace run is whitespace |
| Pattern.HeaderEnd | scripts/transform.py:32 | a header match at `p` ends at least 12 characters on, within the text |
| Pattern.HeaderShape | scripts/transform.py:32 | a header found at `p` starts with "Max" and ends with "Min" and its newline |
| Pattern.HeaderFound | scripts/transform.py:32 | conversely, "Max", a whitespace run, "Avg", a whitespace run, "Min" and a newline at `p` are found, and the header ends just after that newline |
| Pattern.FieldEnd | scripts/transform.py:32 | a matched field is not empty, ends with a character of its run, and the next character is not in the run |
| Pattern.FieldShape | scripts/transform.py:32 | a matched field has the shape `-?\d+` (or `-?[\d.]+`), starts with no whitespace and holds no tab or newline |
| Pattern.FieldFound | scripts/transform.py:32 | conversely, a field of its shape at `p` that no character of its run follows is found and ends where it ends |
| Pattern.RowEnd | scripts/transform.py:32 | a matched row is not empty, ends with a digit, and no digit follows it |
| Pattern.RowShape | scripts/transform.py:32 | a matched row is three tab-separated fields of the shapes `-?\d+`, `-?[\d.]+`, `-?\d+`, with no whitespace at either end and no newline |
| Pattern.RowFound | scripts/transform.py:32 | conversely, three fields of those shapes joined by tabs at `p`, not followed by a digit, are found as a row that ends where they end |
| Pattern.RowTextFound | scripts/transform.py:32 | the same for any row text at `p` |
| Pattern.NoRowAt | scripts/transform.py:32 | no row starts at a character other than a digit or `-`, nor at the end of the text |
| Pattern.RowsEnd | scripts/transform.py:32 | the repeated row group ends past its start, within the text |
| Pattern.RowsEndStops | scripts/transform.py:32 | the group is the longest: no row starts where it ends |
| Pattern.RowsEndStep | scripts/transform.py:32 | after a row and its newline the group goes on when another row follows, and ends otherwise |
| Pattern.ChainEnds | scripts/transform.py:32 | rows found one after another, each ending at a newline just before the next, with no row after the last, make one group that ends after the last newline |
| Pattern.RowsLaidOut | scripts/transform.py:32 | rows of the field shapes written one after another, each with its newline, are found one after another |
| Pattern.RowsFound | scripts/transform.py:32 | such rows, with no row after them, are one group that ends after the last newline |
| Pattern.RowsShape | scripts/transform.py:32 | the text of a row group, without its final newline, is trimmed and all of its lines are table lines |
| Pattern.StripRows | scripts/transform.py:36 | `strip()` of a matched group removes only its final newline |
| Pattern.MatchIsTable | scripts/transform.py:32-36 | every group the scanner matches is a table: after `strip().split("\n")` each line is a row or several glued rows |
| Pattern.FindAllFromAll | scripts/transform.py:32 | a property of every row group holds of everything findall returns |
| Pattern.FindAllTables | scripts/transform.py:32-36 | everything findall returns is the text of a table |
| Pattern.FindAllFrom | scripts/transform.py:32 | definition: the scan from `p`; at a header followed by a row it takes the rows group and resumes after it, elsewhere it moves on by one character; `FindAllFromAll`, `SkipText`, `TableFound`, `FindAllOne` and `FindAllTwo` state its properties |
| Pattern.FindAll | scripts/transform.py:32 | definition: the scan from the start of the text |
| Pattern.SkipOne | scripts/transform.py:32 | findall moves on by one character where "Max" does not start |
| Pattern.SkipText | scripts/transform.py:32 | a stretch in which "Max" never starts is passed over |
| Pattern.EndOfText | scripts/transform.py:32 | findall finds nothing at the end of the text |
| Pattern.TableFound | scripts/transform.py:32 | a header followed by rows of the field shapes, each with its newline, and no row after them, is found where it stands: its rows are the next result and the search resumes after them |
| Pattern.TableThen | scripts/transform.py:32 | the same for a table that the end of the text or another "M" follows |
| Pattern.OnlyTable | scripts/transform.py:32 | a text that is one table and nothing else gives exactly that table's rows |
| Pattern.FindAllOne | scripts/transform.py:32 | for every header and every non-empty list of rows of the field shapes, findall on header plus rows is the list of those rows alone |
| Pattern.TwoTables | scripts/transform.py:32 | a text that is two tables and nothing else gives the two tables' rows, in order |
| Pattern.FindAllTwo | scripts/transform.py:32 | findall on two tables one after the other gives both tables' rows, in order |
| LegacyTransform.RemoveAll | water-leak-2024-2025/scripts/transform.py:19 | `replace('.txt', '')` never makes the name longer |
| LegacyTransform.RemoveAllAddsNothing | water-leak-2024-2025/scripts/transform.py:19 | `replace('.txt', '')` adds no character: the result's characters are among the name's, as often at most |
| LegacyTransform.RemoveAllAbsent | water-leak-2024-2025/scripts/transform.py:19 | removing a text that does not occur changes nothing |
| LegacyTransform.RemoveTxtSuffix | water-leak-2024-2025/scripts/transform.py:19 | on `s + ".txt"` with no ".txt" in `s`, removing ".txt" gives `s` |
| LegacyTransform.LegacyStemAgrees | water-leak-2024-2025/scripts/transform.py:19-21 | on such a name the older script's stem equals the current one's |
| LegacyTransform.DoubleSuffix | water-leak-2024-2025/scripts/transform.py:19 | where they differ: "a.txt.txt" gives "a" in the older script and "a.txt" in the current one |
| LegacyTransform.LegacyBlock | water-leak-2024-2025/scripts/transform.py:28-56 | definition: "not found" when findall returned nothing, `IndexError` when it returned no more tables than the index, otherwise the table at the index extracted and saved; `LegacyBlockSpec` relates it to `process_variable` |
| LegacyTransform.LegacyBlockSpec | water-leak-2024-2025/scripts/transform.py:28-56 | a block raises `IndexError` exactly when there is at least one table but no more than its index; otherwise it does what `process_variable` does |
| LegacyTransform.TemperatureBlockNoIndexError | water-leak-2024-2025/scripts/transform.py:63-64 | the temperature block's `[0]` is always safe once the guard passes |
| LegacyTransform.RunBlock | water-leak-2024-2025/scripts/transform.py:28-56 | one block run as written, with findall, the non-empty guard, the index, and the loop, equals `LegacyBlock` |
| LegacyTransform.LegacySteps | water-leak-2024-2025/scripts/transform.py:28-96 | definition: each block runs the same findall on the same text, in the order humidity, temperature, dew point; `FewTablesAbort` and `ThreeTablesAgree` state what the run of these blocks reports |
| LegacyTransform.StepsOfScript | water-leak-2024-2025/scripts/transform.py:28-96 | the three steps, one by one |
| LegacyTransform.RunLegacyScript | water-leak-2024-2025/scripts/transform.py:19-121 | the script is the ordered run of its three blocks, stopping at the first that raises, with year and month from the name with ".txt" removed |
| LegacyTransform.NoTables | water-leak-2024-2025/scripts/transform.py:55-121 | with no table, all three variables are reported not found |
| LegacyTransform.FewTablesAbort | water-leak-2024-2025/scripts/transform.py:30-31 | with one or two tables, the humidity block raises and nothing is written |
| LegacyTransform.ThreeTablesAgree | water-leak-2024-2025/scripts/transform.py:31-96 | with three or more tables, the blocks make exactly the steps of the current `main`, humidity first |
| Plot.Concat | scripts/plot.py:44 | definition: `pd.concat`, the tables one after the other; `ConcatLength` states its length |
| Plot.SortByDate | scripts/plot.py:44 | definition: `sort_index()` as an insertion by date; `SortByDateSpec` states that it sorts and permutes |
| Plot.DateLeTotal | scripts/plot.py:44 | the date order is total, transitive and antisymmetric |
| Plot.ConcatLength | scripts/plot.py:44 | `pd.concat` has as many rows as the input tables together |
| Plot.InsertPermutation | scripts/plot.py:44 | inserting a row adds exactly that row |
| Plot.InsertSorted | scripts/plot.py:44 | inserting into a date-sorted table keeps it sorted |
| Plot.SortByDateSpec | scripts/plot.py:44 | `sort_index()` gives a date-sorted permutation of its input |
| Plot.SeriesTables | scripts/plot.py:42-43 | the glob selects at most as many tables as there are files |
| Plot.SeriesTablesEmpty | scripts/plot.py:42-43 | the glob selects no table exactly when no file name matches it |
| Plot.ReadVariableSeries | scripts/plot.py:42-44 | definition: no series when the glob selects nothing (`pd.concat([])` raises `ValueError`), otherwise the selected tables concatenated and sorted by date |
| Plot.ReadVariableSeriesSpec | scripts/plot.py:42-44 | loading fails exactly when no file matches the glob; otherwise the series is sorted by date, is a permutation of the selected files' rows, and has as many rows as they have together |
| Plot.SeriesFileOfOutput | scripts/plot.py:42 | the glob `{var}_*.csv` selects the files the extractor writes for `var` and for no other variable |
| Plot.Column | scripts/plot.py:109 | definition: `df['min']` or `df['max']` as a map from date to value, a later row overriding an earlier one of the same date |
| Plot.ColumnSpec | scripts/plot.py:109 | a column indexed by date has exactly the rows' dates as keys, and with distinct dates holds each row's value |
| Plot.Gap | scripts/plot.py:109 | definition: `tmin - dew_max` on one date |
| Plot.DewExcess | scripts/plot.py:130 | definition: `np.maximum(0, dew - temp)` on one date; `DewExcessSpec` states its properties |
| Plot.DewExcessSpec | scripts/plot.py:130 | the dew excess is at least 0, is 0 exactly when the dew point is at most the minimum temperature, and is their difference otherwise |
| Plot.ExcessOfGap | scripts/plot.py:109-130 | the dew excess is the condensation gap negated and clipped at 0 |
| Plot.ExcessSeriesOfGap | scripts/plot.py:109-130 | on the temperature's dates, the excess series is the gap series negated and clipped at 0, and missing where the gap is |
| Plot.CappedTemperature | scripts/plot.py:193 | definition: a value below 19 becomes 19 |
| Plot.CappedTemperatureSpec | scripts/plot.py:192-193 | the capped temperature is at least 19, at least the original, and unchanged at 19 or above |
| Plot.CappedExcess | scripts/plot.py:196 | definition: the dew-point minimum over the capped temperature, clipped at 0 |
| Plot.CappedExcessSpec | scripts/plot.py:193-196 | the capped excess is between 0 and the uncapped excess of the same dew series, and 0 when the dew-point minimum is at most 19 |
| Plot.GapSeries | scripts/plot.py:108-109 | definition: the gap on each date of the temperature column, missing where the dew column lacks that date |
| Plot.ExcessSeries | scripts/plot.py:130 | definition: the excess on the union of the two columns' dates, missing where one lacks the date |
| Plot.CappedSeries | scripts/plot.py:192-193 | definition: the temperature column with each value capped |
| Plot.CappedExcessSeriesSpec | scripts/plot.py:192-196 | the capped excess series is missing at the same dates as the uncapped one, and elsewhere is the capped excess, no larger than the uncapped value, and 0 where the dew point is at most 19 |
| Plot.CondensationGap | scripts/plot.py:107-109 | definition: `merged['delta']` built from the two frames' `min` and `max` columns |
| Plot.ExcessOfFrames | scripts/plot.py:129-130 | definition: `excess` built from the dew frame's `max` and the temperature frame's `min` |
| Plot.CappedExcessOfFrames | scripts/plot.py:191-196 | definition: `excess` built from the dew frame's `min` (not its `max`, as the uncapped plot uses) and the capped temperature `min` |
| Plot.CondensationGapSpec | scripts/plot.py:107-109 | the gap is indexed by the temperature frame's dates, is missing exactly on the dates the dew frame lacks, and with distinct dates is the temperature row's `min` less the dew row's `max` of the same date |
| Plot.ExcessOfFramesGap | scripts/plot.py:109-130 | on the gap's dates the uncapped excess of the two frames is the gap negated and clipped at 0 |
| Plot.ColumnMinLeMax | scripts/plot.py:196 | when every row's `min` is at most its `max`, so is the `min` column's value at every date |
| Plot.CappedExcessOfFramesSpec | scripts/plot.py:191-196 | the capped excess of the two frames is defined exactly where both frames have the date, is at least 0, is 0 where the dew point is at most 19, and, when every dew row's `min` is at most its `max`, is no larger than the uncapped excess of the same date |
| Plot.CappedValues | scripts/plot.py:192-193 | capping keeps the length of the column |
| Plot.CappedValuesSpec | scripts/plot.py:192-193 | every capped value is at least 19, and a value at or above 19 is unchanged |
| Plot.CapMinimum | scripts/plot.py:192-193 | the copy, after the masked assignment, holds the capped values, and the original column is unchanged |
| Plot.CappedSeriesValues | scripts/plot.py:192-193 | with distinct dates, position `i` of the capped copy of the minima is the capped series at row `i`'s date |
| WorkedExample.ReportTable | scripts/transform.py:32-36 | findall on the example report finds one table whose lines are its two rows |
| WorkedExample.RowRecords | scripts/transform.py:17-26 | the two rows give (2024-01-01, 20, 15.5, 10) and (2024-01-02, 21, 16.0, 11) |
| WorkedExample.WorkedTable | scripts/transform.py:14-37 | the example's only table extracts to exactly those two records, keyed 0 and 1 |
| WorkedExample.WorkedName | scripts/transform.py:51-52 | "202401.txt" gives year "2024" and month "01" |
| WorkedExample.OneTableSteps | scripts/transform.py:34-42 | with a single table the temperature is saved and the dew point and humidity are not found |
| WorkedExample.WorkedRun | scripts/transform.py:45-56 | `main` on the example saves "temperature_2024_01.csv" with the two records, then reports dew point and humidity not found |

## Left out

- File reading, `mkdir`, argparse, path resolution and the console messages are left out. A report is its text and its file name; a message is a `NotFound` event or the `Fault` of the run.
- `Stem` and `RemoveAll` act on the file name, not on a resolved path, because `Path.resolve()` depends on the file system.
- `DataFrame.to_csv`, `pd.read_csv` and how floats are printed are left out. A written file is the list of its rows, keyed by line position; a loaded file is a `CsvFile` of `Row`s that already carry a parsed `Date`. A table whose every line is skipped (only rows glued together, such as `Max\tAvg\tMin\n1\t2\t3-4\t5\t6\n`) is saved with no rows. `to_csv` then writes a file with no header, on which `pd.read_csv` raises `EmptyDataError`; the model loads that file as an empty table instead.
- The link from the CSV `date` text (`DateLabel`) to the `Date` that `parse_dates` makes is left out.
- Numeric.ParseInt, Numeric.ParseDecimal: modelled only on the field shapes the regex lets through (`-?\d+`, `-?[\d.]+`). `int()` and `float()` accept more, such as spaces, `+`, `_`, exponents and `inf`, which cannot reach them here.
- Text.IsDigit: `\d` and `int()` also accept non-ASCII Unicode digits; the model takes ASCII digits only.
- `avg` is the exact decimal that was written, not the binary float `float()` returns. Rounding to the nearest double is not modelled, nor the overflow of a magnitude beyond the double range (about 1.8e308, for instance 309 nines) to `inf`, which `float()` returns without raising.
- Numeric.ParseInt: the digit limit is CPython's default of 4300. `sys.set_int_max_str_digits` or the `PYTHONINTMAXSTRDIGITS` environment variable can change it, and that setting is outside the program.
- Plot.Gap, Plot.DewExcess, Plot.CappedExcess, Plot.GapSeries, Plot.ExcessSeries, Plot.CondensationGap, Plot.ExcessOfFrames, Plot.CappedExcessOfFrames: computed on unbounded integers. pandas holds `max` and `min` in int64 columns, where a difference wraps around silently (dew max 2^62 against temperature min -2^62 wraps to -2^63, so `np.maximum(0, ...)` gives 0 where `DewExcessSpec` gives 2^63). Where aligning the two frames inserts NaN, the column becomes float64 and values beyond 2^53 are rounded. The contracts hold only for values whose differences stay within int64, and within 2^53 once a date is missing from one frame.
- Weekly `resample('W').mean()`, LOWESS smoothing, the residual standard deviation and the logistic `1/(1+exp(delta))` are left out, because they are floating-point numerics inside library calls.
- All matplotlib work (plots, annotations, colours, titles, `savefig`) is left out, because it is rendering.
- `scripts/plot_from_meteo_france.py`, `scripts/process.py` and `water-leak-2024-2025/scripts/process.py` are not part of this model. They are a float-only script and batch drivers that call other programs.
- Plot.SeriesTables: the directory is a list of files taken in the order `sorted(glob)` returns them; the order of file names is not modelled.
- Plot.SortByDate: rows with equal dates keep their input order (an insertion sort). pandas' `sort_index()` does not promise an order among ties.
- Plot.Column: a column indexed by date is modelled as a map from date to value, so a date that appears twice keeps only its last row. In pandas, joining two indexes that share a repeated label pairs every matching row with every other (a product), unless the two indexes are identical; the assignment to `merged['delta']` at scripts/plot.py:109 then reindexes onto `temp_df.index`, which raises on duplicate labels. None of this is modelled. The extractor does not produce such a date: it writes one file per year and month (`OutputName`), and the dates inside one table are distinct (`DateLabelInjective`).
- Transform.RunTransform, LegacyTransform.RunLegacyScript: a run stops at the first exception. The files written before it are the events reported; nothing models the file system beyond them.

Three behaviours of the code worth stating:

- The only lines of a matched table that `extract_section_data` skips are rows glued together by a missing newline, which split into five or more fields (scripts/transform.py:17-19 with the pattern at line 32 and `strip().split("\n")` at line 36). The pattern cannot produce an empty line inside a match, and `strip()` removes the final newline (`MatchIsTable`, `StripRows`).
- A variable is "not found" whenever there are no more tables than its index, not only when its own table is missing (scripts/transform.py:34). With one table, dew point and humidity are both not found (`OneTableSteps`).
- The older script takes the stem with `replace('.txt', '')` (water-leak-2024-2025/scripts/transform.py:19). On a name with ".txt" twice this differs from `Path.stem` (`DoubleSuffix`). That is a difference between the two copies, not an error in either.

## Findings

| source | as written | input that shows it | evidently intended | confidence | as-written member | corrected member |
|---|---|---|---|---|---|---|
| water-leak-2024-2025/scripts/transform.py:30-31 | `if humidity_section:` guards `humidity_section[2]`, so only an empty list is excluded | a report with one or two Max/Avg/Min tables: the humidity block raises `IndexError` before anything is written, and the temperature table that is present is never saved | index only when there are more tables than the index (`len(matches) > index`), as the later copy does, and report the missing variable instead | not executed | LegacyTransform.FewTablesAbort | Transform.MainNoIndexError |
