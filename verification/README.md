# French COVID-19 key figures: time series by department, region and country

A Dafny model of the two analysis scripts of `opencovid19-fr-utils`. Both scripts
read the `chiffres-cles` table. Each row of the table has a unit code
(`maille_code`), a date, a granularity (`granularite`) and seven metric cells
(`cas_confirmes`, `deces`, `deces_ehpad`, `reanimation`, `hospitalises`,
`gueris`, `depistes`). From the table the scripts build:

- per unit, a cumulative series and a differential series for each metric.
  The cumulative value on a date is the cell of the unit's row of that date.
  The differential value is that value minus the cumulative value on the
  "previous date", or minus 0 when that date has no value;
- per region, the same series. `analysis_code.py` sums
  the series of the region's departments date by date. `analysis_code_dept.py`
  copies the series of the region's own
  region-level rows;
- for the whole country, the same series computed from the per-date totals.
  `analysis_code.py` sums every row. `analysis_code_dept.py` sums only the rows of
  granularity `pays`.

The model follows the code as written, defects included:

- `get_previous_date` always rolls day 1 back to day "31" of the previous
  month number. It never changes the year, so the day before January 1st is
  month "00".
- The region table of `analysis_code.py` lists department `69` twice under `ara`,
  and the roll-up counts it twice.
- `analysis_code.py` selects a department's rows with `'DEP-{:2s}'`. A
  one-character number therefore selects `"DEP-x "` and misses its rows.

These are stated as lemmas rather than corrected.

Layout, one module per file:

- `results.dfy` (`Results`): `Result`/`Option` and the Python exceptions
  raised (`ValueError`, `KeyError`, `IndexError`).
- `text.dfy` (`Text`): digit strings, `int()`, `'{:02d}'`, `'{:2s}'`,
  `str.split` / `str.join`.
- `dates.dfy` (`Dates`): `get_previous_date`.
- `frames.dfy` (`Frames`): rows, boolean masks, `unique()`,
  `sort_values(by='date')`.
- `series.dfy` (`Series`): the cumulative and differential loops of
  `get_data_dept` / `get_data_france`.
- `totals.dfy` (`Totals`): `groupby('date').agg('sum')` and the national series.
- `rollup.dfy` (`RollUp`): date-aligned sums (`pd.concat(..., axis=1).sum(axis=1)`)
  and the loops over units and over regions.
- `analysis_code.dfy` (`AnalysisCode`): `notebooks/analysis_code.py`.
- `analysis_code_dept.dfy` (`AnalysisCodeDept`): `notebooks/analysis_code_dept.py`.

Python exceptions are error results. Folds run in the source's loop order, so
the modelled error is the one Python raises first. A series is a
`map<string, int>` from date to value, and a bundle holds the `cumul` and
`diff` dictionaries keyed by metric. `get_previous_date` is identical in the two files
(`notebooks/analysis_code_dept.py` lines 52-57), so `Dates` models both. The CSV download and every `get_plot_*`
function are outside the model. The table is a parameter.

## Model

| member | source | states |
|---|---|---|
| Text.Format02 | notebooks/analysis_code.py:29-31 | `'{:02d}'.format(n)`: for n >= 0, digits denoting n, exactly two characters below 100; two or more digits have no leading zero; for n < 0, a '-' followed by the digits of -n, with no zero padding |
| Text.ParseFormat02 | notebooks/analysis_code.py:29-31 | `int()` of `'{:02d}'.format(n)` gives back n for every n >= 0 |
| Text.Format02Parse | notebooks/analysis_code.py:29-31 | formatting the value of any two-digit string gives that string back, leading zero included |
| Text.PadRight2 | notebooks/analysis_code.py:37 | `'{:2s}'`: the string followed by spaces up to width 2, longer strings unchanged |
| Text.Split | notebooks/analysis_code.py:27 | `str.split(sep)`: at least one part, no part contains the separator, and joining the parts with the separator gives the string back |
| Text.SplitFindsSeparator | notebooks/analysis_code.py:92 | a string splits into two or more parts exactly when it contains the separator |
| Text.SplitSecondPart | notebooks/analysis_code.py:92 | when there are two or more parts, the first is the text before the first separator and the second runs from there to the next separator or the end |
| Text.SplitJoin | notebooks/analysis_code.py:27-31 | splitting the join of separator-free parts gives back exactly those parts |
| Dates.PreviousDate | notebooks/analysis_code.py:26-31 | raises ValueError exactly when the text does not split into three parts, the day part is not a number, or the day is 1 and the month part is not a number; the error carries the whole text when there are not three parts, else the day part when it is not a number, else the month part |
| Dates.BadDayIsReported | notebooks/analysis_code.py:27-28 | for any date text of three '-'-free fields whose day is not a number, the ValueError names the day part, the text `int()` rejects, whatever the month holds |
| Dates.PreviousDateWithinMonth | notebooks/analysis_code.py:30-31 | for a day other than 1, year and month are kept and the day becomes day - 1, zero-padded; from day 2 on the result is a well-formed date one day earlier; day "00" gives day "-1" |
| Dates.PreviousDateOfFirst | notebooks/analysis_code.py:28-29 | for day 1, the year is kept, the month becomes month - 1 zero-padded, and the day is "31" whatever the month's length; month "00" gives month "-1" |
| Dates.PreviousDateKeepsYear | notebooks/analysis_code.py:27-31 | whenever it succeeds, the year part of the result equals the year part of the input |
| Dates.MarchFirstRollsToFebruary31 | notebooks/analysis_code.py:28-29 | the day before YYYY-03-01 is YYYY-02-31, in every year |
| Dates.NewYearRollsToMonthZero | notebooks/analysis_code.py:28-29 | the day before YYYY-01-01 is YYYY-00-31: the year is not decremented |
| Frames.KeysOrDefault | notebooks/analysis_code.py:98-107 | `keys=None` becomes the seven metrics in the source's order; a given list is used unchanged |
| Frames.Cell | notebooks/analysis_code.py:147 | `row.get(key, 0)`: the cell's value when the row has the column, 0 otherwise |
| Frames.Filter | notebooks/analysis_code.py:35-37 | a boolean mask keeps exactly the rows that satisfy it and adds none |
| Frames.UnitRows | notebooks/analysis_code_dept.py:61 | `spf_data[spf_data.maille_code == code]`: exactly the rows carrying the code |
| Frames.FilterAppend | notebooks/analysis_code_dept.py:117 | masking a concatenation of two tables gives the masked parts, concatenated in order |
| Frames.FilterKeepsAll | notebooks/analysis_code_dept.py:117 | a mask that every row satisfies returns the table unchanged |
| Frames.Distinct | notebooks/analysis_code.py:91 | `unique()`: the same values as the column, with no value repeated |
| Frames.CodeColumn | notebooks/analysis_code.py:91 | the `maille_code` column holds exactly the codes of the table's rows |
| Frames.SortByDate | notebooks/analysis_code.py:38 | `sort_values(by='date')`: dates ascending in Python's string order, and a permutation (same multiset) of the input |
| Frames.SortKeepsObservations | notebooks/analysis_code.py:38 | sorting keeps every row and its set of dates |
| Series.Cumul | notebooks/analysis_code.py:49-53 | the cumulative series has one entry per date of the rows; its value is the key's cell (0 when absent) of the last row with that date |
| Series.Diff | notebooks/analysis_code.py:65-67 | succeeds exactly when every row's date is accepted by `get_previous_date`; otherwise raises the error of the first rejected row; on success each date's value is the cumulative value minus the value on the previous date, or minus 0 when that date is absent |
| Series.BuildBundle | notebooks/analysis_code.py:39-86 | both halves are keyed by exactly the requested keys, with cumulative and differential series as above; it fails only when a key is requested and some date is rejected, and then with the first rejection's error |
| Series.UnitSeries | notebooks/analysis_code_dept.py:60-85 | `get_data_dept`: succeeds exactly when every date of the unit's rows parses, else raises the error of one of them; on success all seven metrics are present, each series indexed by the unit's dates, each cumulative value taken from a row of that date, each differential value following the previous-date rule |
| Series.UnitObservations | notebooks/analysis_code_dept.py:61-62 | the selected and sorted rows are exactly the unit's rows, and their dates are the unit's dates |
| Totals.GroupByDate | notebooks/analysis_code.py:141 | `groupby('date').agg('sum')`: one row per date present, no date twice, each cell the sum of the column over the rows of that date, missing cells as 0 |
| Totals.DailyTotalsSeries | notebooks/analysis_code.py:141-163 | the national bundle: requested keys only, series indexed by the table's dates, each cumulative value the per-date sum, differential values by the previous-date rule; it fails exactly when a key is requested and some row's date is rejected |
| RollUp.Add | notebooks/analysis_code.py:120-122 | the union of two date indices, with values added date by date and a missing date counting as 0 |
| RollUp.SumSeries | notebooks/analysis_code.py:120-122 | `pd.concat(list, axis=1).sum(axis=1)`: indexed by the union of the listed series' dates; each value is the sum over the list (with multiplicity) of each series' value on that date, a missing date counting as 0 |
| RollUp.DateIndexMember | notebooks/analysis_code.py:120 | a date is in the concatenated index exactly when some listed series has it |
| RollUp.SumSeriesAppend | notebooks/analysis_code.py:120-122 | the sum of a concatenated list is the date-by-date sum of the two lists' sums |
| RollUp.SumSeriesRepeated | notebooks/analysis_code.py:115-122 | a series listed twice contributes its values twice: the sum equals the sum without the repetition plus that series once more |
| RollUp.ForEachUnit | notebooks/analysis_code.py:89-95 | the `_gen_ts_dept` loop: succeeds exactly when every code yields a name and a bundle; otherwise raises the error of a failing code; on success the result is keyed by exactly the names and holds each name's bundle |
| RollUp.ForEachRegion | notebooks/analysis_code.py:110-125 | the region loop: succeeds exactly when every region's bundle builds; otherwise raises the error of a failing region; on success each region's name maps to its bundle when a key is requested, and the result is empty when none is |
| AnalysisCode.DepartmentCode | notebooks/analysis_code.py:37 | `'DEP-{:2s}'.format(dept)`: "DEP-", then the number, then spaces up to a total width of 6 (none when the number has two or more characters) |
| AnalysisCode.DepartmentNumber | notebooks/analysis_code.py:92 | `maille_code.split('-')[1]` succeeds exactly when the code contains '-', and otherwise raises IndexError |
| AnalysisCode.DepartmentNumberIsSecondField | notebooks/analysis_code.py:92 | the number read from a code is the text after its first '-', up to the next '-' or the end, and contains no '-' |
| AnalysisCode.DeptSeries | notebooks/analysis_code.py:33-86 | `get_data_dept`: succeeds exactly when every row carrying the department's padded code has a parsable date, else raises the error of one of them; on success the seven metrics, each series indexed by those rows' dates, cumulative values from a row of that date, differential values by the previous-date rule |
| AnalysisCode.DepartmentCodeRoundTrip | notebooks/analysis_code.py:35-37 | for a department number of two or more characters without '-', splitting the selected code `'DEP-{:2s}'` at '-' gives the number back |
| AnalysisCode.OneCharacterCodeMissesItsRows | notebooks/analysis_code.py:37 | a one-character number read from "DEP-x" selects "DEP-x " instead, so its rows are never selected |
| AnalysisCode.DeptWithoutRowsIsEmpty | notebooks/analysis_code.py:33-86 | a department without rows yields, for all seven metrics, empty cumulative and differential series rather than an error |
| AnalysisCode.DeptDiffReconstructsCumul | notebooks/analysis_code.py:65-67 | for every key and date, the differential value plus the cumulative value on the previous date (0 when absent) gives back the cumulative value |
| AnalysisCode.GenTsDept | notebooks/analysis_code.py:89-95 | `_gen_ts_dept`: succeeds exactly when every code splits at '-' and its department's series build; otherwise raises IndexError or the series error of some code; keyed by exactly the department numbers in the table, each holding `get_data_dept`'s bundle for that number, so every entry carries the seven metrics |
| AnalysisCode.Collect | notebooks/analysis_code.py:115-119 | the inner lookups succeed exactly when every listed department is a unit holding the key in both halves; otherwise raise KeyError naming a missing department or the missing key; on success, the departments' series in list order |
| AnalysisCode.RegionLookupError | notebooks/analysis_code.py:112-122 | a region raises nothing exactly when no key is requested, or its list is non-empty and every lookup succeeds; an empty list raises the concatenation ValueError; otherwise a KeyError names a missing department or key |
| AnalysisCode.RegionBundle | notebooks/analysis_code.py:112-125 | a region's bundle holds exactly the requested keys, each series the date-aligned sum of the listed departments' series |
| AnalysisCode.RollUpIsSumOfDepartments | notebooks/analysis_code.py:111-125 | in any successful roll-up, each region's series of each key is indexed by the union of its departments' dates; on every date, each value is the sum over the department list (with multiplicity) of the departments' values, 0 where a department lacks the date |
| AnalysisCode.RollUpSucceeds | notebooks/analysis_code.py:111-125 | over non-empty department lists, the roll-up succeeds exactly when no key is requested or every lookup succeeds; otherwise it raises KeyError naming a missing department or key |
| AnalysisCode.RepeatedDepartmentCountsTwice | notebooks/analysis_code.py:115-122 | a department list p + [x, x] + q sums to the list p + [x] + q plus x's series once more |
| AnalysisCode.AraCountsRhoneTwice | notebooks/analysis_code.py:9 | in `gen_region_ts`'s result, on every date, the 'ara' value is the sum over its departments with '69' once, plus the '69' value a second time |
| AnalysisCode.GenRegionTs | notebooks/analysis_code.py:97-126 | `gen_region_ts`: an error of `_gen_ts_dept` propagates unchanged; on success the result is keyed by exactly the region names (empty when no key is requested), each holding the sums over its department list |
| AnalysisCode.GenRegionTsSucceeds | notebooks/analysis_code.py:97-126 | `gen_region_ts` succeeds exactly when `_gen_ts_dept` does and either no key is requested, or every listed department number is a key of `_gen_ts_dept`'s result (the part after '-' of some `maille_code`, of any granularity) and every key is one of the seven metrics |
| AnalysisCode.MissingDepartmentRaisesKeyError | notebooks/analysis_code.py:115-116 | with metric keys requested, a listed department number that is not a key of `_gen_ts_dept`'s result makes `gen_region_ts` raise KeyError naming a number that is not a key |
| AnalysisCode.EveryCodeNamesAUnit | notebooks/analysis_code.py:91-94 | any `maille_code` of the form prefix-number, whatever its granularity, makes the number a key of `_gen_ts_dept`'s result |
| AnalysisCode.RegionRowStandsForDepartment | notebooks/analysis_code.py:91-94 | a table whose only row is region-level "REG-11" still yields a unit "11", with empty series, since no row carries "DEP-11" |
| AnalysisCode.FranceSeries | notebooks/analysis_code.py:130-163 | every row, whatever its granularity, counts towards its date's national total; fails exactly when a key is requested and some row's date is rejected |
| AnalysisCodeDept.GenTsDept | notebooks/analysis_code_dept.py:88-93 | `_gen_ts_dept`: succeeds exactly when every row's date parses; otherwise raises the error of some row's date; keyed by exactly the `maille_code`s of the table, each holding `get_data_dept`'s bundle for that code, so every entry carries the seven metrics |
| AnalysisCodeDept.RegionCopy | notebooks/analysis_code_dept.py:102-109 | one region's bundle: succeeds exactly when no key is requested, or the region code is a unit holding every key; otherwise raises KeyError naming the code or a key; on success, copies of the code's series for exactly the requested keys |
| AnalysisCodeDept.CopyRollUpSucceeds | notebooks/analysis_code_dept.py:101-109 | the region loop succeeds exactly when no key is requested or every copy succeeds; otherwise it raises KeyError naming a missing code or key |
| AnalysisCodeDept.CopyEntry | notebooks/analysis_code_dept.py:104-109 | in a successful region loop, each region's series of each requested key equal the series of the region's code |
| AnalysisCodeDept.RegionIsItsOwnUnit | notebooks/analysis_code_dept.py:99-109 | each region's series of a requested key are those `get_data_dept` builds from the rows carrying the region's code |
| AnalysisCodeDept.GenRegionTs | notebooks/analysis_code_dept.py:96-110 | `gen_region_ts`: an error of `_gen_ts_dept` propagates unchanged; on success the result is keyed by exactly the region names (empty when no key is requested), each holding the copy of its own code's series |
| AnalysisCodeDept.GenRegionTsSucceeds | notebooks/analysis_code_dept.py:96-110 | `gen_region_ts` succeeds exactly when every row's date parses and either no key is requested, or every region code occurs in the table and every key is one of the seven metrics |
| AnalysisCodeDept.MissingRegionRaisesKeyError | notebooks/analysis_code_dept.py:104 | with metric keys requested and all dates parsing, a region code absent from the table makes `gen_region_ts` raise KeyError naming an absent code |
| AnalysisCodeDept.CountryRows | notebooks/analysis_code_dept.py:117 | the country-level mask keeps exactly the rows of granularity "pays" |
| AnalysisCodeDept.FranceSeries | notebooks/analysis_code_dept.py:113-139 | only rows of granularity "pays" count, summed per date; fails exactly when a key is requested and such a row's date is rejected |
| AnalysisCodeDept.FranceIgnoresOtherRows | notebooks/analysis_code_dept.py:117 | appending rows of any other granularity leaves the national series unchanged |
| AnalysisCodeDept.FranceAgreesOnCountryRows | notebooks/analysis_code_dept.py:117 | on a table of country-level rows only, the two scripts' `get_data_france` give the same result |

## Left out

- The `get_plot_*` functions and `plt.rcParams`: they only draw charts.
- `data_url` and the CSV download: network I/O. The table is a parameter of every operation.
- The module-level `keys` list of `analysis_code_dept.py` (lines 8-16): no function reads it, since every `keys` parameter shadows it.
- `pd.DataFrame.from_dict`, `pd.DataFrame(...)` and the `columns = [key]` renaming. A one-column frame indexed by date is modelled as a map from date to value.
- Floating point and NaN. Cells are integers, and a cell absent from a row reads as 0.
- Frames.Cell: pandas reads an empty cell of an existing column as NaN and carries it through the subtraction. The model reads it as 0, which is what `row.get(key, 0)` returns for an absent column.
- Series.UnitSeries: the contract says each cumulative value is the cell of some row of that date, not which row. pandas' default sort does not fix the order of rows sharing a date, and the last of them wins.
- AnalysisCode.DeptSeries and both GenTsDept: they build each unit's series through Series.UnitSeries, so they leave open the same choice among rows sharing a date.
- Dates.PreviousDate: `int()` is modelled on ASCII digit strings only. A part with a sign, surrounding whitespace or underscores, which Python accepts, raises ValueError in the model.
- `str(date)`: dates are already strings in the model.
- The `'DEP-{:2d}'` branch of `get_data_dept` in `analysis_code.py`. The department number is always a string, for which `'{:2d}'` raises ValueError, so only the `'{:2s}'` branch is modelled.
- `groupby('date').agg('sum')` also sums the non-metric columns (codes, names, granularity). Only the metric columns are modelled. A requested key naming another column is not; see the next line.
- Totals.DailyTotalsSeries, AnalysisCode.FranceSeries and AnalysisCodeDept.FranceSeries: the keys are taken to be distinct names of numeric columns. A key listed twice is not modelled: Python's third loop runs `from_dict` again on the frame it already stored and loses the series, while the model keeps the sums. A key naming a text column (`'date'`, say) is not modelled either: Python's subtraction raises TypeError, while the model reads the missing metric cell as 0 and succeeds.
- The region roll-up of `analysis_code.py` raises ValueError from `pd.concat([])` for an empty department list. This is modelled, but the region table has no empty list.
- AnalysisCode.RollUpIsSumOfDepartments and AnalysisCodeDept.CopyEntry are stated over any region table with distinct names. The constant tables are tied to them through `RegionsFrom`, `AraCountsRhoneTwice` and `GenRegionTsSucceeds`.
