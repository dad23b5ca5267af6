/** `notebooks/analysis_code.py`: units are departments addressed by their
    number ("75", "2A"); a region's series are the date-aligned sum of its
    departments' series; the national series sum every row per date. */
module AnalysisCode {
  import opened Results
  import opened Text
  import opened Dates
  import opened Frames
  import opened Series
  import opened RollUp
  import opened Totals

  /** The `regions` table: region name to department numbers, in the source's
      order, '69' listed twice under 'ara' as in the source. */
  const Regions: seq<(string, seq<string>)> := [
    ("ara", ["01", "03", "07", "15", "26", "38", "42", "43", "63", "69", "69", "73", "74"]),
    ("bfc", ["21", "25", "39", "58", "70", "71", "89", "90"]),
    ("bretagne", ["22", "29", "35", "56"]),
    ("cvl", ["18", "28", "36", "37", "41", "45"]),
    ("corse", ["2A", "2B"]),
    ("hdf", ["02", "59", "60", "62", "80"]),
    ("grand-est", ["08", "10", "51", "52", "54", "55", "57", "67", "68", "88"]),
    ("ile-de-france", ["75", "77", "78", "91", "92", "93", "94", "95"]),
    ("normandie", ["14", "27", "50", "61", "76"]),
    ("na", ["16", "17", "19", "23", "24", "33", "40", "47", "64", "79", "86", "87"]),
    ("occitanie", ["09", "11", "12", "30", "31", "32", "34", "46", "48", "65", "66", "81", "82"]),
    ("pdl", ["44", "49", "53", "72", "85"]),
    ("paca", ["04", "05", "06", "13", "83", "84"])
  ]

  /** The 'ara' departments with the repeated '69' removed. */
  const AraOnce: seq<string> := ["01", "03", "07", "15", "26", "38", "42", "43", "63", "69", "73", "74"]

  /** The `maille_code` `get_data_dept` selects for a department number:
      `'{:2d}'` rejects a string, so `'DEP-{:2s}'` applies, which pads a
      one-character number with a trailing space. */
  function DepartmentCode(dept: string): (c: string)
    ensures |c| == 4 + if |dept| < 2 then 2 else |dept|
    ensures c[..4] == "DEP-"
    ensures c[4..4 + |dept|] == dept
    ensures forall i :: 4 + |dept| <= i < |c| ==> c[i] == ' '
  {
    "DEP-" + PadRight2(dept)
  }

  /** `maille_code.split('-')[1]`, raising IndexError when there is no '-'. */
  function DepartmentNumber(code: string): (r: Result<string>)
    ensures r.Ok? <==> '-' in code
    ensures r.Err? ==> r.error == IndexError(code)
  {
    var parts := Split(code, '-');
    SplitFindsSeparator(code, '-');
    if |parts| < 2 then Err(IndexError(code)) else Ok(parts[1])
  }

  /** The number read from a code is the field between its first '-' and the
      next '-' (or the end). */
  lemma DepartmentNumberIsSecondField(code: string)
    requires DepartmentNumber(code).Ok?
    ensures var n := DepartmentNumber(code).value;
      '-' !in n && exists k :: FirstDashThen(code, k, n)
  {
    SplitSecondPart(code, '-');
    var k := |Split(code, '-')[0]|;
    assert FirstDashThen(code, k, DepartmentNumber(code).value);
  }

  /** Position `k` holds the first '-' of `code`, and `n` follows it up to the
      next '-' or the end. */
  predicate FirstDashThen(code: string, k: int, n: string)
  {
    && 0 <= k && k + 1 + |n| <= |code|
    && code[k] == '-'
    && '-' !in code[..k]
    && code[k + 1..k + 1 + |n|] == n
    && (k + 1 + |n| == |code| || code[k + 1 + |n|] == '-')
  }

  /** A department number of two or more characters without '-' is recovered
      from its code, and the code is rebuilt from the number. */
  lemma DepartmentCodeRoundTrip(dept: string)
    requires |dept| >= 2 && '-' !in dept
    ensures DepartmentNumber(DepartmentCode(dept)) == Ok(dept)
  {
    assert PadRight2(dept) == dept;
    assert "DEP-" + dept == "DEP" + ['-'] + dept;
    assert '-' !in "DEP";
    SplitCons("DEP", dept, '-');
    SplitWithout(dept, '-');
  }

  /** A one-character number is read from "DEP-x" but padded to "DEP-x " when
      selecting, so the rows of "DEP-x" are never picked up. */
  lemma OneCharacterCodeMissesItsRows(x: char)
    requires x != '-'
    ensures DepartmentNumber("DEP-" + [x]) == Ok([x])
    ensures DepartmentCode([x]) != "DEP-" + [x]
  {
    assert "DEP-" + [x] == "DEP" + ['-'] + [x];
    assert '-' !in "DEP";
    SplitCons("DEP", [x], '-');
    SplitWithout([x], '-');
    assert |DepartmentCode([x])| == 6;
  }

  /** `get_data_dept(spf_data, dept)`: the series of the rows whose
      `maille_code` is the department's padded code; it raises exactly when one
      of those rows has a date `get_previous_date` rejects. */
  function DeptSeries(rows: seq<Row>, dept: string): (r: Result<Bundle>)
    ensures r.Ok? <==> forall row :: row in rows && row.mailleCode == DepartmentCode(dept) ==> PreviousDate(row.date).Ok?
    ensures r.Err? ==> exists row :: row in rows && row.mailleCode == DepartmentCode(dept) && PreviousDate(row.date) == Err(r.error)
    ensures r.Ok? ==> IsUnitBundle(rows, DepartmentCode(dept), r.value)
  {
    UnitSeries(rows, DepartmentCode(dept))
  }

  /** A department with no rows yields, for each of the seven metrics, an
      empty cumulative and an empty differential series, not an error. */
  lemma DeptWithoutRowsIsEmpty(rows: seq<Row>, dept: string)
    requires forall row :: row in rows ==> row.mailleCode != DepartmentCode(dept)
    ensures DeptSeries(rows, dept).Ok?
    ensures var b := DeptSeries(rows, dept).value;
      b.cumul.Keys == b.diff.Keys == (set k | k in Metrics)
      && forall k :: k in Metrics ==> b.cumul[k] == map[] && b.diff[k] == map[]
  {
    var b := DeptSeries(rows, dept).value;
    assert UnitDates(rows, DepartmentCode(dept)) == {};
    forall k | k in Metrics
      ensures b.cumul[k] == map[] && b.diff[k] == map[]
    {
      assert IsUnitMetric(rows, DepartmentCode(dept), k, b.cumul[k], b.diff[k]);
    }
  }

  /** Difference/reconstruction identity: each differential value plus the
      cumulative value on the previous date (0 if absent) gives back the
      cumulative value, and both series cover the department's dates. */
  lemma DeptDiffReconstructsCumul(rows: seq<Row>, dept: string)
    requires DeptSeries(rows, dept).Ok?
    ensures var b := DeptSeries(rows, dept).value;
      forall k, d :: k in b.cumul && d in b.cumul[k] ==>
        && d in b.diff[k]
        && PreviousDate(d).Ok?
        && b.diff[k][d] + At(b.cumul[k], PreviousDate(d).value) == b.cumul[k][d]
  {
    var b := DeptSeries(rows, dept).value;
    forall k, d | k in b.cumul && d in b.cumul[k]
      ensures d in b.diff[k] && DiffRule(b.cumul[k], d, b.diff[k][d])
    {
      assert IsUnitMetric(rows, DepartmentCode(dept), k, b.cumul[k], b.diff[k]);
    }
  }

  /** `_gen_ts_dept(spf_data)`: one bundle per department number occurring in
      the `maille_code` column. */
  function GenTsDept(rows: seq<Row>): (r: Result<map<string, Bundle>>)
    ensures r.Ok? <==> forall row :: row in rows ==>
      DepartmentNumber(row.mailleCode).Ok? && DeptSeries(rows, DepartmentNumber(row.mailleCode).value).Ok?
    ensures r.Err? ==> exists row :: row in rows && UnitError(rows, row.mailleCode, r.error)
    ensures r.Ok? ==>
      r.value.Keys == (set row | row in rows && DepartmentNumber(row.mailleCode).Ok? :: DepartmentNumber(row.mailleCode).value)
    ensures r.Ok? ==> forall n :: n in r.value ==> DeptSeries(rows, n) == Ok(r.value[n])
    ensures r.Ok? ==> HasEveryMetric(r.value)
  {
    var codes := Distinct(CodeColumn(rows));
    var r := DeptUnits(rows, codes);
    GenTsDeptCovers(rows, codes, r);
    DeptSeriesHaveEveryMetric(rows, r);
    r
  }

  /** The loop of `_gen_ts_dept` over `codes`: each code's department number,
      keyed to that number's series. */
  function DeptUnits(rows: seq<Row>, codes: seq<string>): (r: Result<map<string, Bundle>>)
    ensures r.Ok? <==> forall c :: c in codes ==> NumberBuilds(rows, c)
    ensures r.Err? ==> exists c :: c in codes && UnitError(rows, c, r.error)
    ensures r.Ok? ==> r.value.Keys == NumbersOf(codes)
    ensures r.Ok? ==> forall n :: n in r.value ==> DeptSeries(rows, n) == Ok(r.value[n])
  {
    ForEachUnit(codes, DepartmentNumber, n => DeptSeries(rows, n))
  }

  /** Code `c` splits at '-' and its department's series build. */
  predicate NumberBuilds(rows: seq<Row>, c: string)
  {
    DepartmentNumber(c).Ok? && DeptSeries(rows, DepartmentNumber(c).value).Ok?
  }

  /** The department numbers read from the codes that split. */
  function NumbersOf(codes: seq<string>): set<string>
  {
    set c | c in codes && DepartmentNumber(c).Ok? :: DepartmentNumber(c).value
  }

  lemma DeptSeriesHaveEveryMetric(rows: seq<Row>, r: Result<map<string, Bundle>>)
    requires r.Ok? ==> forall n :: n in r.value ==> DeptSeries(rows, n) == Ok(r.value[n])
    ensures r.Ok? ==> HasEveryMetric(r.value)
  {
    if r.Ok? {
      forall n | n in r.value
        ensures r.value[n].cumul.Keys == r.value[n].diff.Keys == (set k | k in Metrics)
      {
        assert IsUnitBundle(rows, DepartmentCode(n), r.value[n]);
      }
    }
  }

  /** The error `_gen_ts_dept` raises at code `c`: IndexError from the split,
      or the error of `get_data_dept` for the department number. */
  predicate UnitError(rows: seq<Row>, c: string, e: Error)
  {
    DepartmentNumber(c) == Err(e) || (DepartmentNumber(c).Ok? && DeptSeries(rows, DepartmentNumber(c).value) == Err(e))
  }

  lemma GenTsDeptCovers(rows: seq<Row>, codes: seq<string>, r: Result<map<string, Bundle>>)
    requires forall c :: c in codes <==> exists row :: row in rows && row.mailleCode == c
    requires r.Ok? <==> forall c :: c in codes ==> NumberBuilds(rows, c)
    requires r.Err? ==> exists c :: c in codes && UnitError(rows, c, r.error)
    requires r.Ok? ==> r.value.Keys == NumbersOf(codes)
    ensures r.Ok? <==> forall row :: row in rows ==>
      DepartmentNumber(row.mailleCode).Ok? && DeptSeries(rows, DepartmentNumber(row.mailleCode).value).Ok?
    ensures r.Err? ==> exists row :: row in rows && UnitError(rows, row.mailleCode, r.error)
    ensures r.Ok? ==>
      r.value.Keys == (set row | row in rows && DepartmentNumber(row.mailleCode).Ok? :: DepartmentNumber(row.mailleCode).value)
  {
    assert forall row :: row in rows ==> row.mailleCode in codes;
    if r.Ok? {
      forall n | n in r.value
        ensures exists row :: row in rows && DepartmentNumber(row.mailleCode) == Ok(n)
      {
        var c :| c in codes && DepartmentNumber(c).Ok? && DepartmentNumber(c).value == n;
        var row :| row in rows && row.mailleCode == c;
      }
    } else {
      var c :| c in codes && UnitError(rows, c, r.error);
      var row :| row in rows && row.mailleCode == c;
    }
  }

  /** A bundle's cumulative (or differential) series of `key`, empty when absent. */
  function Part(b: Bundle, cumulative: bool, key: string): Series
  {
    var half := if cumulative then b.cumul else b.diff;
    if key in half then half[key] else map[]
  }

  /** The series the region sums for `key`: one per listed department, in list
      order, a department listed twice contributing twice. */
  function Constituents(units: map<string, Bundle>, depts: seq<string>, key: string, cumulative: bool): (ss: seq<Series>)
    ensures |ss| == |depts|
    ensures forall i :: 0 <= i < |depts| ==> ss[i] == if depts[i] in units then Part(units[depts[i]], cumulative, key) else map[]
  {
    seq(|depts|, i requires 0 <= i < |depts| => if depts[i] in units then Part(units[depts[i]], cumulative, key) else map[])
  }

  /** The departments' two series of `key`, in list order, raising KeyError on
      the first department (or key) missing. */
  function Collect(units: map<string, Bundle>, depts: seq<string>, key: string): (r: Result<(seq<Series>, seq<Series>)>)
    ensures r.Ok? <==> forall dept :: dept in depts ==> dept in units && key in units[dept].cumul && key in units[dept].diff
    ensures r.Err? ==>
      exists dept :: dept in depts && (
                       || (r.error == KeyError(dept) && dept !in units)
                       || (r.error == KeyError(key) && dept in units && (key !in units[dept].cumul || key !in units[dept].diff)))
    ensures r.Ok? ==> r.value.0 == Constituents(units, depts, key, true) && r.value.1 == Constituents(units, depts, key, false)
  {
    if |depts| == 0 then Ok(([], []))
    else
      var dept := depts[0];
      if dept !in units then Err(KeyError(dept))
      else if key !in units[dept].cumul || key !in units[dept].diff then Err(KeyError(key))
      else
        match Collect(units, depts[1..], key)
        case Err(e) => Err(e)
        case Ok(lists) =>
          assert forall d :: d in depts <==> d == dept || d in depts[1..];
          ConstituentsCons(units, depts, key, true);
          ConstituentsCons(units, depts, key, false);
          Ok(([units[dept].cumul[key]] + lists.0, [units[dept].diff[key]] + lists.1))
  }

  lemma ConstituentsCons(units: map<string, Bundle>, depts: seq<string>, key: string, cumulative: bool)
    requires |depts| > 0 && depts[0] in units
    ensures Constituents(units, depts, key, cumulative)
      == [Part(units[depts[0]], cumulative, key)] + Constituents(units, depts[1..], key, cumulative)
  {
  }

  /** The lookups `gen_region_ts` performs for one region, key by key and
      department by department: the first KeyError, or the ValueError of
      `pd.concat` on an empty department list; None when every lookup succeeds. */
  function RegionLookupError(units: map<string, Bundle>, depts: seq<string>, keys: seq<string>): (e: Option<Error>)
    ensures e.None? <==> |keys| == 0 || (|depts| > 0 && forall dept, k :: dept in depts && k in keys ==>
      dept in units && k in units[dept].cumul && k in units[dept].diff)
    ensures e.Some? && |depts| == 0 ==> e.value == ValueError("No objects to concatenate")
    ensures e.Some? && |depts| > 0 ==>
      exists dept, k :: dept in depts && k in keys && (
                          || (e.value == KeyError(dept) && dept !in units)
                          || (e.value == KeyError(k) && dept in units && (k !in units[dept].cumul || k !in units[dept].diff)))
  {
    if |keys| == 0 then None
    else
      match Collect(units, depts, keys[0])
      case Err(e) =>
        assert keys[0] in keys;
        Some(e)
      case Ok(lists) =>
        if |depts| == 0 then Some(ValueError("No objects to concatenate"))
        else
          assert forall k :: k in keys <==> k == keys[0] || k in keys[1..];
          RegionLookupError(units, depts, keys[1..])
  }

  /** The region's bundle: for each requested key, the sums of its departments'
      cumulative and differential series. */
  function RegionBundle(units: map<string, Bundle>, depts: seq<string>, keys: seq<string>): (r: Result<Bundle>)
    ensures r.Ok? <==> RegionLookupError(units, depts, keys).None?
    ensures r.Err? ==> r.error == RegionLookupError(units, depts, keys).value
    ensures r.Ok? ==> r.value.cumul.Keys == r.value.diff.Keys == (set k | k in keys)
    ensures r.Ok? ==> forall k :: k in keys ==>
      && r.value.cumul[k] == SumSeries(Constituents(units, depts, k, true))
      && r.value.diff[k] == SumSeries(Constituents(units, depts, k, false))
  {
    match RegionLookupError(units, depts, keys)
    case Some(e) => Err(e)
    case None => Ok(Bundle(RegionSums(units, depts, keys, true), RegionSums(units, depts, keys, false)))
  }

  function RegionSums(units: map<string, Bundle>, depts: seq<string>, keys: seq<string>, cumulative: bool): (r: map<string, Series>)
    ensures r.Keys == (set k | k in keys)
    ensures forall k :: k in keys ==> r[k] == SumSeries(Constituents(units, depts, k, cumulative))
  {
    map k | k in keys :: SumSeries(Constituents(units, depts, k, cumulative))
  }

  lemma RegionsDistinct()
    ensures NamesDistinct(Regions)
  {
  }

  lemma RegionsNonEmpty()
    ensures |Regions| > 0 && |Regions[0].1| > 0
    ensures forall region :: region in Regions ==> |region.1| > 0
  {
  }

  /** The loop of `gen_region_ts` over a region table. */
  function RegionRollUp(units: map<string, Bundle>, table: seq<(string, seq<string>)>, keys: seq<string>): (r: Result<map<string, Bundle>>)
    requires NamesDistinct(table)
  {
    ForEachRegion(table, depts => RegionBundle(units, depts, keys), |keys| > 0)
  }

  /** What `gen_region_ts` does with the department bundles `_gen_ts_dept`
      returned: the roll-up over the `regions` table. */
  function RegionsFrom(units: map<string, Bundle>, keys: seq<string>): Result<map<string, Bundle>>
  {
    RegionsDistinct();
    RegionRollUp(units, Regions, keys)
  }

  /** `gen_region_ts(spf_data, keys)`: the errors of `_gen_ts_dept` propagate;
      otherwise every region of the table gets, unless no key is requested,
      the sums over its department list. */
  function GenRegionTs(rows: seq<Row>, keys: Option<seq<string>>): (r: Result<map<string, Bundle>>)
    ensures GenTsDept(rows).Err? ==> r == Err(GenTsDept(rows).error)
    ensures r.Ok? ==> GenTsDept(rows).Ok?
    ensures r.Ok? ==> r.value.Keys == if |KeysOrDefault(keys)| > 0 then Names(Regions) else {}
    ensures r.Ok? && |KeysOrDefault(keys)| > 0 ==> forall i :: 0 <= i < |Regions| ==>
      RegionBundle(GenTsDept(rows).value, Regions[i].1, KeysOrDefault(keys)) == Ok(r.value[Regions[i].0])
  {
    var units :- GenTsDept(rows);
    RegionsFrom(units, KeysOrDefault(keys))
  }

  lemma GenRegionTsUnfold(rows: seq<Row>, keys: Option<seq<string>>)
    ensures NamesDistinct(Regions)
    ensures GenTsDept(rows).Err? ==> GenRegionTs(rows, keys) == Err(GenTsDept(rows).error)
    ensures GenTsDept(rows).Ok? ==> GenRegionTs(rows, keys) == RegionRollUp(GenTsDept(rows).value, Regions, KeysOrDefault(keys))
  {
    RegionsDistinct();
  }

  /** `get_data_france(spf_data, keys)`: every row, whatever its granularity,
      counts towards the national total of its date. For distinct keys naming
      metric columns, it raises only for an unparsable date, and only when a
      key is requested; a repeated key or a key naming a text column is
      outside the model. */
  function FranceSeries(rows: seq<Row>, keys: Option<seq<string>>): (r: Result<Bundle>)
    ensures r.Ok? <==> |KeysOrDefault(keys)| == 0 || forall row :: row in rows ==> PreviousDate(row.date).Ok?
    ensures r.Err? ==> exists row :: row in rows && PreviousDate(row.date) == Err(r.error)
    ensures r.Ok? ==> IsTotalsBundle(rows, KeysOrDefault(keys), r.value)
  {
    DailyTotalsSeries(rows, KeysOrDefault(keys))
  }

  /** Region roll-up over any table: for each region and each requested key,
      the region's series are indexed by the union of its departments' dates
      and hold, on every date, the sum over the department list (with
      multiplicity) of each department's value, a missing date counting as 0. */
  lemma RollUpIsSumOfDepartments(units: map<string, Bundle>, table: seq<(string, seq<string>)>, keys: seq<string>,
                                 out: map<string, Bundle>, i: int, name: string, depts: seq<string>, k: string)
    requires NamesDistinct(table)
    requires RegionRollUp(units, table, keys) == Ok(out)
    requires 0 <= i < |table| && table[i] == (name, depts) && k in keys
    ensures name in out && k in out[name].cumul && k in out[name].diff
    ensures forall dept :: dept in depts ==> dept in units
    ensures out[name].cumul[k].Keys == DateIndex(Constituents(units, depts, k, true))
    ensures out[name].diff[k].Keys == DateIndex(Constituents(units, depts, k, false))
    ensures forall d :: At(out[name].cumul[k], d) == SumInts(Column(Constituents(units, depts, k, true), d))
    ensures forall d :: At(out[name].diff[k], d) == SumInts(Column(Constituents(units, depts, k, false), d))
  {
    var build := ds => RegionBundle(units, ds, keys);
    assert build(table[i].1).Ok?;
    assert out[name] == RegionBundle(units, depts, keys).value;
    assert RegionLookupError(units, depts, keys).None?;
    forall dept | dept in depts
      ensures dept in units
    {
      assert dept in units && k in units[dept].cumul;
    }
  }

  /** Whether every lookup the roll-up performs succeeds. */
  predicate LookupsSucceed(units: map<string, Bundle>, table: seq<(string, seq<string>)>, keys: seq<string>)
  {
    forall region, dept, k :: region in table && dept in region.1 && k in keys ==>
      dept in units && k in units[dept].cumul && k in units[dept].diff
  }

  /** Whether `e` is the KeyError of a lookup the roll-up performs. */
  predicate IsLookupError(units: map<string, Bundle>, table: seq<(string, seq<string>)>, keys: seq<string>, e: Error)
  {
    exists region, dept, k :: region in table && dept in region.1 && k in keys && (
                                || (e == KeyError(dept) && dept !in units)
                                || (e == KeyError(k) && dept in units && (k !in units[dept].cumul || k !in units[dept].diff)))
  }

  /** The roll-up over a table of non-empty department lists succeeds exactly
      when, unless no key is requested, every listed department is a unit and
      every requested key is in each of them; otherwise it raises KeyError
      naming a missing department or a missing key. */
  lemma RollUpSucceeds(units: map<string, Bundle>, table: seq<(string, seq<string>)>, keys: seq<string>)
    requires NamesDistinct(table)
    requires forall region :: region in table ==> |region.1| > 0
    ensures RegionRollUp(units, table, keys).Ok? <==> |keys| == 0 || LookupsSucceed(units, table, keys)
    ensures RegionRollUp(units, table, keys).Err? ==> IsLookupError(units, table, keys, RegionRollUp(units, table, keys).error)
  {
    var r := RegionRollUp(units, table, keys);
    RollUpBuilds(units, table, keys);
    if r.Ok? {
      RegionsFindEverything(units, table, keys);
    } else {
      var region :| region in table && RegionLookupError(units, region.1, keys) == Some(r.error);
      if |keys| > 0 && LookupsSucceed(units, table, keys) {
        RegionLookupsSucceed(units, table, keys, region);
      }
      RegionErrorIsLookupError(units, table, keys, region, r.error);
    }
  }

  lemma RegionsFindEverything(units: map<string, Bundle>, table: seq<(string, seq<string>)>, keys: seq<string>)
    requires forall region :: region in table ==> |region.1| > 0
    requires forall region :: region in table ==> RegionLookupError(units, region.1, keys).None?
    ensures |keys| == 0 || LookupsSucceed(units, table, keys)
  {
    forall region, dept, k | region in table && dept in region.1 && k in keys
      ensures dept in units && k in units[dept].cumul && k in units[dept].diff
    {
      assert RegionLookupError(units, region.1, keys).None?;
    }
  }

  lemma RegionLookupsSucceed(units: map<string, Bundle>, table: seq<(string, seq<string>)>, keys: seq<string>,
                             region: (string, seq<string>))
    requires LookupsSucceed(units, table, keys) && |keys| > 0
    requires region in table && |region.1| > 0
    ensures RegionLookupError(units, region.1, keys).None?
  {
  }

  /** The roll-up in terms of the lookups of each region. */
  lemma RollUpBuilds(units: map<string, Bundle>, table: seq<(string, seq<string>)>, keys: seq<string>)
    requires NamesDistinct(table)
    ensures RegionRollUp(units, table, keys).Ok? <==>
      forall region :: region in table ==> RegionLookupError(units, region.1, keys).None?
    ensures RegionRollUp(units, table, keys).Err? ==>
      exists region :: region in table && RegionLookupError(units, region.1, keys) == Some(RegionRollUp(units, table, keys).error)
  {
    var build := depts => RegionBundle(units, depts, keys);
    assert RegionRollUp(units, table, keys) == ForEachRegion(table, build, |keys| > 0);
    if RegionRollUp(units, table, keys).Err? {
      var i :| 0 <= i < |table| && build(table[i].1) == Err(RegionRollUp(units, table, keys).error);
      assert table[i] in table;
    }
  }

  lemma RegionErrorIsLookupError(units: map<string, Bundle>, table: seq<(string, seq<string>)>, keys: seq<string>,
                                 region: (string, seq<string>), e: Error)
    requires region in table && |region.1| > 0
    requires RegionLookupError(units, region.1, keys) == Some(e)
    ensures IsLookupError(units, table, keys, e)
  {
    var dept, k :| dept in region.1 && k in keys && (
                     || (e == KeyError(dept) && dept !in units)
                     || (e == KeyError(k) && dept in units && (k !in units[dept].cumul || k !in units[dept].diff)));
  }

  /** The series of a concatenated list are those of each part, in order. */
  lemma ConstituentsAppend(units: map<string, Bundle>, a: seq<string>, b: seq<string>, key: string, cumulative: bool)
    ensures Constituents(units, a + b, key, cumulative)
      == Constituents(units, a, key, cumulative) + Constituents(units, b, key, cumulative)
  {
  }

  /** A department list of the form p + [x, x] + q sums to the list without the
      repetition plus x's series once more. */
  lemma RepeatedDepartmentCountsTwice(units: map<string, Bundle>, p: seq<string>, x: string, q: seq<string>, k: string, cumulative: bool)
    requires x in units
    ensures forall d ::
      At(SumSeries(Constituents(units, p + [x, x] + q, k, cumulative)), d)
      == At(SumSeries(Constituents(units, p + [x] + q, k, cumulative)), d) + At(Part(units[x], cumulative, k), d)
  {
    var s := Part(units[x], cumulative, k);
    var cp, cq := Constituents(units, p, k, cumulative), Constituents(units, q, k, cumulative);
    ConstituentsAppend(units, p + [x, x], q, k, cumulative);
    ConstituentsAppend(units, p, [x, x], k, cumulative);
    ConstituentsAppend(units, p + [x], q, k, cumulative);
    ConstituentsAppend(units, p, [x], k, cumulative);
    assert Constituents(units, p + [x, x] + q, k, cumulative) == cp + [s, s] + cq;
    assert Constituents(units, p + [x] + q, k, cumulative) == cp + [s] + cq;
    SumSeriesRepeated(cp, s, cq);
  }

  /** A region listing x twice (p + [x, x] + q) gets the sums of the list
      without the repetition plus x's series once more. */
  lemma BundleCountsRepeatTwice(units: map<string, Bundle>, keys: seq<string>, b: Bundle,
                                p: seq<string>, x: string, q: seq<string>, twice: seq<string>, once: seq<string>,
                                k: string, cumulative: bool, d: string)
    requires twice == p + [x, x] + q && once == p + [x] + q
    requires RegionBundle(units, twice, keys) == Ok(b) && k in keys
    ensures x in units
    ensures At(Part(b, cumulative, k), d)
      == At(SumSeries(Constituents(units, once, k, cumulative)), d) + At(Part(units[x], cumulative, k), d)
  {
    assert RegionLookupError(units, p + [x, x] + q, keys).None?;
    assert x in p + [x, x] + q;
    assert x in units;
    RepeatedDepartmentCountsTwice(units, p, x, q, k, cumulative);
  }

  /** 'ara' is the first entry, and AraOnce is its list with one '69' dropped. */
  lemma AraEntry() returns (p: seq<string>, q: seq<string>)
    ensures Regions[0].0 == "ara" && Regions[0].1 == p + ["69", "69"] + q
    ensures AraOnce == p + ["69"] + q
  {
    p, q := ["01", "03", "07", "15", "26", "38", "42", "43", "63"], ["73", "74"];
    assert Regions[0].1 == p + ["69", "69"] + q;
  }

  /** The roll-up keeps each region's bundle under the region's name. */
  lemma RegionsFromEntry(units: map<string, Bundle>, keys: seq<string>, out: map<string, Bundle>, i: int)
    requires RegionsFrom(units, keys) == Ok(out)
    requires 0 <= i < |Regions| && |keys| > 0
    ensures Regions[i].0 in out && RegionBundle(units, Regions[i].1, keys) == Ok(out[Regions[i].0])
  {
    RegionsDistinct();
    var build := ds => RegionBundle(units, ds, keys);
    assert build(Regions[i].1).Ok?;
  }

  /** 'ara' lists '69' twice, so its roll-up is the roll-up of the list
      without the repetition plus the '69' series once more. */
  lemma AraCountsRhoneTwice(units: map<string, Bundle>, keys: seq<string>, out: map<string, Bundle>,
                            k: string, cumulative: bool, d: string)
    requires RegionsFrom(units, keys) == Ok(out)
    requires k in keys
    ensures "69" in units && "ara" in out
    ensures At(Part(out["ara"], cumulative, k), d)
      == At(SumSeries(Constituents(units, AraOnce, k, cumulative)), d) + At(Part(units["69"], cumulative, k), d)
  {
    RegionsFromEntry(units, keys, out, 0);
    AraListCountsRhoneTwice(units, keys, out["ara"], k, cumulative, d);
  }

  /** A bundle rolled up from the 'ara' list counts '69' twice. */
  lemma AraListCountsRhoneTwice(units: map<string, Bundle>, keys: seq<string>, b: Bundle,
                                k: string, cumulative: bool, d: string)
    requires RegionBundle(units, Regions[0].1, keys) == Ok(b) && k in keys
    ensures "69" in units
    ensures At(Part(b, cumulative, k), d)
      == At(SumSeries(Constituents(units, AraOnce, k, cumulative)), d) + At(Part(units["69"], cumulative, k), d)
  {
    var p, q := AraEntry();
    BundleCountsRepeatTwice(units, keys, b, p, "69", q, Regions[0].1, AraOnce, k, cumulative, d);
  }

  /** Over units carrying the seven metrics and a table with a department,
      every lookup succeeds exactly when every listed department is a unit and
      every key is a metric. */
  lemma LookupsSucceedOverMetrics(units: map<string, Bundle>, table: seq<(string, seq<string>)>, keys: seq<string>)
    requires HasEveryMetric(units)
    requires |table| > 0 && |table[0].1| > 0
    ensures LookupsSucceed(units, table, keys) <==>
      || |keys| == 0
      || (&& (forall region, dept :: region in table && dept in region.1 ==> dept in units)
          && (forall k :: k in keys ==> k in Metrics))
  {
    if |keys| > 0 && LookupsSucceed(units, table, keys) {
      forall region, dept | region in table && dept in region.1
        ensures dept in units
      {
        assert keys[0] in keys;
      }
      var dept := table[0].1[0];
      assert table[0] in table && dept in table[0].1;
      forall k | k in keys
        ensures k in Metrics
      {
        assert k in units[dept].cumul;
      }
    }
  }

  /** Over units carrying the seven metrics and metric keys, a lookup error
      names a department that is not a unit. */
  lemma LookupErrorNamesMissingDepartment(units: map<string, Bundle>, table: seq<(string, seq<string>)>, keys: seq<string>, e: Error)
    requires HasEveryMetric(units)
    requires forall k :: k in keys ==> k in Metrics
    requires IsLookupError(units, table, keys, e)
    ensures exists missing :: e == KeyError(missing) && missing !in units
  {
    var region, dept, k :| region in table && dept in region.1 && k in keys && (
                             || (e == KeyError(dept) && dept !in units)
                             || (e == KeyError(k) && dept in units && (k !in units[dept].cumul || k !in units[dept].diff)));
  }

  /** `gen_region_ts` succeeds exactly when `_gen_ts_dept` does and, unless no
      key is requested, every listed department number is a key of
      `_gen_ts_dept`'s result (the part after '-' of some `maille_code`, of
      any granularity) and every requested key is one of the seven metrics. */
  lemma GenRegionTsSucceeds(rows: seq<Row>, keys: Option<seq<string>>)
    ensures GenRegionTs(rows, keys).Ok? <==>
      && GenTsDept(rows).Ok?
      && (|KeysOrDefault(keys)| == 0 || (
            && (forall region, dept :: region in Regions && dept in region.1 ==> dept in GenTsDept(rows).value)
            && (forall k :: k in KeysOrDefault(keys) ==> k in Metrics)))
  {
    GenRegionTsUnfold(rows, keys);
    if GenTsDept(rows).Ok? {
      var units := GenTsDept(rows).value;
      var ks := KeysOrDefault(keys);
      RegionsNonEmpty();
      RollUpSucceeds(units, Regions, ks);
      LookupsSucceedOverMetrics(units, Regions, ks);
    }
  }

  /** With only metric keys requested and `_gen_ts_dept` succeeding, a listed
      department number that is not a key of `_gen_ts_dept`'s result makes
      `gen_region_ts` raise KeyError naming a number that is not a key. */
  lemma MissingDepartmentRaisesKeyError(rows: seq<Row>, keys: Option<seq<string>>, region: (string, seq<string>), dept: string)
    requires GenTsDept(rows).Ok?
    requires |KeysOrDefault(keys)| > 0 && forall k :: k in KeysOrDefault(keys) ==> k in Metrics
    requires region in Regions && dept in region.1 && dept !in GenTsDept(rows).value
    ensures GenRegionTs(rows, keys).Err?
    ensures exists missing :: GenRegionTs(rows, keys).error == KeyError(missing) && missing !in GenTsDept(rows).value
  {
    var units := GenTsDept(rows).value;
    var ks := KeysOrDefault(keys);
    GenRegionTsUnfold(rows, keys);
    RegionsNonEmpty();
    RollUpSucceeds(units, Regions, ks);
    LookupsSucceedOverMetrics(units, Regions, ks);
    LookupErrorNamesMissingDepartment(units, Regions, ks, GenRegionTs(rows, keys).error);
  }

  /** Any `maille_code` of the form prefix-number, whatever its granularity,
      makes the number a key of `_gen_ts_dept`'s result. */
  lemma EveryCodeNamesAUnit(rows: seq<Row>, row: Row, prefix: string, n: string)
    requires GenTsDept(rows).Ok?
    requires row in rows && row.mailleCode == prefix + "-" + n
    requires '-' !in prefix && '-' !in n
    ensures n in GenTsDept(rows).value
  {
    assert prefix + "-" + n == prefix + ['-'] + n;
    SplitCons(prefix, n, '-');
    SplitWithout(n, '-');
    assert DepartmentNumber(row.mailleCode) == Ok(n);
  }

  /** A table holding only a region-level row "REG-11" has no row of
      department "11", yet `_gen_ts_dept` keeps "11" as a unit, with empty
      series, so the region listing '11' raises no KeyError. */
  lemma RegionRowStandsForDepartment()
    ensures var rows := [Row("REG-11", "2020-03-02", "region", map[])];
      && GenTsDept(rows).Ok?
      && "11" in GenTsDept(rows).value
      && forall k :: k in Metrics ==> GenTsDept(rows).value["11"].cumul[k] == map[]
  {
    RegionCodeSplit();
    assert DepartmentCode("11") == "DEP-11";
    LoneRowNamesEmptyUnit(Row("REG-11", "2020-03-02", "region", map[]), "REG", "11");
  }

  /** A one-row table whose code reads as number `n` but is not `n`'s padded
      department code yields the unit `n` with empty series. */
  lemma LoneRowNamesEmptyUnit(row: Row, prefix: string, n: string)
    requires row.mailleCode == prefix + "-" + n && '-' !in prefix && '-' !in n
    requires DepartmentCode(n) != row.mailleCode
    ensures GenTsDept([row]).Ok? && n in GenTsDept([row]).value
    ensures forall k :: k in Metrics ==> GenTsDept([row]).value[n].cumul[k] == map[]
  {
    var rows := [row];
    assert forall r :: r in rows ==> r == row;
    assert prefix + "-" + n == prefix + ['-'] + n;
    SplitCons(prefix, n, '-');
    SplitWithout(n, '-');
    assert DepartmentNumber(row.mailleCode) == Ok(n);
    DeptWithoutRowsIsEmpty(rows, n);
    SingleRowSucceeds(rows, row);
  }

  lemma SingleRowSucceeds(rows: seq<Row>, row: Row)
    requires forall r :: r in rows ==> r == row
    requires DepartmentNumber(row.mailleCode).Ok? && DeptSeries(rows, DepartmentNumber(row.mailleCode).value).Ok?
    ensures GenTsDept(rows).Ok?
  {
  }

  lemma RegionCodeSplit()
    ensures DepartmentNumber("REG-11") == Ok("11")
    ensures "REG-11" == "REG" + "-" + "11"
  {
    assert "REG-11" == "REG" + ['-'] + "11";
    SplitCons("REG", "11", '-');
    SplitWithout("11", '-');
  }
}
