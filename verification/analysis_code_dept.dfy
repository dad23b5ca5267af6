/** `notebooks/analysis_code_dept.py`: units are addressed by their full
    `maille_code` ("DEP-75", "REG-84"); a region's series are those of its own
    region-level rows; the national series sum the rows of granularity "pays". */
module AnalysisCodeDept {
  import opened Results
  import opened Dates
  import opened Frames
  import opened Series
  import opened RollUp
  import opened Totals
  import AnalysisCode

  /** The `regions` table: region name to its `maille_code`, in the source's
      order. */
  const RegionCodes: seq<(string, string)> := [
    ("Auvergne-Rhone-Alpes", "REG-84"),
    ("Bourgogne-Franche-Comte", "REG-27"),
    ("Bretagne", "REG-53"),
    ("Centre-Val de Loire", "REG-24"),
    ("Corse", "REG-94"),
    ("Grand Est", "REG-44"),
    ("Hauts-de-France", "REG-32"),
    ("Normandie", "REG-28"),
    ("Nouvelle-Aquitaine", "REG-75"),
    ("Occitanie", "REG-76"),
    ("Pays de la Loire", "REG-52"),
    ("Provence-Alpes-Cote d'Azur", "REG-93"),
    ("Ile-de-France", "REG-11"),
    ("Guadeloupe", "REG-01"),
    ("Guyane", "REG-03"),
    ("La Reunion", "REG-04"),
    ("Martinique", "REG-02"),
    ("Mayotte", "REG-06")
  ]

  lemma RegionCodesDistinct()
    ensures NamesDistinct(RegionCodes)
  {
  }

  /** `_gen_ts_dept(spf_data)`: one bundle per `maille_code` occurring in the
      table, whatever its granularity; it raises exactly when some row's date
      cannot be parsed. */
  function GenTsDept(rows: seq<Row>): (r: Result<map<string, Bundle>>)
    ensures r.Ok? <==> forall row :: row in rows ==> PreviousDate(row.date).Ok?
    ensures r.Err? ==> exists row :: row in rows && PreviousDate(row.date) == Err(r.error)
    ensures r.Ok? ==> r.value.Keys == (set row | row in rows :: row.mailleCode)
    ensures r.Ok? ==> forall c :: c in r.value ==> UnitSeries(rows, c) == Ok(r.value[c])
    ensures r.Ok? ==> HasEveryMetric(r.value)
  {
    var codes := Distinct(CodeColumn(rows));
    var r := Analyses(rows, codes);
    AnalysesCoverRows(rows, codes, r);
    r
  }

  /** The series of each code in `codes`, keyed by the code itself. */
  function Analyses(rows: seq<Row>, codes: seq<string>): (r: Result<map<string, Bundle>>)
    ensures r.Ok? <==> forall c :: c in codes ==> UnitSeries(rows, c).Ok?
    ensures r.Err? ==> exists c :: c in codes && UnitSeries(rows, c) == Err(r.error)
    ensures r.Ok? ==> r.value.Keys == (set c | c in codes)
    ensures r.Ok? ==> forall c :: c in r.value ==> UnitSeries(rows, c) == Ok(r.value[c])
  {
    ForEachUnit(codes, c => Ok(c), c => UnitSeries(rows, c))
  }

  lemma AnalysesCoverRows(rows: seq<Row>, codes: seq<string>, r: Result<map<string, Bundle>>)
    requires forall c :: c in codes <==> exists row :: row in rows && row.mailleCode == c
    requires r.Ok? <==> forall c :: c in codes ==> UnitSeries(rows, c).Ok?
    requires r.Err? ==> exists c :: c in codes && UnitSeries(rows, c) == Err(r.error)
    requires r.Ok? ==> r.value.Keys == (set c | c in codes)
    ensures r.Ok? <==> forall row :: row in rows ==> PreviousDate(row.date).Ok?
    ensures r.Err? ==> exists row :: row in rows && PreviousDate(row.date) == Err(r.error)
    ensures r.Ok? ==> r.value.Keys == (set row | row in rows :: row.mailleCode)
  {
    if r.Ok? {
      forall row | row in rows
        ensures PreviousDate(row.date).Ok?
      {
        assert row.mailleCode in codes;
      }
      forall c | c in r.value
        ensures c in (set row | row in rows :: row.mailleCode)
      {
        var row :| row in rows && row.mailleCode == c;
      }
    } else {
      var c :| c in codes && UnitSeries(rows, c) == Err(r.error);
    }
  }

  /** The first requested key missing from either half of a bundle. */
  function MissingKey(b: Bundle, keys: seq<string>): (m: Option<string>)
    ensures m.None? <==> forall k :: k in keys ==> k in b.cumul && k in b.diff
    ensures m.Some? ==> m.value in keys && (m.value !in b.cumul || m.value !in b.diff)
  {
    if |keys| == 0 then None
    else if keys[0] !in b.cumul || keys[0] !in b.diff then Some(keys[0])
    else
      assert forall k :: k in keys <==> k == keys[0] || k in keys[1..];
      MissingKey(b, keys[1..])
  }

  /** One region's bundle: for each requested key, a copy of the two series of
      the region's own code. The lookups raise KeyError naming the code when
      it has no rows, or the key when the code's bundle lacks it; with no key
      requested nothing is looked up. */
  function RegionCopy(units: map<string, Bundle>, code: string, keys: seq<string>): (r: Result<Bundle>)
    ensures r.Ok? <==> |keys| == 0 || (code in units && forall k :: k in keys ==> k in units[code].cumul && k in units[code].diff)
    ensures r.Err? ==>
      || (r.error == KeyError(code) && code !in units)
      || (exists k :: k in keys && r.error == KeyError(k) && code in units && (k !in units[code].cumul || k !in units[code].diff))
    ensures r.Ok? ==> r.value.cumul.Keys == r.value.diff.Keys == (set k | k in keys)
    ensures r.Ok? ==> forall k :: k in keys ==>
      r.value.cumul[k] == units[code].cumul[k] && r.value.diff[k] == units[code].diff[k]
  {
    if |keys| == 0 then Ok(Bundle(map[], map[]))
    else if code !in units then Err(KeyError(code))
    else
      match MissingKey(units[code], keys)
      case Some(k) => Err(KeyError(k))
      case None =>
        Ok(Bundle(map k | k in keys :: units[code].cumul[k], map k | k in keys :: units[code].diff[k]))
  }

  /** The loop of `gen_region_ts` over a region table. */
  function CopyRollUp(units: map<string, Bundle>, table: seq<(string, string)>, keys: seq<string>): Result<map<string, Bundle>>
    requires NamesDistinct(table)
  {
    ForEachRegion(table, code => RegionCopy(units, code, keys), |keys| > 0)
  }

  /** What `gen_region_ts` does with the bundles `_gen_ts_dept` returned: the
      copy over the `regions` table. */
  function RegionsFrom(units: map<string, Bundle>, keys: seq<string>): Result<map<string, Bundle>>
  {
    RegionCodesDistinct();
    CopyRollUp(units, RegionCodes, keys)
  }

  /** `gen_region_ts(spf_data, keys)`: the errors of `_gen_ts_dept` propagate;
      otherwise every region of the table gets, unless no key is requested,
      a copy of its own code's series. */
  function GenRegionTs(rows: seq<Row>, keys: Option<seq<string>>): (r: Result<map<string, Bundle>>)
    ensures GenTsDept(rows).Err? ==> r == Err(GenTsDept(rows).error)
    ensures r.Ok? ==> GenTsDept(rows).Ok?
    ensures r.Ok? ==> r.value.Keys == if |KeysOrDefault(keys)| > 0 then Names(RegionCodes) else {}
    ensures r.Ok? && |KeysOrDefault(keys)| > 0 ==> forall i :: 0 <= i < |RegionCodes| ==>
      RegionCopy(GenTsDept(rows).value, RegionCodes[i].1, KeysOrDefault(keys)) == Ok(r.value[RegionCodes[i].0])
  {
    var units :- GenTsDept(rows);
    RegionsFrom(units, KeysOrDefault(keys))
  }

  /** In any copy roll-up, the region's series of a requested key are those
      `get_data_dept` builds from the rows carrying the region's own code:
      one entry per date those rows report, each cumulative value read from one
      of them, each differential value following the previous-date rule. */
  lemma RegionIsItsOwnUnit(rows: seq<Row>, units: map<string, Bundle>, table: seq<(string, string)>, keys: seq<string>,
                           out: map<string, Bundle>, i: int, k: string)
    requires GenTsDept(rows) == Ok(units)
    requires NamesDistinct(table)
    requires CopyRollUp(units, table, keys) == Ok(out)
    requires 0 <= i < |table| && k in keys
    ensures table[i].1 in units
    ensures table[i].0 in out && k in out[table[i].0].cumul && k in out[table[i].0].diff
    ensures out[table[i].0].cumul[k] == units[table[i].1].cumul[k]
    ensures out[table[i].0].diff[k] == units[table[i].1].diff[k]
    ensures IsUnitMetric(rows, table[i].1, k, out[table[i].0].cumul[k], out[table[i].0].diff[k])
  {
    CopyEntry(units, table, keys, out, i, k);
    assert UnitSeries(rows, table[i].1) == Ok(units[table[i].1]);
  }

  /** The copy roll-up keeps, under each region's name, the requested series
      of the region's code. */
  lemma CopyEntry(units: map<string, Bundle>, table: seq<(string, string)>, keys: seq<string>,
                  out: map<string, Bundle>, i: int, k: string)
    requires NamesDistinct(table)
    requires CopyRollUp(units, table, keys) == Ok(out)
    requires 0 <= i < |table| && k in keys
    ensures table[i].1 in units
    ensures table[i].0 in out && k in out[table[i].0].cumul && k in out[table[i].0].diff
    ensures out[table[i].0].cumul[k] == units[table[i].1].cumul[k]
    ensures out[table[i].0].diff[k] == units[table[i].1].diff[k]
  {
    var build := code => RegionCopy(units, code, keys);
    assert build(table[i].1).Ok?;
    assert out[table[i].0] == RegionCopy(units, table[i].1, keys).value;
  }

  /** Whether every lookup the copy roll-up performs succeeds. */
  predicate CopiesSucceed(units: map<string, Bundle>, table: seq<(string, string)>, keys: seq<string>)
  {
    forall region, k :: region in table && k in keys ==>
      region.1 in units && k in units[region.1].cumul && k in units[region.1].diff
  }

  /** Whether `e` is the KeyError of a lookup the copy roll-up performs. */
  predicate IsCopyError(units: map<string, Bundle>, table: seq<(string, string)>, keys: seq<string>, e: Error)
  {
    exists region :: region in table && (
                       || (e == KeyError(region.1) && region.1 !in units)
                       || (exists k :: k in keys && e == KeyError(k) && region.1 in units
                                       && (k !in units[region.1].cumul || k !in units[region.1].diff)))
  }

  /** The copy roll-up succeeds exactly when, unless no key is requested,
      every region code is a unit holding every requested key; otherwise it
      raises KeyError naming a missing code or a missing key. */
  lemma CopyRollUpSucceeds(units: map<string, Bundle>, table: seq<(string, string)>, keys: seq<string>)
    requires NamesDistinct(table)
    ensures CopyRollUp(units, table, keys).Ok? <==> |keys| == 0 || CopiesSucceed(units, table, keys)
    ensures CopyRollUp(units, table, keys).Err? ==> IsCopyError(units, table, keys, CopyRollUp(units, table, keys).error)
  {
    var r := CopyRollUp(units, table, keys);
    CopyBuilds(units, table, keys);
    if r.Ok? {
      CopiesFindEverything(units, table, keys);
    } else {
      var region :| region in table && RegionCopy(units, region.1, keys) == Err(r.error);
      if |keys| > 0 && CopiesSucceed(units, table, keys) {
        RegionCopySucceeds(units, table, keys, region);
      }
    }
  }

  /** The copy roll-up in terms of each region's copy. */
  lemma CopyBuilds(units: map<string, Bundle>, table: seq<(string, string)>, keys: seq<string>)
    requires NamesDistinct(table)
    ensures CopyRollUp(units, table, keys).Ok? <==>
      forall region :: region in table ==> RegionCopy(units, region.1, keys).Ok?
    ensures CopyRollUp(units, table, keys).Err? ==>
      exists region :: region in table && RegionCopy(units, region.1, keys) == Err(CopyRollUp(units, table, keys).error)
  {
    var build := code => RegionCopy(units, code, keys);
    assert CopyRollUp(units, table, keys) == ForEachRegion(table, build, |keys| > 0);
    if CopyRollUp(units, table, keys).Err? {
      var i :| 0 <= i < |table| && build(table[i].1) == Err(CopyRollUp(units, table, keys).error);
      assert table[i] in table;
    }
  }

  lemma CopiesFindEverything(units: map<string, Bundle>, table: seq<(string, string)>, keys: seq<string>)
    requires forall region :: region in table ==> RegionCopy(units, region.1, keys).Ok?
    ensures |keys| == 0 || CopiesSucceed(units, table, keys)
  {
    forall region, k | region in table && k in keys
      ensures region.1 in units && k in units[region.1].cumul && k in units[region.1].diff
    {
      assert RegionCopy(units, region.1, keys).Ok?;
    }
  }

  lemma RegionCopySucceeds(units: map<string, Bundle>, table: seq<(string, string)>, keys: seq<string>, region: (string, string))
    requires CopiesSucceed(units, table, keys) && |keys| > 0
    requires region in table
    ensures RegionCopy(units, region.1, keys).Ok?
  {
    assert keys[0] in keys;
  }

  /** Over units carrying the seven metrics and a non-empty table, every copy
      succeeds exactly when every region code is a unit and every key is a
      metric. */
  lemma CopiesSucceedOverMetrics(units: map<string, Bundle>, table: seq<(string, string)>, keys: seq<string>)
    requires HasEveryMetric(units)
    requires |table| > 0
    ensures CopiesSucceed(units, table, keys) <==>
      || |keys| == 0
      || (&& (forall region :: region in table ==> region.1 in units)
          && (forall k :: k in keys ==> k in Metrics))
  {
    if |keys| > 0 && CopiesSucceed(units, table, keys) {
      forall region | region in table
        ensures region.1 in units
      {
        assert keys[0] in keys;
      }
      assert table[0] in table;
      forall k | k in keys
        ensures k in Metrics
      {
        assert k in units[table[0].1].cumul;
      }
    }
  }

  /** Over units carrying the seven metrics and metric keys, a copy error
      names a region code that has no rows. */
  lemma CopyErrorNamesMissingCode(units: map<string, Bundle>, table: seq<(string, string)>, keys: seq<string>, e: Error)
    requires HasEveryMetric(units)
    requires forall k :: k in keys ==> k in Metrics
    requires IsCopyError(units, table, keys, e)
    ensures exists region :: region in table && e == KeyError(region.1) && region.1 !in units
  {
  }

  lemma GenRegionTsUnfold(rows: seq<Row>, keys: Option<seq<string>>)
    ensures NamesDistinct(RegionCodes) && |RegionCodes| > 0
    ensures GenTsDept(rows).Err? ==> GenRegionTs(rows, keys) == Err(GenTsDept(rows).error)
    ensures GenTsDept(rows).Ok? ==> GenRegionTs(rows, keys) == CopyRollUp(GenTsDept(rows).value, RegionCodes, KeysOrDefault(keys))
  {
    RegionCodesDistinct();
  }

  /** `gen_region_ts` succeeds exactly when every row's date parses and, unless
      no key is requested, every region code occurs in the table and every
      requested key is one of the seven metrics. */
  lemma GenRegionTsSucceeds(rows: seq<Row>, keys: Option<seq<string>>)
    ensures GenRegionTs(rows, keys).Ok? <==>
      && (forall row :: row in rows ==> PreviousDate(row.date).Ok?)
      && (|KeysOrDefault(keys)| == 0 || (
            && (forall region :: region in RegionCodes ==> region.1 in (set row | row in rows :: row.mailleCode))
            && (forall k :: k in KeysOrDefault(keys) ==> k in Metrics)))
  {
    GenRegionTsUnfold(rows, keys);
    if GenTsDept(rows).Ok? {
      var units := GenTsDept(rows).value;
      var ks := KeysOrDefault(keys);
      CopyRollUpSucceeds(units, RegionCodes, ks);
      CopiesSucceedOverMetrics(units, RegionCodes, ks);
    }
  }

  /** With only metric keys requested and every date parsing, a region code
      absent from the table makes `gen_region_ts` raise KeyError naming a
      region code that is absent. */
  lemma MissingRegionRaisesKeyError(rows: seq<Row>, keys: Option<seq<string>>, region: (string, string))
    requires forall row :: row in rows ==> PreviousDate(row.date).Ok?
    requires |KeysOrDefault(keys)| > 0 && forall k :: k in KeysOrDefault(keys) ==> k in Metrics
    requires region in RegionCodes && region.1 !in (set row | row in rows :: row.mailleCode)
    ensures GenRegionTs(rows, keys).Err?
    ensures exists code :: GenRegionTs(rows, keys).error == KeyError(code) && code !in (set row | row in rows :: row.mailleCode)
  {
    GenRegionTsSucceeds(rows, keys);
    GenRegionTsUnfold(rows, keys);
    var units := GenTsDept(rows).value;
    var ks := KeysOrDefault(keys);
    CopyRollUpSucceeds(units, RegionCodes, ks);
    CopyErrorNamesMissingCode(units, RegionCodes, ks, GenRegionTs(rows, keys).error);
  }

  /** `spf_data[spf_data.granularite == "pays"]`. */
  function CountryRows(rows: seq<Row>): (r: seq<Row>)
    ensures forall row :: row in r <==> row in rows && row.granularite == "pays"
  {
    Filter(rows, (row: Row) => row.granularite == "pays")
  }

  /** `get_data_france(spf_data, keys)`: only country-level rows count, summed
      per date. For distinct keys naming metric columns, it raises only for an
      unparsable date of such a row; a repeated key or a key naming a text
      column is outside the model. */
  function FranceSeries(rows: seq<Row>, keys: Option<seq<string>>): (r: Result<Bundle>)
    ensures r.Ok? <==> |KeysOrDefault(keys)| == 0 || forall row :: row in rows && row.granularite == "pays" ==> PreviousDate(row.date).Ok?
    ensures r.Err? ==> exists row :: row in rows && row.granularite == "pays" && PreviousDate(row.date) == Err(r.error)
    ensures r.Ok? ==> IsTotalsBundle(CountryRows(rows), KeysOrDefault(keys), r.value)
  {
    DailyTotalsSeries(CountryRows(rows), KeysOrDefault(keys))
  }

  /** Rows of any other granularity leave the national series unchanged. */
  lemma FranceIgnoresOtherRows(rows: seq<Row>, other: seq<Row>, keys: Option<seq<string>>)
    requires forall row :: row in other ==> row.granularite != "pays"
    ensures FranceSeries(rows + other, keys) == FranceSeries(rows, keys)
  {
    CountryRowsIgnoreOthers(rows, other);
  }

  lemma CountryRowsIgnoreOthers(rows: seq<Row>, other: seq<Row>)
    requires forall row :: row in other ==> row.granularite != "pays"
    ensures CountryRows(rows + other) == CountryRows(rows)
  {
    var keep := (row: Row) => row.granularite == "pays";
    FilterAppend(rows, other, keep);
    var none := Filter(other, keep);
    if |none| > 0 {
      assert none[0] in none;
    }
    assert Filter(rows + other, keep) == Filter(rows, keep) + none;
  }

  /** On a table holding only country-level rows the filter selects every row,
      so the two versions of `get_data_france` agree. */
  lemma FranceAgreesOnCountryRows(rows: seq<Row>, keys: Option<seq<string>>)
    requires forall row :: row in rows ==> row.granularite == "pays"
    ensures FranceSeries(rows, keys) == AnalysisCode.FranceSeries(rows, keys)
  {
    FilterKeepsAll(rows, (row: Row) => row.granularite == "pays");
  }
}
