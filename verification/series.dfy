/** The series builder shared by `get_data_dept` and `get_data_france`: a
    cumulative series per metric holding the value reported on each date, and a
    differential series holding each value minus the value on the date
    `get_previous_date` names (0 when that date is absent); plus the
    date-aligned sum used by the region roll-up. */
module Series {
  import opened Results
  import opened Dates
  import opened Frames
  import opened Text

  /** A time series: date string to value. */
  type Series = map<string, int>

  /** `series.get(d, 0)`. */
  function At(s: Series, d: string): int
  {
    if d in s then s[d] else 0
  }

  /** The `{'cumul': ..., 'diff': ...}` dictionary, each half keyed by metric. */
  datatype Bundle = Bundle(cumul: map<string, Series>, diff: map<string, Series>)

  /** `i` is the position of the last observation dated `d`. */
  ghost predicate LastDated(obs: seq<Obs>, d: string, i: int)
  {
    0 <= i < |obs| && obs[i].date == d && forall j :: i < j < |obs| ==> obs[j].date != d
  }

  /** `c` holds one entry per observed date: the value of the last observation
      with that date (later rows overwrite earlier ones). */
  ghost predicate IsCumulOf(obs: seq<Obs>, key: string, c: Series)
  {
    c.Keys == DatesOf(obs) && LastValues(obs, key, c)
  }

  ghost predicate LastValues(obs: seq<Obs>, key: string, c: Series)
  {
    forall d :: d in c ==> exists i :: LastDated(obs, d, i) && c[d] == Cell(obs[i].metrics, key)
  }

  /** The differential rule: the previous date of `d` is computable and `v` is
      the value on `d` minus the value on the previous date, 0 when absent. */
  ghost predicate DiffRule(cumul: Series, d: string, v: int)
  {
    PreviousDate(d).Ok? && v == At(cumul, d) - At(cumul, PreviousDate(d).value)
  }

  ghost predicate IsDiffOf(obs: seq<Obs>, cumul: Series, df: Series)
  {
    df.Keys == DatesOf(obs) && forall d :: d in df ==> DiffRule(cumul, d, df[d])
  }

  /** Every observation's date is one `get_previous_date` accepts. */
  predicate DatesParse(obs: seq<Obs>)
  {
    forall i :: 0 <= i < |obs| ==> PreviousDate(obs[i].date).Ok?
  }

  /** The error of the first observation whose date `get_previous_date` rejects. */
  ghost predicate FirstDateError(obs: seq<Obs>, e: Error)
  {
    exists i :: 0 <= i < |obs| && PreviousDate(obs[i].date) == Err(e)
      && forall j :: 0 <= j < i ==> PreviousDate(obs[j].date).Ok?
  }

  /** The first loop: `cumul[key][date] = row.get(key, 0)` for each row in order. */
  function Cumul(obs: seq<Obs>, key: string): (r: Series)
    ensures IsCumulOf(obs, key, r)
  {
    if |obs| == 0 then map[]
    else
      var n := |obs| - 1;
      var prefix := Cumul(obs[..n], key);
      CumulStep(obs, key, prefix);
      prefix[obs[n].date := Cell(obs[n].metrics, key)]
  }

  lemma CumulStep(obs: seq<Obs>, key: string, prefix: Series)
    requires |obs| > 0
    requires IsCumulOf(obs[..|obs| - 1], key, prefix)
    ensures IsCumulOf(obs, key, prefix[obs[|obs| - 1].date := Cell(obs[|obs| - 1].metrics, key)])
  {
    var n := |obs| - 1;
    var last := obs[n];
    var r := prefix[last.date := Cell(last.metrics, key)];
    DatesOfSnoc(obs);
    LastDatedExtends(obs, key, prefix);
    assert LastDated(obs, last.date, n);
    forall d | d in r
      ensures exists i :: LastDated(obs, d, i) && r[d] == Cell(obs[i].metrics, key)
    {
      if d == last.date {
        assert LastDated(obs, d, n) && r[d] == Cell(obs[n].metrics, key);
      } else {
        assert d in prefix - {last.date};
      }
    }
  }

  lemma DatesOfSnoc(obs: seq<Obs>)
    requires |obs| > 0
    ensures DatesOf(obs) == DatesOf(obs[..|obs| - 1]) + {obs[|obs| - 1].date}
  {
    var n := |obs| - 1;
    assert obs == obs[..n] + [obs[n]];
    forall d | d in DatesOf(obs)
      ensures d in DatesOf(obs[..n]) + {obs[n].date}
    {
      var o :| o in obs && o.date == d;
      if o != obs[n] {
        assert o in obs[..n];
      }
    }
  }

  lemma LastDatedExtends(obs: seq<Obs>, key: string, prefix: Series)
    requires |obs| > 0
    requires LastValues(obs[..|obs| - 1], key, prefix)
    ensures LastValues(obs, key, prefix - {obs[|obs| - 1].date})
  {
    var n := |obs| - 1;
    var rest := prefix - {obs[n].date};
    forall d | d in rest
      ensures exists i :: LastDated(obs, d, i) && rest[d] == Cell(obs[i].metrics, key)
    {
      var i :| LastDated(obs[..n], d, i) && prefix[d] == Cell(obs[..n][i].metrics, key);
      assert obs[..n][i] == obs[i];
      assert LastDated(obs, d, i);
    }
  }

  /** The second loop: `diff[key][date] = cumul[key][date] -
      cumul[key].get(get_previous_date(date), 0)` for each row in order; the
      first date `get_previous_date` rejects raises. */
  function Diff(obs: seq<Obs>, cumul: Series): (r: Result<Series>)
    ensures r.Ok? <==> DatesParse(obs)
    ensures r.Err? ==> FirstDateError(obs, r.error)
    ensures r.Ok? ==> IsDiffOf(obs, cumul, r.value)
  {
    if |obs| == 0 then Ok(map[])
    else
      match PreviousDate(obs[0].date)
      case Err(e) => Err(e)
      case Ok(prev) =>
        match Diff(obs[1..], cumul)
        case Err(e) =>
          FirstDateErrorShifts(obs, e);
          Err(e)
        case Ok(rest) =>
          DiffStep(obs, cumul, prev, rest);
          Ok(rest[obs[0].date := At(cumul, obs[0].date) - At(cumul, prev)])
  }

  lemma FirstDateErrorShifts(obs: seq<Obs>, e: Error)
    requires |obs| > 0 && PreviousDate(obs[0].date).Ok?
    requires FirstDateError(obs[1..], e)
    ensures FirstDateError(obs, e)
  {
    var i :| 0 <= i < |obs[1..]| && PreviousDate(obs[1..][i].date) == Err(e)
      && forall j :: 0 <= j < i ==> PreviousDate(obs[1..][j].date).Ok?;
    assert PreviousDate(obs[i + 1].date) == Err(e);
    forall j | 0 <= j < i + 1
      ensures PreviousDate(obs[j].date).Ok?
    {
      if j > 0 {
        assert obs[j] == obs[1..][j - 1];
      }
    }
  }

  lemma DiffStep(obs: seq<Obs>, cumul: Series, prev: string, rest: Series)
    requires |obs| > 0 && PreviousDate(obs[0].date) == Ok(prev)
    requires DatesParse(obs[1..]) && IsDiffOf(obs[1..], cumul, rest)
    ensures DatesParse(obs)
    ensures IsDiffOf(obs, cumul, rest[obs[0].date := At(cumul, obs[0].date) - At(cumul, prev)])
  {
    DatesParseCons(obs);
    DatesOfCons(obs);
    var r := rest[obs[0].date := At(cumul, obs[0].date) - At(cumul, prev)];
    forall d | d in r
      ensures DiffRule(cumul, d, r[d])
    {
      if d != obs[0].date {
        assert d in rest && r[d] == rest[d];
      }
    }
  }

  lemma DatesParseCons(obs: seq<Obs>)
    requires |obs| > 0 && PreviousDate(obs[0].date).Ok? && DatesParse(obs[1..])
    ensures DatesParse(obs)
  {
    forall i | 0 < i < |obs|
      ensures PreviousDate(obs[i].date).Ok?
    {
      assert obs[i] == obs[1..][i - 1];
    }
  }

  lemma DatesOfCons(obs: seq<Obs>)
    requires |obs| > 0
    ensures DatesOf(obs) == {obs[0].date} + DatesOf(obs[1..])
  {
    assert obs == [obs[0]] + obs[1..];
    forall d | d in DatesOf(obs)
      ensures d == obs[0].date || d in DatesOf(obs[1..])
    {
      var o :| o in obs && o.date == d;
      if o != obs[0] {
        assert o in obs[1..];
      }
    }
    assert forall o :: o in obs[1..] ==> o in obs;
  }

  /** One differential series per key, all from the same observations. */
  function Diffs(obs: seq<Obs>, cumul: map<string, Series>, keys: seq<string>): (r: Result<map<string, Series>>)
    requires forall k :: k in keys ==> k in cumul
    ensures r.Ok? <==> |keys| == 0 || DatesParse(obs)
    ensures r.Err? ==> FirstDateError(obs, r.error)
    ensures r.Ok? ==> r.value.Keys == (set k | k in keys)
    ensures r.Ok? ==> forall k :: k in r.value ==> IsDiffOf(obs, cumul[k], r.value[k])
  {
    if |keys| == 0 then Ok(map[])
    else
      match Diff(obs, cumul[keys[0]])
      case Err(e) => Err(e)
      case Ok(df) =>
        match Diffs(obs, cumul, keys[1..])
        case Err(e) => Err(e)
        case Ok(rest) =>
          assert forall k :: k in keys <==> k == keys[0] || k in keys[1..];
          Ok(rest[keys[0] := df])
  }

  /** A bundle built from `obs` for `keys`: both halves keyed by exactly the
      requested keys, each cumulative series holding the last value per date and
      each differential series following the previous-date rule. */
  ghost predicate IsBundleOf(obs: seq<Obs>, keys: seq<string>, b: Bundle)
  {
    && b.cumul.Keys == (set k | k in keys)
    && b.diff.Keys == b.cumul.Keys
    && forall k :: k in b.cumul ==> IsCumulOf(obs, k, b.cumul[k]) && IsDiffOf(obs, b.cumul[k], b.diff[k])
  }

  /** The three loops of `get_data_dept` / `get_data_france` over rows already
      sorted by date: cumulative series for every key, then differential ones,
      which raise on the first date `get_previous_date` rejects. */
  function BuildBundle(obs: seq<Obs>, keys: seq<string>): (r: Result<Bundle>)
    ensures r.Ok? <==> |keys| == 0 || DatesParse(obs)
    ensures r.Err? ==> FirstDateError(obs, r.error)
    ensures r.Ok? ==> IsBundleOf(obs, keys, r.value)
  {
    var cumul := map k | k in keys :: Cumul(obs, k);
    var diff :- Diffs(obs, cumul, keys);
    Ok(Bundle(cumul, diff))
  }

  /** The dates the rows of one unit report. */
  ghost function UnitDates(rows: seq<Row>, code: string): set<string>
  {
    set r | r in rows && r.mailleCode == code :: r.date
  }

  /** The two series of metric `key` for unit `code`: one entry per date the
      unit reports, the cumulative value being the `key` cell of one of the
      unit's rows of that date, the differential value following the
      previous-date rule. */
  ghost predicate IsUnitMetric(rows: seq<Row>, code: string, key: string, c: Series, df: Series)
  {
    && c.Keys == UnitDates(rows, code)
    && df.Keys == c.Keys
    && (forall d :: d in c ==>
          exists r :: r in rows && r.mailleCode == code && r.date == d && c[d] == Cell(r.metrics, key))
    && (forall d :: d in df ==> DiffRule(c, d, df[d]))
  }

  /** What `get_data_dept` returns for one unit: all seven metrics, whatever
      the caller asked for, each with its two series. */
  ghost predicate IsUnitBundle(rows: seq<Row>, code: string, b: Bundle)
  {
    && b.cumul.Keys == (set k | k in Metrics)
    && b.diff.Keys == b.cumul.Keys
    && forall k :: k in b.cumul ==> IsUnitMetric(rows, code, k, b.cumul[k], b.diff[k])
  }

  /** Whether every unit carries exactly the seven metrics. */
  predicate HasEveryMetric(units: map<string, Bundle>)
  {
    forall n :: n in units ==> units[n].cumul.Keys == units[n].diff.Keys == (set k | k in Metrics)
  }

  /** The rows of `code`, as observations sorted by date. */
  function UnitObservations(rows: seq<Row>, code: string): (obs: seq<Obs>)
    ensures forall o :: o in obs <==> exists r :: r in rows && r.mailleCode == code && ToObs(r) == o
    ensures DatesOf(obs) == UnitDates(rows, code)
  {
    var selected := Observations(UnitRows(rows, code));
    var obs := SortByDate(selected);
    SortKeepsObservations(selected);
    assert forall o :: o in selected <==> exists r :: r in UnitRows(rows, code) && ToObs(r) == o by {
      forall o | o in selected
        ensures exists r :: r in UnitRows(rows, code) && ToObs(r) == o
      {
        var i :| 0 <= i < |selected| && selected[i] == o;
        assert UnitRows(rows, code)[i] in UnitRows(rows, code);
      }
      forall r | r in UnitRows(rows, code)
        ensures ToObs(r) in selected
      {
        var i :| 0 <= i < |UnitRows(rows, code)| && UnitRows(rows, code)[i] == r;
        assert selected[i] == ToObs(r);
      }
    }
    obs
  }

  /** `get_data_dept` for the unit whose `maille_code` is `code`. */
  function UnitSeries(rows: seq<Row>, code: string): (r: Result<Bundle>)
    ensures r.Ok? <==> forall row :: row in rows && row.mailleCode == code ==> PreviousDate(row.date).Ok?
    ensures r.Err? ==> exists row :: row in rows && row.mailleCode == code && PreviousDate(row.date) == Err(r.error)
    ensures r.Ok? ==> IsUnitBundle(rows, code, r.value)
  {
    var obs := UnitObservations(rows, code);
    var r := BuildBundle(obs, Metrics);
    UnitBundleFromObservations(rows, code, obs, r);
    r
  }

  lemma UnitBundleFromObservations(rows: seq<Row>, code: string, obs: seq<Obs>, r: Result<Bundle>)
    requires forall o :: o in obs <==> exists row :: row in rows && row.mailleCode == code && ToObs(row) == o
    requires DatesOf(obs) == UnitDates(rows, code)
    requires r.Ok? <==> DatesParse(obs)
    requires r.Err? ==> FirstDateError(obs, r.error)
    requires r.Ok? ==> IsBundleOf(obs, Metrics, r.value)
    ensures r.Ok? <==> forall row :: row in rows && row.mailleCode == code ==> PreviousDate(row.date).Ok?
    ensures r.Err? ==> exists row :: row in rows && row.mailleCode == code && PreviousDate(row.date) == Err(r.error)
    ensures r.Ok? ==> IsUnitBundle(rows, code, r.value)
  {
    if r.Ok? {
      forall row | row in rows && row.mailleCode == code
        ensures PreviousDate(row.date).Ok?
      {
        assert ToObs(row) in obs;
      }
      var b := r.value;
      forall k | k in b.cumul
        ensures IsUnitMetric(rows, code, k, b.cumul[k], b.diff[k])
      {
        forall d | d in b.cumul[k]
          ensures exists row :: row in rows && row.mailleCode == code && row.date == d && b.cumul[k][d] == Cell(row.metrics, k)
        {
          var i :| LastDated(obs, d, i) && b.cumul[k][d] == Cell(obs[i].metrics, k);
          assert obs[i] in obs;
          var row :| row in rows && row.mailleCode == code && ToObs(row) == obs[i];
        }
      }
    } else {
      var i :| 0 <= i < |obs| && PreviousDate(obs[i].date) == Err(r.error)
        && forall j :: 0 <= j < i ==> PreviousDate(obs[j].date).Ok?;
      assert obs[i] in obs;
      var row :| row in rows && row.mailleCode == code && ToObs(row) == obs[i];
    }
  }
}
