/** `get_data_france`: the rows grouped by date and summed
    (`groupby('date').agg('sum')`), then the cumulative and differential series
    of the requested keys built from the per-date totals. */
module Totals {
  import opened Results
  import opened Dates
  import opened Frames
  import opened Series

  /** The sum of metric `key` over the observations dated `d`, missing cells
      counting as 0. */
  function DaySum(obs: seq<Obs>, d: string, key: string): int
  {
    if |obs| == 0 then 0
    else (if obs[0].date == d then Cell(obs[0].metrics, key) else 0) + DaySum(obs[1..], d, key)
  }

  /** The metric columns of the table: every key some observation carries. */
  function Columns(obs: seq<Obs>): set<string>
  {
    set o, k | o in obs && k in o.metrics :: k
  }

  /** A column no observation carries sums to 0 on every date. */
  lemma {:induction false} DaySumAbsent(obs: seq<Obs>, d: string, key: string)
    requires key !in Columns(obs)
    ensures DaySum(obs, d, key) == 0
  {
    if |obs| > 0 {
      assert forall o, k :: o in obs[1..] && k in o.metrics ==> o in obs;
      DaySumAbsent(obs[1..], d, key);
    }
  }

  /** The summed row of one date. */
  function DayTotal(obs: seq<Obs>, d: string): (o: Obs)
    ensures o.date == d
    ensures forall key :: Cell(o.metrics, key) == DaySum(obs, d, key)
  {
    var o := Obs(d, map k | k in Columns(obs) :: DaySum(obs, d, k));
    forall key | key !in Columns(obs)
      ensures DaySum(obs, d, key) == 0
    {
      DaySumAbsent(obs, d, key);
    }
    o
  }

  /** `groupby('date').agg('sum').reset_index()`: one summed row per date. */
  function GroupByDate(obs: seq<Obs>): (r: seq<Obs>)
    ensures DatesOf(r) == DatesOf(obs)
    ensures NoDuplicates(DateColumn(r))
    ensures forall o, key :: o in r ==> Cell(o.metrics, key) == DaySum(obs, o.date, key)
  {
    var dates := Distinct(DateColumn(obs));
    var r := seq(|dates|, i requires 0 <= i < |dates| => DayTotal(obs, dates[i]));
    assert forall j :: 0 <= j < |r| ==> DateColumn(r)[j] == dates[j];
    forall d | d in DatesOf(obs)
      ensures d in DatesOf(r)
    {
      var o :| o in obs && o.date == d;
      var i :| 0 <= i < |obs| && obs[i] == o;
      assert DateColumn(obs)[i] == d;
      assert d in dates;
      var j :| 0 <= j < |dates| && dates[j] == d;
      assert r[j].date == d;
    }
    forall d | d in DatesOf(r)
      ensures d in DatesOf(obs)
    {
      var o :| o in r && o.date == d;
      var j :| 0 <= j < |r| && r[j] == o;
      assert dates[j] == d;
      assert d in DateColumn(obs);
      var i :| 0 <= i < |obs| && DateColumn(obs)[i] == d;
      assert obs[i] in obs;
    }
    r
  }

  /** What `get_data_france` returns for the rows it sums: the requested keys,
      each series indexed by the dates the rows report, the cumulative value on a
      date being the sum of the key over all rows of that date and the
      differential value following the previous-date rule. */
  ghost predicate IsTotalsBundle(rows: seq<Row>, keys: seq<string>, b: Bundle)
  {
    && b.cumul.Keys == (set k | k in keys)
    && b.diff.Keys == b.cumul.Keys
    && forall k :: k in b.cumul ==>
      && b.cumul[k].Keys == RowDates(rows)
      && b.diff[k].Keys == RowDates(rows)
      && (forall d :: d in b.cumul[k] ==> b.cumul[k][d] == DaySum(Observations(rows), d, k))
      && (forall d :: d in b.diff[k] ==> DiffRule(b.cumul[k], d, b.diff[k][d]))
  }

  /** The per-date totals of `rows`, sorted by date, turned into series. Keys
      are taken to be distinct names of metric columns. */
  function DailyTotalsSeries(rows: seq<Row>, keys: seq<string>): (r: Result<Bundle>)
    ensures r.Ok? <==> |keys| == 0 || forall row :: row in rows ==> PreviousDate(row.date).Ok?
    ensures r.Err? ==> exists row :: row in rows && PreviousDate(row.date) == Err(r.error)
    ensures r.Ok? ==> IsTotalsBundle(rows, keys, r.value)
  {
    var all := Observations(rows);
    var grouped := GroupByDate(all);
    var obs := SortByDate(grouped);
    SortKeepsObservations(grouped);
    var r := BuildBundle(obs, keys);
    TotalsFromObservations(rows, keys, obs, r);
    r
  }

  lemma ObservationDates(rows: seq<Row>)
    ensures DatesOf(Observations(rows)) == RowDates(rows)
  {
    var obs := Observations(rows);
    forall d | d in RowDates(rows)
      ensures d in DatesOf(obs)
    {
      var row :| row in rows && row.date == d;
      var i :| 0 <= i < |rows| && rows[i] == row;
      assert obs[i] in obs;
    }
  }

  lemma TotalsFromObservations(rows: seq<Row>, keys: seq<string>, obs: seq<Obs>, r: Result<Bundle>)
    requires DatesOf(obs) == DatesOf(Observations(rows))
    requires forall o, key :: o in obs ==> Cell(o.metrics, key) == DaySum(Observations(rows), o.date, key)
    requires r.Ok? <==> |keys| == 0 || DatesParse(obs)
    requires r.Err? ==> FirstDateError(obs, r.error)
    requires r.Ok? ==> IsBundleOf(obs, keys, r.value)
    ensures r.Ok? <==> |keys| == 0 || forall row :: row in rows ==> PreviousDate(row.date).Ok?
    ensures r.Err? ==> exists row :: row in rows && PreviousDate(row.date) == Err(r.error)
    ensures r.Ok? ==> IsTotalsBundle(rows, keys, r.value)
  {
    ObservationDates(rows);
    assert DatesParse(obs) <==> forall row :: row in rows ==> PreviousDate(row.date).Ok? by {
      if DatesParse(obs) {
        forall row | row in rows
          ensures PreviousDate(row.date).Ok?
        {
          assert row.date in DatesOf(obs);
          var o :| o in obs && o.date == row.date;
          var i :| 0 <= i < |obs| && obs[i] == o;
        }
      }
      if forall row :: row in rows ==> PreviousDate(row.date).Ok? {
        forall i | 0 <= i < |obs|
          ensures PreviousDate(obs[i].date).Ok?
        {
          assert obs[i].date in RowDates(rows);
        }
      }
    }
    if r.Err? {
      var i :| 0 <= i < |obs| && PreviousDate(obs[i].date) == Err(r.error)
        && forall j :: 0 <= j < i ==> PreviousDate(obs[j].date).Ok?;
      assert obs[i].date in RowDates(rows);
    }
    if r.Ok? {
      var b := r.value;
      forall k, d | k in b.cumul && d in b.cumul[k]
        ensures b.cumul[k][d] == DaySum(Observations(rows), d, k)
      {
        var i :| LastDated(obs, d, i) && b.cumul[k][d] == Cell(obs[i].metrics, k);
        assert obs[i] in obs;
      }
    }
  }
}
