/** Date-aligned sums of series: `pd.concat(frames, axis=1).sum(axis=1)`. */
module RollUp {
  import opened Results
  import opened Series

  function SumInts(xs: seq<int>): int
  {
    if |xs| == 0 then 0 else xs[0] + SumInts(xs[1..])
  }

  lemma {:induction false} SumIntsAppend(a: seq<int>, b: seq<int>)
    ensures SumInts(a + b) == SumInts(a) + SumInts(b)
  {
    if |a| == 0 {
      assert a + b == b;
    } else {
      assert (a + b)[1..] == a[1..] + b;
      SumIntsAppend(a[1..], b);
    }
  }

  /** The values of every series on date `d`, 0 where a series lacks it. */
  function Column(ss: seq<Series>, d: string): (col: seq<int>)
    ensures |col| == |ss|
    ensures forall i :: 0 <= i < |ss| ==> col[i] == At(ss[i], d)
  {
    seq(|ss|, i requires 0 <= i < |ss| => At(ss[i], d))
  }

  /** Two series aligned on the union of their dates and added pointwise. */
  function Add(a: Series, b: Series): (r: Series)
    ensures r.Keys == a.Keys + b.Keys
    ensures forall d :: At(r, d) == At(a, d) + At(b, d)
  {
    map d | d in a.Keys + b.Keys :: At(a, d) + At(b, d)
  }

  /** The dates of any of the series: the index of their `pd.concat`. */
  function DateIndex(ss: seq<Series>): (ds: set<string>)
  {
    if |ss| == 0 then {} else DateIndex(ss[..|ss| - 1]) + ss[|ss| - 1].Keys
  }

  lemma {:induction false} DateIndexMember(ss: seq<Series>, d: string)
    ensures d in DateIndex(ss) <==> exists i :: 0 <= i < |ss| && d in ss[i]
  {
    if |ss| > 0 {
      var n := |ss| - 1;
      DateIndexMember(ss[..n], d);
      if d in DateIndex(ss[..n]) {
        var i :| 0 <= i < n && d in ss[..n][i];
        assert d in ss[i];
      }
      if exists i :: 0 <= i < |ss| && d in ss[i] {
        var i :| 0 <= i < |ss| && d in ss[i];
        if i < n {
          assert d in ss[..n][i];
        }
      }
    }
  }

  lemma {:induction false} DateIndexAppend(a: seq<Series>, b: seq<Series>)
    ensures DateIndex(a + b) == DateIndex(a) + DateIndex(b)
  {
    if |b| == 0 {
      assert a + b == a;
    } else {
      var n := |b| - 1;
      assert (a + b)[..|a + b| - 1] == a + b[..n];
      DateIndexAppend(a, b[..n]);
    }
  }

  /** The sum of a list of series: indexed by the union of their dates, each
      value the sum over the list (with multiplicity) of the series' values on
      that date, a missing date counting as 0. */
  function SumSeries(ss: seq<Series>): (r: Series)
    ensures r.Keys == DateIndex(ss)
    ensures forall d :: At(r, d) == SumInts(Column(ss, d))
  {
    if |ss| == 0 then map[]
    else
      var n := |ss| - 1;
      var prefix := SumSeries(ss[..n]);
      var r := Add(prefix, ss[n]);
      SumSeriesStep(ss, prefix, r);
      r
  }

  lemma SumSeriesStep(ss: seq<Series>, prefix: Series, r: Series)
    requires |ss| > 0
    requires r == Add(prefix, ss[|ss| - 1])
    requires forall d :: At(prefix, d) == SumInts(Column(ss[..|ss| - 1], d))
    ensures forall d :: At(r, d) == SumInts(Column(ss, d))
  {
    var n := |ss| - 1;
    forall d
      ensures SumInts(Column(ss, d)) == SumInts(Column(ss[..n], d)) + At(ss[n], d)
    {
      assert Column(ss, d) == Column(ss[..n], d) + [At(ss[n], d)];
      SumIntsAppend(Column(ss[..n], d), [At(ss[n], d)]);
    }
  }

  /** Roll-up additivity: summing a concatenation of lists adds the sums of the
      two lists, date by date. */
  lemma SumSeriesAppend(a: seq<Series>, b: seq<Series>)
    ensures SumSeries(a + b) == Add(SumSeries(a), SumSeries(b))
  {
    SumSeriesAppendValues(a, b);
    DateIndexAppend(a, b);
    SameValuesSameSeries(SumSeries(a + b), Add(SumSeries(a), SumSeries(b)));
  }

  /** Two series with the same dates and the same value on every date are equal. */
  lemma SameValuesSameSeries(l: Series, r: Series)
    requires l.Keys == r.Keys
    requires forall d :: At(l, d) == At(r, d)
    ensures l == r
  {
    forall d | d in l
      ensures l[d] == r[d]
    {
      assert At(l, d) == At(r, d);
    }
  }

  lemma SumSeriesAppendValues(a: seq<Series>, b: seq<Series>)
    ensures forall d :: At(SumSeries(a + b), d) == At(SumSeries(a), d) + At(SumSeries(b), d)
  {
    forall d
      ensures At(SumSeries(a + b), d) == At(SumSeries(a), d) + At(SumSeries(b), d)
    {
      assert Column(a + b, d) == Column(a, d) + Column(b, d);
      SumIntsAppend(Column(a, d), Column(b, d));
    }
  }

  /** Multiplicity: a series listed twice contributes twice; dropping one copy
      removes exactly one contribution. */
  lemma SumSeriesRepeated(p: seq<Series>, x: Series, q: seq<Series>)
    ensures forall d :: At(SumSeries(p + [x, x] + q), d) == At(SumSeries(p + [x] + q), d) + At(x, d)
  {
    forall d
      ensures At(SumSeries(p + [x, x] + q), d) == At(SumSeries(p + [x] + q), d) + At(x, d)
    {
      var cp, cq := Column(p, d), Column(q, d);
      assert Column(p + [x, x] + q, d) == (cp + [At(x, d)]) + ([At(x, d)] + cq);
      assert Column(p + [x] + q, d) == (cp + [At(x, d)]) + cq;
      SumIntsAppend(cp + [At(x, d)], [At(x, d)] + cq);
      SumIntsAppend(cp + [At(x, d)], cq);
      SumIntsAppend([At(x, d)], cq);
    }
  }

  /** The loop of `_gen_ts_dept`: for each code in order, `name` gives the
      key the unit is stored under and `build` its bundle; the first failure
      of either propagates. */
  function ForEachUnit(codes: seq<string>, name: string -> Result<string>, build: string -> Result<Bundle>): (r: Result<map<string, Bundle>>)
    ensures r.Ok? <==> forall c :: c in codes ==> name(c).Ok? && build(name(c).value).Ok?
    ensures r.Err? ==> exists c :: c in codes && (name(c) == Err(r.error) || (name(c).Ok? && build(name(c).value) == Err(r.error)))
    ensures r.Ok? ==> r.value.Keys == (set c | c in codes && name(c).Ok? :: name(c).value)
    ensures r.Ok? ==> forall n :: n in r.value ==> build(n) == Ok(r.value[n])
  {
    if |codes| == 0 then Ok(map[])
    else
      match name(codes[0])
      case Err(e) => Err(e)
      case Ok(n) =>
        match build(n)
        case Err(e) => Err(e)
        case Ok(b) =>
          match ForEachUnit(codes[1..], name, build)
          case Err(e) => Err(e)
          case Ok(rest) =>
            assert forall c :: c in codes <==> c == codes[0] || c in codes[1..];
            Ok(rest[n := b])
  }

  /** No region name appears twice (the tables are dictionary literals). */
  predicate NamesDistinct<T>(table: seq<(string, T)>)
  {
    forall i, j :: 0 <= i < j < |table| ==> table[i].0 != table[j].0
  }

  /** The region names of a table. */
  function Names<T>(table: seq<(string, T)>): set<string>
  {
    set i | 0 <= i < |table| :: table[i].0
  }

  /** The outer loop of `gen_region_ts`: build each region's bundle in table
      order, the first failure propagating. A region gets an entry only once a
      key is stored under it, so with no keys the result is empty. */
  function ForEachRegion<T>(table: seq<(string, T)>, build: T -> Result<Bundle>, anyKey: bool): (r: Result<map<string, Bundle>>)
    requires NamesDistinct(table)
    ensures r.Ok? <==> forall i :: 0 <= i < |table| ==> build(table[i].1).Ok?
    ensures r.Err? ==> exists i :: 0 <= i < |table| && build(table[i].1) == Err(r.error)
    ensures r.Ok? ==> r.value.Keys == if anyKey then Names(table) else {}
    ensures r.Ok? && anyKey ==> forall i :: 0 <= i < |table| ==> r.value[table[i].0] == build(table[i].1).value
  {
    if |table| == 0 then Ok(map[])
    else
      match build(table[0].1)
      case Err(e) => Err(e)
      case Ok(b) =>
        match ForEachRegion(table[1..], build, anyKey)
        case Err(e) =>
          Err(e)
        case Ok(rest) =>
          assert forall i :: 0 < i < |table| ==> table[i] == table[1..][i - 1];
          assert Names(table) == {table[0].0} + Names(table[1..]);
          Ok(if anyKey then rest[table[0].0 := b] else rest)
  }
}
