/** The rows of the `chiffres-cles` table and the table operations the
    notebooks apply to them: boolean filtering, `unique()`, and
    `sort_values(by='date')`. */
module Frames {
  import opened Results

  /** One row of the table. A metric absent from `metrics` is a missing cell. */
  datatype Row = Row(mailleCode: string, date: string, granularite: string, metrics: map<string, int>)

  /** What the series builders read from a row as they iterate: its date and its
      metric cells. */
  datatype Obs = Obs(date: string, metrics: map<string, int>)

  /** The seven metrics of the `default_keys` list (and of the literal key
      tuples and `keys=None` defaults), in the source's order. */
  const Metrics: seq<string> :=
    ["cas_confirmes", "deces", "deces_ehpad", "reanimation", "hospitalises", "gueris", "depistes"]

  /** `keys=None` means every metric; a list given by the caller is used as is. */
  function KeysOrDefault(keys: Option<seq<string>>): (ks: seq<string>)
    ensures keys.None? ==> ks == Metrics && |ks| == 7
    ensures keys.Some? ==> ks == keys.value
  {
    match keys
    case None => Metrics
    case Some(ks) => ks
  }

  /** `row.get(key, 0)`: a missing cell reads as 0. */
  function Cell(metrics: map<string, int>, key: string): (v: int)
    ensures key in metrics ==> v == metrics[key]
    ensures key !in metrics ==> v == 0
  {
    if key in metrics then metrics[key] else 0
  }

  function ToObs(r: Row): Obs
  {
    Obs(r.date, r.metrics)
  }

  function Observations(rows: seq<Row>): (obs: seq<Obs>)
    ensures |obs| == |rows|
    ensures forall i :: 0 <= i < |rows| ==> obs[i] == ToObs(rows[i])
  {
    seq(|rows|, i requires 0 <= i < |rows| => ToObs(rows[i]))
  }

  function DatesOf(obs: seq<Obs>): set<string>
  {
    set o | o in obs :: o.date
  }

  /** The `date` column, in row order. */
  function DateColumn(obs: seq<Obs>): (ds: seq<string>)
    ensures |ds| == |obs|
    ensures forall i :: 0 <= i < |obs| ==> ds[i] == obs[i].date
  {
    seq(|obs|, i requires 0 <= i < |obs| => obs[i].date)
  }

  function RowDates(rows: seq<Row>): set<string>
  {
    set r | r in rows :: r.date
  }

  /** `spf_data[mask]`: the rows satisfying `keep`, in their original order. */
  function Filter(rows: seq<Row>, keep: Row -> bool): (r: seq<Row>)
    ensures forall row :: row in r <==> row in rows && keep(row)
    ensures |r| <= |rows|
  {
    if |rows| == 0 then []
    else
      var rest := Filter(rows[1..], keep);
      assert forall row :: row in rows <==> row == rows[0] || row in rows[1..];
      if keep(rows[0]) then [rows[0]] + rest else rest
  }

  /** The rows of one unit: `spf_data[spf_data.maille_code == code]`. */
  function UnitRows(rows: seq<Row>, code: string): (r: seq<Row>)
    ensures forall row :: row in r <==> row in rows && row.mailleCode == code
  {
    Filter(rows, (row: Row) => row.mailleCode == code)
  }

  /** The rows `keep` selects from a concatenation are those it selects from
      each part, in order. */
  lemma {:induction false} FilterAppend(a: seq<Row>, b: seq<Row>, keep: Row -> bool)
    ensures Filter(a + b, keep) == Filter(a, keep) + Filter(b, keep)
  {
    if |a| == 0 {
      assert a + b == b;
    } else {
      assert (a + b)[1..] == a[1..] + b;
      FilterAppend(a[1..], b, keep);
    }
  }

  /** A mask that selects every row leaves the table unchanged. */
  lemma {:induction false} FilterKeepsAll(rows: seq<Row>, keep: Row -> bool)
    requires forall row :: row in rows ==> keep(row)
    ensures Filter(rows, keep) == rows
  {
    if |rows| > 0 {
      assert forall row :: row in rows[1..] ==> row in rows;
      FilterKeepsAll(rows[1..], keep);
      assert [rows[0]] + rows[1..] == rows;
    }
  }

  /** The `maille_code` column, in row order. */
  function CodeColumn(rows: seq<Row>): (codes: seq<string>)
    ensures forall c :: c in codes <==> exists row :: row in rows && row.mailleCode == c
  {
    var codes := seq(|rows|, i requires 0 <= i < |rows| => rows[i].mailleCode);
    assert forall i :: 0 <= i < |rows| ==> codes[i] == rows[i].mailleCode && rows[i] in rows;
    codes
  }

  predicate NoDuplicates<T(==)>(s: seq<T>) {
    forall i, j :: 0 <= i < j < |s| ==> s[i] != s[j]
  }

  /** `Series.unique()`: each value once, in order of first appearance. */
  function Distinct(s: seq<string>): (r: seq<string>)
    ensures forall x :: x in r <==> x in s
    ensures NoDuplicates(r)
  {
    if |s| == 0 then []
    else
      var prefix := Distinct(s[..|s| - 1]);
      assert forall x :: x in s <==> x in s[..|s| - 1] || x == s[|s| - 1];
      if s[|s| - 1] in prefix then prefix else prefix + [s[|s| - 1]]
  }

  /** Python's `<=` on strings: lexicographic by code point, a proper prefix
      coming first. */
  predicate StrLe(a: string, b: string)
  {
    |a| == 0 || (|b| > 0 && (a[0] < b[0] || (a[0] == b[0] && StrLe(a[1..], b[1..]))))
  }

  lemma {:induction false} StrLeTotal(a: string, b: string)
    ensures StrLe(a, b) || StrLe(b, a)
  {
    if |a| > 0 && |b| > 0 && a[0] == b[0] {
      StrLeTotal(a[1..], b[1..]);
    }
  }

  predicate SortedByDate(obs: seq<Obs>) {
    forall i :: 0 < i < |obs| ==> StrLe(obs[i - 1].date, obs[i].date)
  }

  function Insert(o: Obs, obs: seq<Obs>): (r: seq<Obs>)
    requires SortedByDate(obs)
    ensures SortedByDate(r)
    ensures multiset(r) == multiset(obs) + multiset{o}
    ensures |r| == |obs| + 1
    ensures r[0] == o || (|obs| > 0 && r[0] == obs[0])
  {
    if |obs| == 0 || StrLe(o.date, obs[0].date) then [o] + obs
    else
      StrLeTotal(o.date, obs[0].date);
      var rest := Insert(o, obs[1..]);
      assert obs == [obs[0]] + obs[1..];
      [obs[0]] + rest
  }

  /** `sort_values(by='date', ascending=True)`: a permutation of the rows in
      ascending date order. Rows sharing a date come out in one of the orders
      pandas may produce; no property below depends on which. */
  function SortByDate(obs: seq<Obs>): (r: seq<Obs>)
    ensures SortedByDate(r)
    ensures multiset(r) == multiset(obs)
    ensures |r| == |obs|
  {
    if |obs| == 0 then []
    else
      assert obs == [obs[0]] + obs[1..];
      Insert(obs[0], SortByDate(obs[1..]))
  }

  /** Sorting keeps every row and adds none. */
  lemma SortKeepsObservations(obs: seq<Obs>)
    ensures forall o :: o in SortByDate(obs) <==> o in obs
    ensures DatesOf(SortByDate(obs)) == DatesOf(obs)
  {
    var r := SortByDate(obs);
    assert forall o :: o in r <==> o in multiset(r);
    assert forall o :: o in obs <==> o in multiset(obs);
  }
}
