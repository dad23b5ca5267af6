/** `get_previous_date`: the "previous day" of a `YYYY-MM-DD` string, computed
    by splitting on `-` and decrementing a field, exactly as the notebooks do it
    (a day-1 date rolls over to day "31" of the previous month number, and the
    year is never touched). */
module Dates {
  import opened Results
  import opened Text

  /** A well-formed `YYYY-MM-DD` string, as found in the `date` column. */
  predicate IsIsoDate(s: string) {
    && |s| == 10
    && s[4] == '-' && s[7] == '-'
    && IsDigits(s[..4]) && IsDigits(s[5..7]) && IsDigits(s[8..])
  }

  function Month(s: string): nat
    requires IsIsoDate(s)
  {
    DigitsValue(s[5..7])
  }

  function Day(s: string): nat
    requires IsIsoDate(s)
  {
    DigitsValue(s[8..])
  }

  /** `get_previous_date(date)`. The split must give exactly three parts and the
      day part must be an integer; the month part is only read when the day is 1.
      Any violation raises ValueError: carrying the whole text when the split
      does not give three parts, else the day part when it is not an integer,
      else the month part. */
  function PreviousDate(date: string): (r: Result<string>)
    ensures r.Err? <==>
      var parts := Split(date, '-');
      || |parts| != 3
      || !IsDigits(parts[2])
      || (DigitsValue(parts[2]) == 1 && !IsDigits(parts[1]))
    ensures r.Err? && |Split(date, '-')| != 3 ==> r.error == ValueError(date)
    ensures r.Err? && |Split(date, '-')| == 3 && !IsDigits(Split(date, '-')[2]) ==>
      r.error == ValueError(Split(date, '-')[2])
    ensures r.Err? && |Split(date, '-')| == 3 && IsDigits(Split(date, '-')[2]) ==>
      r.error == ValueError(Split(date, '-')[1])
  {
    var parts := Split(date, '-');
    if |parts| != 3 then Err(ValueError(date))
    else
      var day :- ParseInt(parts[2]);
      if day == 1 then
        var month :- ParseInt(parts[1]);
        Ok(Join([parts[0], Format02(month - 1), "31"], '-'))
      else
        Ok(Join([parts[0], parts[1], Format02(day - 1)], '-'))
  }

  /** A day part that is not an integer is the part the error names, whatever
      the month part holds. */
  lemma BadDayIsReported(year: string, month: string, day: string)
    requires '-' !in year && '-' !in month && '-' !in day
    requires !IsDigits(day)
    ensures PreviousDate(year + "-" + month + "-" + day) == Err(ValueError(day))
  {
    SplitThree(year, month, day);
  }

  /** Three fields without '-' joined by '-' split back into those fields. */
  lemma SplitThree(a: string, b: string, c: string)
    requires '-' !in a && '-' !in b && '-' !in c
    ensures Split(a + "-" + b + "-" + c, '-') == [a, b, c]
  {
    var parts := [a, b, c];
    JoinThree(a, b, c);
    assert forall i :: 0 <= i < |parts| ==> '-' !in parts[i];
    SplitJoin(parts, '-');
  }

  /** A well-formed date splits into its year, month and day fields. */
  lemma IsoDateParts(s: string)
    requires IsIsoDate(s)
    ensures Split(s, '-') == [s[..4], s[5..7], s[8..]]
  {
    var parts := [s[..4], s[5..7], s[8..]];
    JoinThree(s[..4], s[5..7], s[8..]);
    assert s[..4] + "-" + s[5..7] + "-" + s[8..] == s;
    forall i | 0 <= i < |parts|
      ensures '-' !in parts[i]
    {
      assert forall j :: 0 <= j < |parts[i]| ==> IsDigit(parts[i][j]);
    }
    SplitJoin(parts, '-');
  }

  lemma JoinThree(a: string, b: string, c: string)
    ensures Join([a, b, c], '-') == a + "-" + b + "-" + c
  {
    assert [a, b, c][1..] == [b, c];
    assert [b, c][1..] == [c];
    assert Join([b, c], '-') == b + "-" + c;
    assert a + "-" + (b + "-" + c) == a + "-" + b + "-" + c;
  }

  /** Days other than the first: year and month text are kept and the day
      becomes the day minus one, zero-padded to two digits; from day 2 on the
      result is again a well-formed date, while day "00" yields the day "-1". */
  lemma PreviousDateWithinMonth(s: string)
    requires IsIsoDate(s) && Day(s) != 1
    ensures PreviousDate(s) == Ok(s[..8] + Format02(Day(s) - 1))
    ensures Day(s) >= 2 ==>
      var p := PreviousDate(s).value;
      IsIsoDate(p) && p[..8] == s[..8] && Day(p) == Day(s) - 1
    ensures Day(s) == 0 ==> PreviousDate(s) == Ok(s[..8] + "-1")
  {
    IsoDateParts(s);
    JoinThree(s[..4], s[5..7], Format02(Day(s) - 1));
    assert s[..4] + "-" + s[5..7] + "-" == s[..8];
    var p := s[..8] + Format02(Day(s) - 1);
    assert s[..4] + "-" + s[5..7] + "-" + Format02(Day(s) - 1) == p;
    TwoDigitsValue(s[8..]);
    if Day(s) >= 2 {
      assert |p| == 10;
      assert p[8..] == Format02(Day(s) - 1);
      assert p[..4] == s[..4] && p[5..7] == s[5..7];
    }
    if Day(s) == 0 {
      assert Format02(-1) == "-1";
    }
  }

  /** The first of a month: the year text is kept, the month becomes the month
      number minus one, zero-padded, and the day is "31" whatever the month's
      length; month "01" rolls over to month "00", not to December of the
      previous year, and month "00" gives the month "-1". */
  lemma PreviousDateOfFirst(s: string)
    requires IsIsoDate(s) && Day(s) == 1
    ensures PreviousDate(s) == Ok(s[..5] + Format02(Month(s) - 1) + "-31")
    ensures Month(s) >= 1 ==>
      var p := PreviousDate(s).value;
      IsIsoDate(p) && p[..5] == s[..5] && Month(p) == Month(s) - 1 && p[8..] == "31"
    ensures Month(s) == 0 ==> PreviousDate(s) == Ok(s[..5] + "-1-31")
  {
    IsoDateParts(s);
    JoinThree(s[..4], Format02(Month(s) - 1), "31");
    assert s[..4] + "-" == s[..5];
    var p := s[..5] + Format02(Month(s) - 1) + "-31";
    assert s[..4] + "-" + Format02(Month(s) - 1) + "-" + "31" == p;
    TwoDigitsValue(s[5..7]);
    if Month(s) >= 1 {
      assert |p| == 10;
      assert p[5..7] == Format02(Month(s) - 1);
      assert p[..4] == s[..4] && p[8..] == "31";
      assert IsDigits(p[8..]);
    }
    if Month(s) == 0 {
      assert Format02(-1) == "-1";
      assert s[..5] + "-1" + "-31" == s[..5] + "-1-31";
    }
  }

  /** Whatever the input, a successful result starts with the same year field:
      the year is never decremented. */
  lemma PreviousDateKeepsYear(date: string)
    requires PreviousDate(date).Ok?
    ensures Split(PreviousDate(date).value, '-')[0] == Split(date, '-')[0]
  {
    var parts := Split(date, '-');
    var p := PreviousDate(date).value;
    var day: int := DigitsValue(parts[2]);
    var rest := if day == 1 then [Format02(DigitsValue(parts[1]) - 1), "31"] else [parts[1], Format02(day - 1)];
    assert [parts[0]] + rest == (if day == 1 then [parts[0], Format02(DigitsValue(parts[1]) - 1), "31"] else [parts[0], parts[1], Format02(day - 1)]);
    assert ([parts[0]] + rest)[1..] == rest;
    assert p == parts[0] + ['-'] + Join(rest, '-');
    SplitCons(parts[0], Join(rest, '-'), '-');
  }

  lemma ExampleFields(s: string, month: nat, day: nat)
    requires |s| == 10 && s[4] == '-' && s[7] == '-'
    requires forall i :: 0 <= i < 10 && i != 4 && i != 7 ==> IsDigit(s[i])
    requires 10 * DigitValue(s[5]) + DigitValue(s[6]) == month
    requires 10 * DigitValue(s[8]) + DigitValue(s[9]) == day
    ensures IsIsoDate(s) && Month(s) == month && Day(s) == day
  {
    assert IsDigits(s[..4]);
    TwoDigitsValue(s[5..7]);
    TwoDigitsValue(s[8..]);
  }

  /** March 1st of any year gives "February 31st" of that same year, leap
      year or not. */
  lemma MarchFirstRollsToFebruary31(year: string)
    requires |year| == 4 && IsDigits(year)
    ensures PreviousDate(year + "-03-01") == Ok(year + "-02-31")
  {
    var s := year + "-03-01";
    assert s[..4] == year;
    ExampleFields(s, 3, 1);
    PreviousDateOfFirst(s);
    assert Format02(2) == "02";
    assert s[..5] + "02" + "-31" == year + "-02-31";
  }

  /** January 1st of any year gives month "00" of the same year, not December
      31st of the year before. */
  lemma NewYearRollsToMonthZero(year: string)
    requires |year| == 4 && IsDigits(year)
    ensures PreviousDate(year + "-01-01") == Ok(year + "-00-31")
  {
    var s := year + "-01-01";
    assert s[..4] == year;
    ExampleFields(s, 1, 1);
    PreviousDateOfFirst(s);
    assert Format02(0) == "00";
    assert s[..5] + "00" + "-31" == year + "-00-31";
  }
}
