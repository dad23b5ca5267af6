/** The string operations the notebooks rely on: `int()` of a digit string,
    the `'{:02d}'` and `'{:2s}'` formats, and `str.split` / `str.join` on a
    single separator character. */
module Text {
  import opened Results

  predicate IsDigit(c: char) {
    '0' <= c <= '9'
  }

  /** A non-empty string of ASCII decimal digits. */
  predicate IsDigits(s: string) {
    |s| > 0 && forall i :: 0 <= i < |s| ==> IsDigit(s[i])
  }

  function DigitValue(c: char): nat
    requires IsDigit(c)
  {
    c as int - '0' as int
  }

  function DigitChar(n: nat): (c: char)
    requires n < 10
    ensures IsDigit(c) && DigitValue(c) == n
  {
    ('0' as int + n) as char
  }

  /** The number a string of decimal digits denotes. */
  function DigitsValue(s: string): nat
    requires forall i :: 0 <= i < |s| ==> IsDigit(s[i])
  {
    if |s| == 0 then 0 else 10 * DigitsValue(s[..|s| - 1]) + DigitValue(s[|s| - 1])
  }

  /** Python's `int(s)` for strings of ASCII digits; any other string raises. */
  function ParseInt(s: string): Result<int>
  {
    if IsDigits(s) then Ok(DigitsValue(s)) else Err(ValueError(s))
  }

  /** The decimal notation of `n`, without padding (Python's `str(n)`). */
  function Decimal(n: nat): (r: string)
    ensures IsDigits(r) && DigitsValue(r) == n
    ensures |r| == 1 <==> n < 10
    ensures n < 100 ==> |r| <= 2
    ensures r[0] != '0' || n == 0
  {
    if n < 10 then [DigitChar(n)]
    else
      var prefix := Decimal(n / 10);
      var r := prefix + [DigitChar(n % 10)];
      assert r[..|r| - 1] == prefix;
      r
  }

  /** Python's `'{:02d}'.format(n)`: zero-padded to width two, the sign counting
      towards the width, so a negative number is never padded. */
  function Format02(n: int): (r: string)
    ensures n >= 0 ==> IsDigits(r) && DigitsValue(r) == n
    ensures 0 <= n < 100 ==> |r| == 2
    ensures n < 0 ==> |r| >= 2 && r[0] == '-' && IsDigits(r[1..]) && DigitsValue(r[1..]) == -n
    ensures n >= 10 ==> r[0] != '0'
    ensures n < 0 ==> r[1] != '0'
  {
    if n < 0 then "-" + Decimal(-n)
    else if n < 10 then
      var r := "0" + Decimal(n);
      assert r[..1] == "0";
      r
    else Decimal(n)
  }

  /** Parsing and formatting round trip: every number reads back from its
      `'{:02d}'` text. */
  lemma ParseFormat02(n: nat)
    ensures ParseInt(Format02(n)) == Ok(n)
  {
  }

  /** The other direction: a two-digit field is reproduced exactly by
      formatting the number it denotes, leading zero included. */
  lemma {:induction false} Format02Parse(s: string)
    requires |s| == 2 && IsDigits(s)
    ensures Format02(DigitsValue(s)) == s
  {
    var hi, lo := DigitValue(s[0]), DigitValue(s[1]);
    TwoDigitsValue(s);
    assert DigitChar(lo) == s[1];
    if hi == 0 {
      assert s[0] == '0';
      assert Format02(lo) == "0" + [DigitChar(lo)];
    } else {
      assert DigitChar(hi) == s[0];
      assert Decimal(10 * hi + lo) == Decimal(hi) + [DigitChar(lo)];
    }
  }

  lemma TwoDigitsValue(s: string)
    requires |s| == 2 && IsDigits(s)
    ensures DigitsValue(s) == 10 * DigitValue(s[0]) + DigitValue(s[1])
  {
    assert s[..|s| - 1] == [s[0]];
    assert [s[0]][..0] == "";
    assert DigitsValue([s[0]]) == DigitValue(s[0]);
  }

  /** Python's `'{:2s}'.format(s)`: left-aligned, padded with spaces to width two. */
  function PadRight2(s: string): (r: string)
    ensures |r| == if |s| < 2 then 2 else |s|
    ensures r[..|s|] == s
    ensures forall i :: |s| <= i < |r| ==> r[i] == ' '
  {
    if |s| < 2 then s + seq(2 - |s|, _ => ' ') else s
  }

  /** Python's `sep.join(parts)`. */
  function Join(parts: seq<string>, sep: char): string
  {
    if |parts| == 0 then ""
    else if |parts| == 1 then parts[0]
    else parts[0] + [sep] + Join(parts[1..], sep)
  }

  /** Python's `s.split(sep)`: every occurrence of `sep` cuts, so there is one
      more part than there are separators, and joining the parts back gives `s`. */
  function Split(s: string, sep: char): (parts: seq<string>)
    ensures |parts| >= 1
    ensures forall i :: 0 <= i < |parts| ==> sep !in parts[i]
    ensures Join(parts, sep) == s
  {
    if |s| == 0 then [""]
    else
      var rest := Split(s[1..], sep);
      if s[0] == sep then
        assert s == [sep] + s[1..];
        [""] + rest
      else
        var parts := [[s[0]] + rest[0]] + rest[1..];
        assert parts[1..] == rest[1..];
        assert s == [s[0]] + s[1..];
        parts
  }

  /** A string splits into two or more parts exactly when it contains the
      separator. */
  lemma SplitFindsSeparator(s: string, sep: char)
    ensures |Split(s, sep)| >= 2 <==> sep in s
  {
    var parts := Split(s, sep);
    if |parts| >= 2 {
      assert s == parts[0] + [sep] + Join(parts[1..], sep);
      assert s[|parts[0]|] == sep;
    } else {
      assert s == parts[0];
    }
  }

  /** When the separator occurs, the second part is the text between its first
      occurrence and the next one (or the end). */
  lemma SplitSecondPart(s: string, sep: char)
    requires |Split(s, sep)| >= 2
    ensures var parts := Split(s, sep);
      var k := |parts[0]|;
      var m := k + 1 + |parts[1]|;
      && m <= |s|
      && s[..k] == parts[0]
      && s[k] == sep
      && s[k + 1..m] == parts[1]
      && (m == |s| || s[m] == sep)
  {
    var parts := Split(s, sep);
    var rest := parts[1..];
    assert s == parts[0] + [sep] + Join(rest, sep);
    if |rest| == 1 {
      SlicesAround(s, parts[0], sep, parts[1], []);
    } else {
      var tail := [sep] + Join(rest[1..], sep);
      assert Join(rest, sep) == parts[1] + tail;
      SlicesAround(s, parts[0], sep, parts[1], tail);
    }
  }

  /** The pieces of `s == a + [sep] + b + tail`, read back by position. */
  lemma SlicesAround(s: string, a: string, sep: char, b: string, tail: string)
    requires s == a + [sep] + (b + tail)
    ensures var m := |a| + 1 + |b|;
      && m <= |s|
      && s[..|a|] == a
      && s[|a|] == sep
      && s[|a| + 1..m] == b
      && s[m..] == tail
  {
    var m := |a| + 1 + |b|;
    assert s[|a| + 1..] == b + tail;
    assert s[|a| + 1..][..|b|] == b;
  }

  /** A string without the separator splits into itself alone. */
  lemma {:induction false} SplitWithout(p: string, sep: char)
    requires sep !in p
    ensures Split(p, sep) == [p]
  {
    if |p| > 0 {
      SplitWithout(p[1..], sep);
      assert [p[0]] + p[1..] == p;
    }
  }

  /** Splitting `p + sep + t`, where `p` has no separator, yields `p` and then
      the parts of `t`. */
  lemma {:induction false} SplitCons(p: string, t: string, sep: char)
    requires sep !in p
    ensures Split(p + [sep] + t, sep) == [p] + Split(t, sep)
  {
    if |p| == 0 {
      assert p + [sep] + t == [sep] + t;
      assert ([sep] + t)[1..] == t;
    } else {
      var s := p + [sep] + t;
      assert s[0] == p[0];
      assert s[1..] == p[1..] + [sep] + t;
      SplitCons(p[1..], t, sep);
      assert [p[0]] + p[1..] == p;
    }
  }

  /** Splitting undoes joining when no part holds the separator. */
  lemma {:induction false} SplitJoin(parts: seq<string>, sep: char)
    requires |parts| >= 1
    requires forall i :: 0 <= i < |parts| ==> sep !in parts[i]
    ensures Split(Join(parts, sep), sep) == parts
  {
    if |parts| == 1 {
      SplitWithout(parts[0], sep);
    } else {
      SplitJoin(parts[1..], sep);
      SplitCons(parts[0], Join(parts[1..], sep), sep);
      assert [parts[0]] + parts[1..] == parts;
    }
  }
}
