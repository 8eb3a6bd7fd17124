/** `datetime.strptime(text, "%d-%b-%Y")` as `calculate_age` uses it: the text must be
    a day, an English month abbreviation and a four-digit year joined by `-`, with
    nothing left over, and must name a real date of the proleptic Gregorian calendar
    in the years 1 to 9999. */
module Strptime {
  import opened Wrappers
  import opened DateSearch

  /** A calendar date as `datetime` holds it. */
  datatype Date = Date(year: int, month: int, day: int)

  predicate IsLeap(y: int) {
    y % 4 == 0 && (y % 100 != 0 || y % 400 == 0)
  }

  function DaysInMonth(y: int, m: int): (n: int)
    requires 1 <= m <= 12
    ensures 28 <= n <= 31
  {
    if m == 2 then (if IsLeap(y) then 29 else 28)
    else if m == 4 || m == 6 || m == 9 || m == 11 then 30
    else 31
  }

  /** The dates `datetime` accepts: `MINYEAR` is 1 and `MAXYEAR` is 9999. */
  predicate ValidDate(d: Date) {
    1 <= d.year <= 9999 && 1 <= d.month <= 12 && 1 <= d.day <= DaysInMonth(d.year, d.month)
  }

  /** The month abbreviations of the C locale, lower-cased, as `%b` compares them. */
  const MonthNames: seq<string> :=
    ["jan", "feb", "mar", "apr", "may", "jun", "jul", "aug", "sep", "oct", "nov", "dec"]

  function LowerChar(c: char): char {
    if 'A' <= c <= 'Z' then (c as int + 32) as char else c
  }

  function Lower(t: string): (r: string)
    ensures |r| == |t| && forall i :: 0 <= i < |t| ==> r[i] == LowerChar(t[i])
  {
    seq(|t|, i requires 0 <= i < |t| => LowerChar(t[i]))
  }

  function FindMonth(lt: string, i: nat): (r: Option<int>)
    requires i <= 12
    ensures r.Some? ==> i < r.value <= 12 && MonthNames[r.value - 1] == lt
    ensures r.None? ==> forall j :: i <= j < 12 ==> MonthNames[j] != lt
    decreases 12 - i
  {
    if i == 12 then None else if MonthNames[i] == lt then Some(i + 1) else FindMonth(lt, i + 1)
  }

  /** The month number `%b` reads from `t`, compared without regard to case. */
  function MonthNumber(t: string): (r: Option<int>)
    ensures r.Some? ==> 1 <= r.value <= 12 && Lower(t) == MonthNames[r.value - 1]
    ensures r.None? ==> forall j :: 0 <= j < 12 ==> Lower(t) != MonthNames[j]
  {
    FindMonth(Lower(t), 0)
  }

  /** The text `t` matches the `%d` pattern `3[01]|[12]\d|0[1-9]|[1-9]| [1-9]` entirely. */
  predicate DayToken(t: string) {
    (|t| == 2 && t[0] == '3' && (t[1] == '0' || t[1] == '1'))
    || (|t| == 2 && (t[0] == '1' || t[0] == '2') && IsDigit(t[1]))
    || (|t| == 2 && t[0] == '0' && '1' <= t[1] <= '9')
    || (|t| == 1 && '1' <= t[0] <= '9')
    || (|t| == 2 && t[0] == ' ' && '1' <= t[1] <= '9')
  }

  function DigitValue(c: char): (n: int)
    ensures IsDigit(c) ==> 0 <= n <= 9
  {
    c as int - '0' as int
  }

  /** `int(t)` for a string of decimal digits. */
  function DigitsValue(t: string): (n: nat)
    requires forall i :: 0 <= i < |t| ==> IsDigit(t[i])
    decreases |t|
  {
    if |t| == 0 then 0 else DigitsValue(t[..|t| - 1]) * 10 + DigitValue(t[|t| - 1])
  }

  /** The number a `%d` token stands for, the optional leading blank ignored. */
  function DayValue(t: string): (n: int)
    requires DayToken(t)
    ensures 1 <= n <= 31
  {
    if |t| == 1 then DigitValue(t[0])
    else if t[0] == ' ' then DigitValue(t[1])
    else DigitValue(t[0]) * 10 + DigitValue(t[1])
  }

  /** The pattern `%d-%b-%Y` matched over the whole of `m` with a day token of `n`
      characters: the fields (day, month, year) it reads. */
  function FieldsWithDayWidth(m: string, n: int): (r: Option<(int, int, int)>)
    requires n == 1 || n == 2
  {
    if |m| == n + 9 && DayToken(m[..n]) && m[n] == '-' && MonthNumber(m[n + 1..n + 4]).Some?
       && m[n + 4] == '-' && (forall i :: n + 5 <= i < |m| ==> IsDigit(m[i]))
    then
      Some((DayValue(m[..n]), MonthNumber(m[n + 1..n + 4]).value, DigitsValue(m[n + 5..])))
    else
      None
  }

  /** The fields `%d-%b-%Y` reads from `m`, or `None` when the pattern does not match
      or leaves characters unconverted. The two-character day alternatives come first,
      as in the pattern. */
  function FormatFields(m: string): Option<(int, int, int)> {
    if FieldsWithDayWidth(m, 2).Some? then FieldsWithDayWidth(m, 2) else FieldsWithDayWidth(m, 1)
  }

  /** `datetime.strptime(m, "%d-%b-%Y")`, with `None` for the `ValueError` it raises. */
  function ParseDayMonYear(m: string): (r: Option<Date>)
    ensures r.Some? ==> ValidDate(r.value)
  {
    match FormatFields(m)
    case None => None
    case Some((d, mo, y)) => if ValidDate(Date(y, mo, d)) then Some(Date(y, mo, d)) else None
  }

  function DigitChar(k: int): (c: char)
    requires 0 <= k <= 9
    ensures IsDigit(c) && DigitValue(c) == k
  {
    ('0' as int + k) as char
  }

  /** Day-of-month written with two digits, "%02d". */
  function Pad2(n: int): string
    requires 0 <= n <= 99
  {
    [DigitChar(n / 10), DigitChar(n % 10)]
  }

  /** Year written with four digits, "%04d". */
  function Pad4(n: int): string
    requires 0 <= n <= 9999
  {
    Pad2(n / 100) + Pad2(n % 100)
  }

  function UpperChar(c: char): char {
    if 'a' <= c <= 'z' then (c as int - 32) as char else c
  }

  /** The abbreviation as `strftime("%b")` writes it, e.g. `Jan`. */
  function MonthTitle(m: int): string
    requires 1 <= m <= 12
  {
    [UpperChar(MonthNames[m - 1][0])] + MonthNames[m - 1][1..]
  }

  /** A date written the way the format expects it, e.g. `01-Jan-1980`. */
  function Format(d: Date): string
    requires ValidDate(d)
  {
    Pad2(d.day) + "-" + MonthTitle(d.month) + "-" + Pad4(d.year)
  }

  lemma MonthNamesShape()
    ensures forall j :: 0 <= j < 12 ==> |MonthNames[j]| == 3
    ensures forall j, i :: 0 <= j < 12 && 0 <= i < |MonthNames[j]| ==> 'a' <= MonthNames[j][i] <= 'z'
    ensures forall i, j :: 0 <= i < j < 12 ==> MonthNames[i] != MonthNames[j]
  {
  }

  lemma MonthTitleNumber(m: int)
    requires 1 <= m <= 12
    ensures MonthNumber(MonthTitle(m)) == Some(m)
  {
    MonthNamesShape();
    var name := MonthNames[m - 1];
    var t := MonthTitle(m);
    assert Lower(t) == name by {
      assert |t| == 3;
      assert LowerChar(t[0]) == name[0];
      assert t[1] == name[1] && t[2] == name[2];
    }
    MonthFound(t, m);
  }

  lemma DigitsValue4(t: string)
    requires |t| == 4 && forall i :: 0 <= i < 4 ==> IsDigit(t[i])
    ensures DigitsValue(t) == DigitValue(t[0]) * 1000 + DigitValue(t[1]) * 100 + DigitValue(t[2]) * 10 + DigitValue(t[3])
  {
    var t1, t2, t3 := t[..1], t[..2], t[..3];
    assert t1[..0] == [];
    assert DigitsValue(t1) == DigitValue(t[0]);
    assert t2[..1] == t1;
    assert DigitsValue(t2) == DigitValue(t[0]) * 10 + DigitValue(t[1]);
    assert t3[..2] == t2;
    assert DigitsValue(t3) == DigitValue(t[0]) * 100 + DigitValue(t[1]) * 10 + DigitValue(t[2]);
    assert t[..3] == t3;
  }

  lemma Pad2Day(n: int)
    requires 1 <= n <= 31
    ensures DayToken(Pad2(n)) && DayValue(Pad2(n)) == n
  {
    var t := Pad2(n);
    assert DigitValue(t[0]) == n / 10 && DigitValue(t[1]) == n % 10;
  }

  lemma Pad4Year(n: int)
    requires 0 <= n <= 9999
    ensures forall i :: 0 <= i < |Pad4(n)| ==> IsDigit(Pad4(n)[i])
    ensures DigitsValue(Pad4(n)) == n
  {
    var hi, lo := n / 100, n % 100;
    var t := Pad4(n);
    assert t == [DigitChar(hi / 10), DigitChar(hi % 10), DigitChar(lo / 10), DigitChar(lo % 10)];
    DigitsValue4(t);
    assert DigitsValue(t) == (hi / 10 * 10 + hi % 10) * 100 + (lo / 10 * 10 + lo % 10);
  }

  /** Parsing a written date gives the date back. */
  lemma ParseFormat(d: Date)
    requires ValidDate(d)
    ensures ParseDayMonYear(Format(d)) == Some(d)
  {
    var day, mon, year := Pad2(d.day), MonthTitle(d.month), Pad4(d.year);
    var m := day + "-" + mon + "-" + year;
    assert m == Format(d);
    Pad2Day(d.day);
    MonthTitleNumber(d.month);
    Pad4Year(d.year);
    assert m[..2] == day && m[3..6] == mon && m[7..] == year;
    assert m[2] == '-' && m[6] == '-';
    assert forall i :: 7 <= i < |m| ==> IsDigit(m[i]) by {
      forall i | 7 <= i < |m| ensures IsDigit(m[i]) { assert m[i] == year[i - 7]; }
    }
    assert FieldsWithDayWidth(m, 2) == Some((d.day, d.month, d.year));
  }

  /** `m` is the date `d` written in the format `%d-%b-%Y`: a day token of one or two
      characters naming the day, `-`, the month's abbreviation in any case, `-`, and four
      digits naming the year. */
  predicate WrittenAs(m: string, d: Date) {
    (|m| == 10 || |m| == 11)
    && var n := |m| - 9;
    DayToken(m[..n]) && DayValue(m[..n]) == d.day && m[n] == '-'
    && 1 <= d.month <= 12 && Lower(m[n + 1..n + 4]) == MonthNames[d.month - 1] && m[n + 4] == '-'
    && (forall i :: n + 5 <= i < |m| ==> IsDigit(m[i])) && DigitsValue(m[n + 5..]) == d.year
  }

  /** A parsed text is the parsed date written in the format, up to the case of the
      month letters and the padding of the day. */
  lemma ParseSound(m: string, d: Date)
    requires ParseDayMonYear(m) == Some(d)
    ensures ValidDate(d) && WrittenAs(m, d)
  {
  }

  /** Every way of writing a valid date in the format parses to that date: the day with
      or without its leading zero or blank, the month in any case. */
  lemma ParseComplete(m: string, d: Date)
    requires ValidDate(d) && WrittenAs(m, d)
    ensures ParseDayMonYear(m) == Some(d)
  {
    var n := |m| - 9;
    WrittenFields(m, d);
    if n == 1 {
      assert FieldsWithDayWidth(m, 2) == None;
    }
    assert FormatFields(m) == Some((d.day, d.month, d.year));
  }

  lemma WrittenFields(m: string, d: Date)
    requires WrittenAs(m, d)
    ensures FieldsWithDayWidth(m, |m| - 9) == Some((d.day, d.month, d.year))
  {
    var n := |m| - 9;
    MonthFound(m[n + 1..n + 4], d.month);
  }

  /** A month abbreviation in any case reads as its number. */
  lemma MonthFound(t: string, month: int)
    requires 1 <= month <= 12 && Lower(t) == MonthNames[month - 1]
    ensures MonthNumber(t) == Some(month)
  {
    MonthNamesShape();
    var r := MonthNumber(t);
    assert r.Some?;
    assert MonthNames[r.value - 1] == MonthNames[month - 1];
  }

  /** `strptime` reads a one-digit day and a month in lower or upper case. */
  lemma ParseVariants()
    ensures ParseDayMonYear("1-jan-2000") == Some(Date(2000, 1, 1))
    ensures ParseDayMonYear("01-JAN-1980") == Some(Date(1980, 1, 1))
  {
    var a, b := "1-jan-2000", "01-JAN-1980";
    assert Lower(a[2..5]) == "jan";
    assert DigitsValue(a[6..]) == 2000 by { DigitsValue4(a[6..]); }
    ParseComplete(a, Date(2000, 1, 1));
    assert Lower(b[3..6]) == "jan";
    assert DigitsValue(b[7..]) == 1980 by { DigitsValue4(b[7..]); }
    ParseComplete(b, Date(1980, 1, 1));
  }

  /** `strptime` never accepts a slash: both separators of the format are `-`. */
  lemma SlashNeverParses(m: string, i: int)
    requires 0 <= i < |m| && m[i] == '/'
    ensures ParseDayMonYear(m) == None
  {
    NoSlashInFields(m, 2, i);
    NoSlashInFields(m, 1, i);
  }

  lemma NoSlashInFields(m: string, n: int, i: int)
    requires n == 1 || n == 2
    requires 0 <= i < |m| && m[i] == '/'
    ensures FieldsWithDayWidth(m, n) == None
  {
    if |m| == n + 9 && DayToken(m[..n]) && m[n] == '-' && MonthNumber(m[n + 1..n + 4]).Some? && m[n + 4] == '-' {
      if n + 1 <= i < n + 4 {
        MonthNoSlash(m[n + 1..n + 4], i - n - 1);
      } else if i < n {
        assert m[..n][i] == '/';
      }
    }
  }

  lemma MonthNoSlash(t: string, i: int)
    requires 0 <= i < |t| && t[i] == '/'
    ensures MonthNumber(t) == None
  {
    MonthNamesShape();
    assert Lower(t)[i] == '/';
  }

  /** A match of the pattern's second alternative (`YYYY-MM-DD` or `YYYY/MM/DD`) never
      parses under `%d-%b-%Y`. */
  lemma YearFirstNeverParses(s: string, p: int)
    requires YearMonthDayAt(s, p)
    ensures ParseDayMonYear(s[p..p + 10]) == None
  {
    var m := s[p..p + 10];
    assert IsDigit(m[1]) && IsDigit(m[2]);
  }

  /** A match of the first alternative whose month word is not three letters long
      (`January`, `Sept`) never parses. */
  lemma LongMonthNeverParses(s: string, p: int, d: int, k: int)
    requires DayWordYearAt(s, p, d, k) && k != 3
    ensures ParseDayMonYear(s[p..p + d + k + 6]) == None
  {
    var m := s[p..p + d + k + 6];
    assert forall i :: 0 <= i < d ==> m[i] == s[p + i];
    assert m[d] == s[p + d];
    if ParseDayMonYear(m).Some? {
      ParseSound(m, ParseDayMonYear(m).value);
    }
  }
}
