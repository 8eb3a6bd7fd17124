/** `calculate_age(dob_string)`: the leftmost date-shaped substring, read with the format
    `%d-%b-%Y`, and the number of whole years from that date to `today`. Every failure
    on the way (no match, a `ValueError` from `strptime`) is `None`. The clock is the
    parameter `today`. */
module AgeCalc {
  import opened Wrappers
  import opened DateSearch
  import opened Strptime

  /** `(a.month, a.day) < (b.month, b.day)`, Python's tuple comparison. */
  predicate EarlierInYear(a: Date, b: Date) {
    a.month < b.month || (a.month == b.month && a.day < b.day)
  }

  /** `a` is on or before `b` in calendar order. */
  predicate OnOrBefore(a: Date, b: Date) {
    a.year < b.year || (a.year == b.year && !EarlierInYear(b, a))
  }

  /** The `n`-th anniversary of `dob`, compared by its (year, month, day) only. */
  function Anniversary(dob: Date, n: int): Date {
    Date(dob.year + n, dob.month, dob.day)
  }

  /** The age expression, Python's `True`/`False` counting as 1/0. */
  function Age(today: Date, dob: Date): int {
    today.year - dob.year - (if EarlierInYear(today, dob) then 1 else 0)
  }

  /** The age is the number of anniversaries reached: the `Age`-th one is on or before
      `today` and the next one is after it. */
  lemma AgeIsAnniversariesReached(today: Date, dob: Date, n: int)
    ensures n <= Age(today, dob) <==> OnOrBefore(Anniversary(dob, n), today)
  {
    if EarlierInYear(today, dob) {
      assert !OnOrBefore(Anniversary(dob, today.year - dob.year), today);
    } else {
      assert OnOrBefore(Anniversary(dob, today.year - dob.year), today);
    }
  }

  /** A date of birth on or before `today` gives an age of at least 0. */
  lemma AgeNonNegative(today: Date, dob: Date)
    requires OnOrBefore(dob, today)
    ensures Age(today, dob) >= 0
  {
    AgeIsAnniversariesReached(today, dob, 0);
  }

  /** A birthday on `today` itself is counted as reached. */
  lemma BirthdayCounts(today: Date, dob: Date)
    requires today.month == dob.month && today.day == dob.day
    ensures Age(today, dob) == today.year - dob.year
  {
    assert !EarlierInYear(today, dob);
  }

  /** The age is 0 exactly in the year before the first birthday; a date of birth
      after `today` gives a negative age. */
  lemma AgeZeroIff(today: Date, dob: Date)
    ensures Age(today, dob) == 0 <==>
      OnOrBefore(dob, today) && !OnOrBefore(Anniversary(dob, 1), today)
    ensures !OnOrBefore(dob, today) ==> Age(today, dob) < 0
  {
    AgeIsAnniversariesReached(today, dob, 0);
    AgeIsAnniversariesReached(today, dob, 1);
    assert Anniversary(dob, 0) == dob;
  }

  /** `s[p..e]` is the match `re.search` returns: the pattern matches there and at no
      earlier position. */
  predicate LeftmostMatch(s: string, p: int, e: int) {
    0 <= p <= e <= |s| && MatchSpan(s, p, e) && forall q :: 0 <= q < p ==> !MatchesAt(s, q)
  }

  /** What `calculate_age` returns once `m` is the matched text: `strptime` and the age
      expression, `None` for the `ValueError` of a text `strptime` rejects. */
  function ReadAge(m: string, today: Date): Option<int> {
    match ParseDayMonYear(m)
    case None => None
    case Some(dob) => Some(Age(today, dob))
  }

  /** `calculate_age(s)` with `datetime.today()` replaced by `today`. */
  function CalculateAge(s: string, today: Date): (r: Option<int>)
    ensures (forall q :: 0 <= q <= |s| ==> !MatchesAt(s, q)) ==> r == None
    ensures forall p, e :: LeftmostMatch(s, p, e) ==> r == ReadAge(s[p..e], today)
  {
    LeftmostIsFirst(s);
    match FirstMatch(s)
    case None => None
    case Some((p, e)) =>
      MatchSpanBounds(s, p, e);
      ReadAge(s[p..e], today)
  }

  /** The leftmost match is the one `FirstMatch` finds, and there is one whenever the
      pattern matches anywhere. */
  lemma LeftmostIsFirst(s: string)
    ensures forall p, e :: LeftmostMatch(s, p, e) <==> FirstMatch(s) == Some((p, e))
  {
    forall p, e ensures LeftmostMatch(s, p, e) <==> FirstMatch(s) == Some((p, e)) {
      if FirstMatch(s) == Some((p, e)) {
        MatchSpanBounds(s, p, e);
      }
      if LeftmostMatch(s, p, e) {
        MatchSpanMatches(s, p, e);
        assert FirstMatch(s).Some?;
        var (p', e') := FirstMatch(s).value;
        MatchSpanBounds(s, p', e');
        MatchSpanMatches(s, p', e');
        assert p' == p;
        MatchSpanUnique(s, p, e, e');
      }
    }
  }

  /** A value with no date-shaped text anywhere gives no age. */
  lemma NoDateNoAge(s: string, today: Date)
    requires forall q :: 0 <= q <= |s| ==> !MatchesAt(s, q)
    ensures CalculateAge(s, today) == None
  {
    assert FirstMatch(s).None?;
  }

  /** The match found at `p` by the pattern's second alternative: `p` is leftmost and the
      text there is `YYYY-MM-DD` or `YYYY/MM/DD`. */
  lemma YearFirstNoAge(s: string, p: int, today: Date)
    requires YearMonthDayAt(s, p) && forall q :: 0 <= q < p ==> !MatchesAt(s, q)
    ensures CalculateAge(s, today) == None
  {
    assert MatchSpan(s, p, p + 10);
    assert LeftmostMatch(s, p, p + 10);
    YearFirstNeverParses(s, p);
  }

  /** A ten-character value in a numeric format such as `DD-MM-YYYY` or `MM/DD/YYYY`
      gives no age: its month field has two characters, where the pattern's word needs
      at least three, so nothing matches. */
  lemma NumericMonthNoAge(s: string, today: Date)
    requires |s| == 10 && AllDigits(s, 0, 2) && IsSep(s[2]) && AllDigits(s, 3, 5) && IsSep(s[5])
    requires AllDigits(s, 6, 10)
    ensures CalculateAge(s, today) == None
  {
    forall q | 0 <= q <= |s| ensures !MatchesAt(s, q) {
      if q == 0 {
        assert IsDigit(s[1]) && !IsDigit(s[2]) && !IsWordChar(s[5]);
      }
    }
    NoDateNoAge(s, today);
  }

  /** `15-06-1990`, in the format `DD-MM-YYYY` the comment of `calculate_age` names,
      gives no age. */
  lemma DayMonthYearNoAge(today: Date)
    ensures CalculateAge("15-06-1990", today) == None
  {
    NumericMonthNoAge("15-06-1990", today);
  }

  /** `06/15/1990`, in the format `MM/DD/YYYY`, gives no age. */
  lemma MonthDayYearNoAge(today: Date)
    ensures CalculateAge("06/15/1990", today) == None
  {
    NumericMonthNoAge("06/15/1990", today);
  }

  /** `1990-06-15`, in the format `YYYY-MM-DD`, is found but rejected by `strptime`. */
  lemma YearMonthDayNoAge(today: Date)
    ensures CalculateAge("1990-06-15", today) == None
  {
    YearFirstNoAge("1990-06-15", 0, today);
  }

  /** A leftmost match containing a slash gives no age. */
  lemma SlashDateNoAge(s: string, p: int, e: int, i: int, today: Date)
    requires LeftmostMatch(s, p, e) && p <= i < e && s[i] == '/'
    ensures CalculateAge(s, today) == None
  {
    assert s[p..e][i - p] == '/';
    SlashNeverParses(s[p..e], i - p);
  }

  /** A leftmost match whose month is written other than in three letters (`January`,
      `Sept`) gives no age. */
  lemma LongMonthNoAge(s: string, p: int, d: int, k: int, today: Date)
    requires DayWordYearAt(s, p, d, k) && k != 3 && forall q :: 0 <= q < p ==> !MatchesAt(s, q)
    ensures CalculateAge(s, today) == None
  {
    assert MatchSpan(s, p, p + d + k + 6);
    assert LeftmostMatch(s, p, p + d + k + 6);
    LongMonthNeverParses(s, p, d, k);
  }

  /** A leftmost match in the format whose day does not exist in its month (`31-Feb-2020`,
      `29-Feb-2023`) gives no age. */
  lemma InvalidDayNoAge(s: string, p: int, e: int, today: Date)
    requires LeftmostMatch(s, p, e)
    requires FormatFields(s[p..e]).Some?
    requires var (day, month, year) := FormatFields(s[p..e]).value;
      1 <= month <= 12 && day > DaysInMonth(year, month)
    ensures CalculateAge(s, today) == None
  {
    assert ParseDayMonYear(s[p..e]) == None;
  }

  /** A date written as the format expects it, after text without digits, is found and
      read: the result is the age at that date of birth. */
  lemma AgeOfWrittenDate(prefix: string, dob: Date, suffix: string, today: Date)
    requires ValidDate(dob)
    requires forall i :: 0 <= i < |prefix| ==> !IsDigit(prefix[i])
    ensures CalculateAge(prefix + Format(dob) + suffix, today) == Some(Age(today, dob))
  {
    var s := prefix + Format(dob) + suffix;
    var p := |prefix|;
    WrittenDateMatches(prefix, dob, suffix);
    assert s[p..p + 11] == Format(dob);
    ParseFormat(dob);
  }

  lemma WrittenDateMatches(prefix: string, dob: Date, suffix: string)
    requires ValidDate(dob)
    requires forall i :: 0 <= i < |prefix| ==> !IsDigit(prefix[i])
    ensures LeftmostMatch(prefix + Format(dob) + suffix, |prefix|, |prefix| + 11)
  {
    var f := Format(dob);
    var s := prefix + f + suffix;
    var p := |prefix|;
    FormatShape(dob);
    assert forall i :: 0 <= i < 11 ==> s[p + i] == f[i];
    assert AllDigits(s, p, p + 2) by { assert s[p] == f[0] && s[p + 1] == f[1]; }
    assert AllWord(s, p + 3, p + 6) by {
      assert s[p + 3] == f[3] && s[p + 4] == f[4] && s[p + 5] == f[5];
    }
    assert AllDigits(s, p + 7, p + 11) by {
      assert s[p + 7] == f[7] && s[p + 8] == f[8] && s[p + 9] == f[9] && s[p + 10] == f[10];
    }
    assert DayWordYearAt(s, p, 2, 3);
    assert MatchSpan(s, p, p + 11);
    forall q | 0 <= q < p ensures !MatchesAt(s, q) {
      assert s[q] == prefix[q];
    }
  }

  /** The written form has the shape of the pattern's first alternative. */
  lemma FormatShape(dob: Date)
    requires ValidDate(dob)
    ensures var f := Format(dob);
      |f| == 11 && AllDigits(f, 0, 2) && f[2] == '-' && AllWord(f, 3, 6) && f[6] == '-'
      && AllDigits(f, 7, 11)
  {
    Pad2Day(dob.day);
    Pad4Year(dob.year);
    MonthTitleLetters(dob.month);
    PartsShape(Pad2(dob.day), MonthTitle(dob.month), Pad4(dob.year));
  }

  lemma MonthTitleLetters(m: int)
    requires 1 <= m <= 12
    ensures |MonthTitle(m)| == 3 && forall i :: 0 <= i < 3 ==> IsWordChar(MonthTitle(m)[i])
  {
    MonthNamesShape();
    var name := MonthNames[m - 1];
    assert MonthTitle(m) == [UpperChar(name[0]), name[1], name[2]];
  }

  lemma PartsShape(day: string, mon: string, year: string)
    requires |day| == 2 && IsDigit(day[0]) && IsDigit(day[1])
    requires |mon| == 3 && forall i :: 0 <= i < 3 ==> IsWordChar(mon[i])
    requires |year| == 4 && forall i :: 0 <= i < 4 ==> IsDigit(year[i])
    ensures var f := day + "-" + mon + "-" + year;
      |f| == 11 && AllDigits(f, 0, 2) && f[2] == '-' && AllWord(f, 3, 6) && f[6] == '-'
      && AllDigits(f, 7, 11)
  {
    var f := day + "-" + mon + "-" + year;
    assert forall t :: 0 <= t < 2 ==> f[t] == day[t];
    assert forall t :: 3 <= t < 6 ==> f[t] == mon[t - 3];
    assert forall t :: 7 <= t < 11 ==> f[t] == year[t - 7];
  }
}
