/** The date search at the start of `calculate_age`: `re.search` with the pattern
    `(\d{1,2}[-/]\w{3,9}[-/]\d{4}|\d{4}[-/]\d{2}[-/]\d{2})`, giving the span of the
    leftmost match. `\d` and `\w` are taken over ASCII. */
module DateSearch {
  import opened Wrappers

  /** `\d` */
  predicate IsDigit(c: char) {
    '0' <= c <= '9'
  }

  /** `\w` */
  predicate IsWordChar(c: char) {
    IsDigit(c) || ('a' <= c <= 'z') || ('A' <= c <= 'Z') || c == '_'
  }

  /** `[-/]` */
  predicate IsSep(c: char) {
    c == '-' || c == '/'
  }

  predicate AllDigits(s: string, i: int, j: int)
    requires 0 <= i <= j <= |s|
  {
    forall t :: i <= t < j ==> IsDigit(s[t])
  }

  predicate AllWord(s: string, i: int, j: int)
    requires 0 <= i <= j <= |s|
  {
    forall t :: i <= t < j ==> IsWordChar(s[t])
  }

  /** The first alternative `\d{1,2}[-/]\w{3,9}[-/]\d{4}` matches at `p` taking `d`
      digits and a word of `k` characters. */
  predicate DayWordYearAt(s: string, p: int, d: int, k: int) {
    0 <= p && 1 <= d <= 2 && 3 <= k <= 9 && p + d + k + 6 <= |s|
    && AllDigits(s, p, p + d) && IsSep(s[p + d])
    && AllWord(s, p + d + 1, p + d + 1 + k) && IsSep(s[p + d + 1 + k])
    && AllDigits(s, p + d + k + 2, p + d + k + 6)
  }

  /** The second alternative `\d{4}[-/]\d{2}[-/]\d{2}` matches at `p`. */
  predicate YearMonthDayAt(s: string, p: int) {
    0 <= p && p + 10 <= |s|
    && AllDigits(s, p, p + 4) && IsSep(s[p + 4])
    && AllDigits(s, p + 5, p + 7) && IsSep(s[p + 7])
    && AllDigits(s, p + 8, p + 10)
  }

  /** The pattern matches `s[p..e]`. */
  predicate MatchSpan(s: string, p: int, e: int) {
    (exists d, k :: 1 <= d <= 2 && 3 <= k <= 9 && DayWordYearAt(s, p, d, k) && e == p + d + k + 6)
    || (YearMonthDayAt(s, p) && e == p + 10)
  }

  /** The pattern matches somewhere starting at `p`. */
  predicate MatchesAt(s: string, p: int) {
    (exists d, k :: 1 <= d <= 2 && 3 <= k <= 9 && DayWordYearAt(s, p, d, k)) || YearMonthDayAt(s, p)
  }

  /** The number of digits in the run starting at `i`. */
  function DigitRun(s: string, i: int): (n: nat)
    requires 0 <= i <= |s|
    ensures i + n <= |s| && AllDigits(s, i, i + n)
    ensures i + n == |s| || !IsDigit(s[i + n])
    decreases |s| - i
  {
    if i < |s| && IsDigit(s[i]) then 1 + DigitRun(s, i + 1) else 0
  }

  /** The number of word characters in the run starting at `i`. */
  function WordRun(s: string, i: int): (n: nat)
    requires 0 <= i <= |s|
    ensures i + n <= |s| && AllWord(s, i, i + n)
    ensures i + n == |s| || !IsWordChar(s[i + n])
    decreases |s| - i
  {
    if i < |s| && IsWordChar(s[i]) then 1 + WordRun(s, i + 1) else 0
  }

  lemma DigitRunExact(s: string, i: int, n: int)
    requires 0 <= i && 0 <= n && i + n <= |s| && AllDigits(s, i, i + n)
    requires i + n == |s| || !IsDigit(s[i + n])
    ensures DigitRun(s, i) == n
  {
  }

  lemma WordRunExact(s: string, i: int, n: int)
    requires 0 <= i && 0 <= n && i + n <= |s| && AllWord(s, i, i + n)
    requires i + n == |s| || !IsWordChar(s[i + n])
    ensures WordRun(s, i) == n
  {
  }

  /** A separator is neither a digit nor a word character, so the first alternative
      can only take the whole digit run and the whole word run: its split is unique. */
  lemma DayWordYearSplit(s: string, p: int, d: int, k: int)
    requires DayWordYearAt(s, p, d, k)
    ensures d == DigitRun(s, p) && k == WordRun(s, p + d + 1)
  {
    DigitRunExact(s, p, d);
    WordRunExact(s, p + d + 1, k);
  }

  /** The end of a match of the first alternative at `p`: its digits and its word
      must be whole runs, followed by separators. */
  function DayWordYearEnd(s: string, p: int): (r: Option<int>)
    requires 0 <= p <= |s|
    ensures r.Some? ==> p + DigitRun(s, p) < |s|
    ensures r.Some? ==> DayWordYearAt(s, p, DigitRun(s, p), WordRun(s, p + DigitRun(s, p) + 1))
    ensures r.Some? ==> r.value == p + DigitRun(s, p) + WordRun(s, p + DigitRun(s, p) + 1) + 6
  {
    var d := DigitRun(s, p);
    if 1 <= d <= 2 && p + d < |s| && IsSep(s[p + d]) then
      var q := p + d + 1;
      var k := WordRun(s, q);
      if 3 <= k <= 9 && q + k + 5 <= |s| && IsSep(s[q + k]) && AllDigits(s, q + k + 1, q + k + 5) then
        Some(q + k + 5)
      else
        None
    else
      None
  }

  /** Every match of the first alternative is the one `DayWordYearEnd` finds. */
  lemma DayWordYearEndComplete(s: string, p: int, d: int, k: int)
    requires DayWordYearAt(s, p, d, k)
    ensures DayWordYearEnd(s, p) == Some(p + d + k + 6)
  {
    DayWordYearSplit(s, p, d, k);
  }

  /** The end of the match the regular expression engine finds at `p`, trying the
      first alternative before the second. */
  function MatchAt(s: string, p: int): (r: Option<int>)
    requires 0 <= p <= |s|
    ensures r.Some? ==> MatchSpan(s, p, r.value)
  {
    match DayWordYearEnd(s, p)
    case Some(e) => Some(e)
    case None => if YearMonthDayAt(s, p) then Some(p + 10) else None
  }

  /** The engine finds a match at `p` whenever the pattern matches there. */
  lemma MatchAtComplete(s: string, p: int)
    requires 0 <= p <= |s|
    ensures MatchAt(s, p).Some? <==> MatchesAt(s, p)
  {
    if exists d, k :: 1 <= d <= 2 && 3 <= k <= 9 && DayWordYearAt(s, p, d, k) {
      var d, k :| 1 <= d <= 2 && 3 <= k <= 9 && DayWordYearAt(s, p, d, k);
      DayWordYearEndComplete(s, p, d, k);
    }
  }

  /** At any position the pattern matches at most one span: the order in which the
      engine tries the alternatives and repetition counts cannot change the result. */
  lemma MatchSpanUnique(s: string, p: int, e1: int, e2: int)
    requires MatchSpan(s, p, e1) && MatchSpan(s, p, e2)
    ensures e1 == e2
  {
    if YearMonthDayAt(s, p) {
      assert forall d, k :: !DayWordYearAt(s, p, d, k) by {
        forall d, k ensures !DayWordYearAt(s, p, d, k) {
          assert (1 <= d <= 2 && p + d < |s|) ==> IsDigit(s[p + d]);
        }
      }
    } else {
      var d, k :| DayWordYearAt(s, p, d, k) && e1 == p + d + k + 6;
      DayWordYearSplit(s, p, d, k);
      var d', k' :| DayWordYearAt(s, p, d', k') && e2 == p + d' + k' + 6;
      DayWordYearSplit(s, p, d', k');
    }
  }

  /** `re.search` from position `from` on: the leftmost match at or after `from`. */
  function SearchFrom(s: string, from: int): (r: Option<(int, int)>)
    requires 0 <= from <= |s|
    ensures r.Some? ==> from <= r.value.0 && MatchSpan(s, r.value.0, r.value.1) && MatchesAt(s, r.value.0)
    ensures r.Some? ==> forall q :: from <= q < r.value.0 ==> !MatchesAt(s, q)
    ensures r.None? ==> forall q :: from <= q <= |s| ==> !MatchesAt(s, q)
    decreases |s| - from
  {
    MatchAtComplete(s, from);
    match MatchAt(s, from)
    case Some(e) => Some((from, e))
    case None => if from == |s| then None else SearchFrom(s, from + 1)
  }

  /** `re.search(pattern, s)`: the span `(start, end)` of the leftmost match. */
  function FirstMatch(s: string): (r: Option<(int, int)>)
    ensures r.Some? ==> MatchSpan(s, r.value.0, r.value.1) && forall q :: 0 <= q < r.value.0 ==> !MatchesAt(s, q)
    ensures r.None? <==> forall q :: 0 <= q <= |s| ==> !MatchesAt(s, q)
  {
    SearchFrom(s, 0)
  }

  /** A match always lies inside the searched string and is at least ten characters
      long. */
  lemma MatchSpanBounds(s: string, p: int, e: int)
    requires MatchSpan(s, p, e)
    ensures 0 <= p && p + 10 <= e <= |s|
  {
  }

  lemma MatchSpanMatches(s: string, p: int, e: int)
    requires MatchSpan(s, p, e)
    ensures MatchesAt(s, p)
  {
    if !YearMonthDayAt(s, p) {
      var d, k :| 1 <= d <= 2 && 3 <= k <= 9 && DayWordYearAt(s, p, d, k) && e == p + d + k + 6;
    }
  }
}
