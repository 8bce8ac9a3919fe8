/** The date handling of the crawl filter: the leftmost `\d+\.\d+\.\d+` of an
    index item's text, `datetime.strptime(..., "%d.%m.%Y")` on it, the
    proleptic Gregorian day number `toordinal()`, and the four-year age test. */
module Dates {
  import opened Common
  import opened Text
  import Search

  /** A calendar date as `datetime.date` holds it. */
  datatype Date = Date(year: int, month: int, day: int)

  predicate IsLeap(y: int) {
    y % 4 == 0 && (y % 100 != 0 || y % 400 == 0)
  }

  function DaysInMonth(y: int, m: int): (n: int)
    requires 1 <= m <= 12
    ensures 28 <= n <= 31
    ensures n == 29 <==> m == 2 && IsLeap(y)
  {
    if m == 2 then (if IsLeap(y) then 29 else 28)
    else if m == 4 || m == 6 || m == 9 || m == 11 then 30
    else 31
  }

  /** What the `datetime` constructor accepts. */
  predicate ValidDate(d: Date) {
    1 <= d.year <= 9999 && 1 <= d.month <= 12 && 1 <= d.day <= DaysInMonth(d.year, d.month)
  }

  /** Days in the years before `y`, counting from year 1. */
  function DaysBeforeYear(y: int): int
    requires y >= 1
  {
    var p := y - 1;
    p * 365 + p / 4 - p / 100 + p / 400
  }

  /** Days in the months of year `y` before month `m`. */
  function DaysBeforeMonth(y: int, m: int): int
    requires 1 <= m <= 13
  {
    if m == 1 then 0 else DaysBeforeMonth(y, m - 1) + DaysInMonth(y, m - 1)
  }

  /** `date.toordinal()`: 1 January of year 1 is day 1. */
  function Ordinal(d: Date): int
    requires ValidDate(d)
  {
    DaysBeforeYear(d.year) + DaysBeforeMonth(d.year, d.month) + d.day
  }

  /** The day after `d`, as `d + timedelta(days=1)`. */
  function NextDay(d: Date): (r: Date)
    requires ValidDate(d) && d != Date(9999, 12, 31)
    ensures ValidDate(r)
  {
    if d.day < DaysInMonth(d.year, d.month) then Date(d.year, d.month, d.day + 1)
    else if d.month < 12 then Date(d.year, d.month + 1, 1)
    else Date(d.year + 1, 1, 1)
  }

  /** A whole year has 365 days, 366 in a leap year. */
  lemma DaysBeforeMonthYear(y: int)
    ensures DaysBeforeMonth(y, 13) == if IsLeap(y) then 366 else 365
  {
    assert DaysBeforeMonth(y, 2) == 31;
    assert DaysBeforeMonth(y, 3) == 31 + DaysInMonth(y, 2);
    assert DaysBeforeMonth(y, 4) == DaysBeforeMonth(y, 3) + 31;
    assert DaysBeforeMonth(y, 5) == DaysBeforeMonth(y, 4) + 30;
    assert DaysBeforeMonth(y, 6) == DaysBeforeMonth(y, 5) + 31;
    assert DaysBeforeMonth(y, 7) == DaysBeforeMonth(y, 6) + 30;
    assert DaysBeforeMonth(y, 8) == DaysBeforeMonth(y, 7) + 31;
    assert DaysBeforeMonth(y, 9) == DaysBeforeMonth(y, 8) + 31;
    assert DaysBeforeMonth(y, 10) == DaysBeforeMonth(y, 9) + 30;
    assert DaysBeforeMonth(y, 11) == DaysBeforeMonth(y, 10) + 31;
    assert DaysBeforeMonth(y, 12) == DaysBeforeMonth(y, 11) + 30;
    assert DaysBeforeMonth(y, 13) == DaysBeforeMonth(y, 12) + 31;
  }

  /** The leap-year rule is the one the year count uses. */
  lemma DaysBeforeNextYear(y: int)
    requires y >= 1
    ensures DaysBeforeYear(y + 1) == DaysBeforeYear(y) + if IsLeap(y) then 366 else 365
  {
    var p := y - 1;
    YearStep(p);
    Quotient4(p);
    Quotient100(p);
    Quotient400(p);
    Multiples(y);
  }

  /** The year count grows by 365 plus the change of the three quotients. */
  lemma YearStep(p: nat)
    ensures DaysBeforeYear(p + 2) - DaysBeforeYear(p + 1)
      == 365 + ((p + 1) / 4 - p / 4) - ((p + 1) / 100 - p / 100) + ((p + 1) / 400 - p / 400)
  {
    assert (p + 1) * 365 == p * 365 + 365;
  }

  /** A multiple of 400 is one of 100, and a multiple of 100 one of 4. */
  lemma Multiples(y: int)
    ensures y % 400 == 0 ==> y % 100 == 0
    ensures y % 100 == 0 ==> y % 4 == 0
  {
  }

  /** How the three quotients of the year count move from one year to the
      next. */
  lemma Quotient4(p: nat)
    ensures (p + 1) / 4 == p / 4 + (if (p + 1) % 4 == 0 then 1 else 0)
  {
  }

  lemma Quotient100(p: nat)
    ensures (p + 1) / 100 == p / 100 + (if (p + 1) % 100 == 0 then 1 else 0)
  {
  }

  lemma Quotient400(p: nat)
    ensures (p + 1) / 400 == p / 400 + (if (p + 1) % 400 == 0 then 1 else 0)
  {
  }

  /** Consecutive days have consecutive day numbers, so `toordinal` numbers
      the calendar without gaps; the first day is day 1. */
  lemma NextDayOrdinal(d: Date)
    requires ValidDate(d) && d != Date(9999, 12, 31)
    ensures Ordinal(NextDay(d)) == Ordinal(d) + 1
  {
    if d.day == DaysInMonth(d.year, d.month) && d.month == 12 {
      DaysBeforeMonthYear(d.year);
      DaysBeforeNextYear(d.year);
    }
  }

  lemma FirstOrdinal()
    ensures Ordinal(Date(1, 1, 1)) == 1
  {
  }

  // ---------------------------------------------------------------------------
  // `re.findall(r"\d+\.\d+\.\d+", text)[0]`

  /** The three digit runs of a date-shaped match. */
  datatype DateText = DateText(day: string, month: string, year: string)

  /** The text of the match. */
  function Render(t: DateText): string {
    t.day + "." + t.month + "." + t.year
  }

  /** The match of `\d+\.\d+\.\d+` starting at `p`, if any. The first two runs
      end at a dot, so greedy matching only has to take each run whole; the
      last run is as long as the digits go. */
  function DateTextAt(s: string, p: nat): Option<DateText> {
    match RunThenDot(s, p)
    case None => None
    case Some(a) =>
      var q := p + a + 1;
      match RunThenDot(s, q)
      case None => None
      case Some(b) =>
        var r := q + b + 1;
        var c := Search.DigitRun(s, r);
        if c == 0 then None
        else Some(DateText(s[p..p + a], s[q..q + b], s[r..r + c]))
  }

  /** The length of the digit run at `i` when it is not empty and a dot
      follows it. */
  function RunThenDot(s: string, i: nat): (r: Option<nat>)
    ensures r.Some? <==>
      Search.DigitRun(s, i) > 0 && i + Search.DigitRun(s, i) < |s| && s[i + Search.DigitRun(s, i)] == '.'
    ensures r.Some? ==> r.value == Search.DigitRun(s, i)
  {
    var a := Search.DigitRun(s, i);
    if a == 0 || i + a >= |s| || s[i + a] != '.' then None else Some(a)
  }

  /** The three parts are digit strings, the match `Render(t)` occurs at
      `p` piece by piece (day, dot, month, dot, year), and the last run is not
      followed by another digit. */
  predicate MatchesAt(s: string, p: nat, t: DateText) {
    var q := p + |t.day| + 1;
    var r := q + |t.month| + 1;
    var e := r + |t.year|;
    IsDigitString(t.day) && IsDigitString(t.month) && IsDigitString(t.year)
    && e <= |s| && s[p..q - 1] == t.day && s[q - 1] == '.'
    && s[q..r - 1] == t.month && s[r - 1] == '.' && s[r..e] == t.year
    && (e == |s| || !IsDigit(s[e]))
  }

  /** `DateTextAt` finds exactly the greedy matches of the pattern. */
  lemma DateTextAtIff(s: string, p: nat, t: DateText)
    ensures DateTextAt(s, p) == Some(t) <==> MatchesAt(s, p, t)
  {
    if DateTextAt(s, p) == Some(t) {
      DateTextAtShaped(s, p);
    }
    if MatchesAt(s, p, t) {
      ShapedDateTextAt(s, p, t);
    }
  }

  lemma DateTextAtShaped(s: string, p: nat)
    requires DateTextAt(s, p).Some?
    ensures MatchesAt(s, p, DateTextAt(s, p).value)
  {
    var a := RunThenDot(s, p).value;
    var q := p + a + 1;
    var b := RunThenDot(s, q).value;
    var r := q + b + 1;
    var c := Search.DigitRun(s, r);
    RunIsDigits(s, p);
    RunIsDigits(s, q);
    RunIsDigits(s, r);
    Search.DigitRunMaximal(s, r);
  }

  /** A digit run read off `s` is a digit string. */
  lemma RunIsDigits(s: string, i: nat)
    requires i <= |s|
    ensures AllDigits(s[i..i + Search.DigitRun(s, i)])
  {
    Search.DigitRunMaximal(s, i);
    var n := Search.DigitRun(s, i);
    var run := s[i..i + n];
    forall k | 0 <= k < n ensures IsDigit(run[k]) {
      assert run[k] == s[i + k];
    }
  }

  /** The characters of a digit string found in `s` are digits of `s`. */
  lemma DigitsOfSlice(s: string, i: nat, m: string)
    requires i + |m| <= |s| && s[i..i + |m|] == m && AllDigits(m)
    ensures forall k :: i <= k < i + |m| ==> IsDigit(s[k])
  {
    forall k | i <= k < i + |m| ensures IsDigit(s[k]) {
      assert s[i..i + |m|][k - i] == s[k];
    }
  }

  lemma ShapedDateTextAt(s: string, p: nat, t: DateText)
    requires MatchesAt(s, p, t)
    ensures DateTextAt(s, p) == Some(t)
  {
    MatchRuns(s, p, t);
  }

  /** The runs a match is made of. */
  lemma MatchRuns(s: string, p: nat, t: DateText)
    requires MatchesAt(s, p, t)
    ensures RunThenDot(s, p) == Some(|t.day|)
    ensures RunThenDot(s, p + |t.day| + 1) == Some(|t.month|)
    ensures Search.DigitRun(s, p + |t.day| + |t.month| + 2) == |t.year|
  {
    var a, b := |t.day|, |t.month|;
    RunOf(s, p, t.day);
    RunOf(s, p + a + 1, t.month);
    RunOf(s, p + a + b + 2, t.year);
  }

  /** A digit string found at `i` and not followed by a digit is the run there. */
  lemma RunOf(s: string, i: nat, m: string)
    requires i + |m| <= |s| && s[i..i + |m|] == m && AllDigits(m)
    requires i + |m| == |s| || !IsDigit(s[i + |m|])
    ensures Search.DigitRun(s, i) == |m|
  {
    DigitsOfSlice(s, i, m);
    Search.DigitRunExact(s, i, |m|);
  }

  /** `re.findall(r"\d+\.\d+\.\d+", text)[0]`, `None` for an empty list. */
  function FindDate(text: string): Option<DateText> {
    match Search.FirstFrom(text, 0, DateTextAt)
    case None => None
    case Some((_, t)) => Some(t)
  }

  /** The found date text is the leftmost greedy match; without one the text
      has no match anywhere. */
  lemma FindDateSpec(text: string)
    ensures FindDate(text).Some? ==>
      exists p: nat :: MatchesAt(text, p, FindDate(text).value)
        && forall q: nat, u: DateText :: q < p ==> !MatchesAt(text, q, u)
    ensures FindDate(text).None? ==> forall q: nat, u: DateText :: !MatchesAt(text, q, u)
  {
    var r := Search.FirstFrom(text, 0, DateTextAt);
    var bound := if r.Some? then r.value.0 else |text|;
    forall q: nat, u: DateText | q < bound
      ensures !MatchesAt(text, q, u)
    {
      assert DateTextAt(text, q).None?;
      DateTextAtIff(text, q, u);
    }
    forall q: nat, u: DateText | bound <= q && r.None?
      ensures !MatchesAt(text, q, u)
    {
      assert |Render(u)| > 0;
    }
    if r.Some? {
      var (p, t) := r.value;
      DateTextAtIff(text, p, t);
    }
  }

  // ---------------------------------------------------------------------------
  // `datetime.strptime(text, "%d.%m.%Y")`

  /** The format's regular expression: `%d` is one of `3[01]`, `[12]\d`,
      `0[1-9]`, `[1-9]`; `%m` one of `1[0-2]`, `0[1-9]`, `[1-9]`; `%Y` exactly
      four digits, and nothing may follow. For a part that ends at a dot these
      read as: one or two digits with the value in range. */
  predicate FormatMatches(t: DateText) {
    AllDigits(t.day) && AllDigits(t.month) && AllDigits(t.year)
    && 1 <= |t.day| <= 2 && 1 <= |t.month| <= 2 && |t.year| == 4
    && 1 <= DigitsValue(t.day) <= 31 && 1 <= DigitsValue(t.month) <= 12
  }

  /** `strptime` raises `ValueError` when the format does not match, and again
      when the fields do not form a date (year 0, 31 April, 29 February of a
      common year). */
  function Strptime(t: DateText): (r: Result<Date>)
    ensures r.Ok? ==> ValidDate(r.value)
    ensures r.Err? ==> r.error == ValueError
  {
    if !FormatMatches(t) then Err(ValueError)
    else
      var d := Date(DigitsValue(t.year), DigitsValue(t.month), DigitsValue(t.day));
      if ValidDate(d) then Ok(d) else Err(ValueError)
  }

  /** `strptime` accepts exactly the text `strftime("%d.%m.%Y")` prints for a
      date, except that the leading zero of a one-digit day or month may be
      left out; the date it returns is that date. */
  lemma StrptimeIff(t: DateText, d: Date)
    ensures Strptime(t) == Ok(d) <==>
      ValidDate(d) && t.year == Pad(d.year, 4)
      && (t.month == Pad(d.month, 2) || (d.month < 10 && t.month == Pad(d.month, 1)))
      && (t.day == Pad(d.day, 2) || (d.day < 10 && t.day == Pad(d.day, 1)))
  {
    if ValidDate(d) {
      YearText(t.year, d.year);
      DayOrMonthText(t.month, d.month);
      DayOrMonthText(t.day, d.day);
    }
  }

  /** `%Y` reads `v` from exactly its four-digit padding. */
  lemma YearText(s: string, v: nat)
    requires v < 10000
    ensures (AllDigits(s) && |s| == 4 && DigitsValue(s) == v) <==> s == Pad(v, 4)
  {
    if AllDigits(s) && |s| == 4 && DigitsValue(s) == v {
      PadUnique(s);
    }
    if s == Pad(v, 4) {
      PadValue(v, 4);
    }
  }

  /** `%d` and `%m` read `v` from its two-digit padding, or from its single
      digit when it has only one. */
  lemma DayOrMonthText(s: string, v: nat)
    requires v < 100
    ensures (AllDigits(s) && 1 <= |s| <= 2 && DigitsValue(s) == v) <==>
      (s == Pad(v, 2) || (v < 10 && s == Pad(v, 1)))
  {
    if AllDigits(s) && 1 <= |s| <= 2 && DigitsValue(s) == v {
      PadUnique(s);
    }
    if s == Pad(v, 2) {
      PadValue(v, 2);
    }
    if v < 10 && s == Pad(v, 1) {
      PadValue(v, 1);
    }
  }

  /** A digit string is the padding of its own value to its own length. */
  lemma {:induction false} PadUnique(s: string)
    requires AllDigits(s)
    ensures DigitsValue(s) < Power10(|s|)
    ensures s == Pad(DigitsValue(s), |s|)
  {
    if |s| > 0 {
      var init := s[..|s| - 1];
      var c := s[|s| - 1];
      PadUnique(init);
      var v := DigitsValue(s);
      assert v == DigitsValue(init) * 10 + (c as int - '0' as int);
      assert v / 10 == DigitsValue(init) && v % 10 == c as int - '0' as int;
      assert s == init + [c];
    }
  }

  /** `strftime("%d.%m.%Y")` for years of four digits: day and month are padded
      to two digits. */
  function Format(d: Date): DateText
    requires ValidDate(d) && d.year >= 1000
  {
    DateText(Pad(d.day, 2), Pad(d.month, 2), Pad(d.year, 4))
  }

  /** The last `width` decimal digits of `n`, zero-padded. */
  function Pad(n: nat, width: nat): (r: string)
    ensures |r| == width && AllDigits(r)
  {
    if width == 0 then []
    else Pad(n / 10, width - 1) + [(('0' as int) + n % 10) as char]
  }

  /** Reading back `width` padded digits gives the number, when it fits. */
  lemma {:induction false} PadValue(n: nat, width: nat)
    requires n < Power10(width)
    ensures DigitsValue(Pad(n, width)) == n
  {
    if width > 0 {
      var r := Pad(n, width);
      var d := n % 10;
      assert r == Pad(n / 10, width - 1) + [(('0' as int) + d) as char];
      assert r[..|r| - 1] == Pad(n / 10, width - 1);
      assert r[|r| - 1] as int - '0' as int == d;
      assert n / 10 < Power10(width - 1) by {
        assert n < 10 * Power10(width - 1);
      }
      PadValue(n / 10, width - 1);
      assert DigitsValue(r) == DigitsValue(r[..|r| - 1]) * 10 + d;
      assert n == (n / 10) * 10 + d;
    }
  }

  function Power10(k: nat): (r: nat)
    ensures r >= 1
  {
    if k == 0 then 1 else 10 * Power10(k - 1)
  }

  /** The date the order list prints is read back by the filter: `strptime`
      undoes `strftime` on the same format. */
  lemma StrptimeFormat(d: Date)
    requires ValidDate(d) && d.year >= 1000
    ensures Strptime(Format(d)) == Ok(d)
  {
    PadValue(d.day, 2);
    PadValue(d.month, 2);
    PadValue(d.year, 4);
  }

  // ---------------------------------------------------------------------------
  // `(now - article_date).days // 365 > 4`

  /** The index item is older than four years. `now` is today's day number;
      the clock's time of day does not change the whole days elapsed since
      midnight of the item's date. `//` floors, as Dafny's `/` does for a
      positive divisor, so a date in the future is never too old. */
  predicate TooOld(now: int, d: Date)
    requires ValidDate(d)
  {
    (now - Ordinal(d)) / 365 > 4
  }

  /** Four years here means 1825 days, leap days not counted. */
  lemma TooOldIff(now: int, d: Date)
    requires ValidDate(d)
    ensures TooOld(now, d) <==> now - Ordinal(d) >= 1825
  {
  }
}
