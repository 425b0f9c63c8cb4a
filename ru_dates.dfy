/** The Russian date scanner of the Telegram parsers (`parse_ru_datetime_from_text` in
    tools/parser.py and in its older copy OLD/parser.py), with the part of Python's
    `datetime` it relies on: field validation and the comparison with "base minus seven
    days". Each regular expression is written out as a scanner that tries one position
    at a time, as `re.search` does. */
module RuDates {
  import opened Wrappers
  import opened Strings
  import Seqs

  // ---------------------------------------------------------------- calendar

  /** A Moscow wall-clock time: `datetime(year, month, day, hour, minute, second)`. */
  datatype DateTime = DateTime(year: int, month: int, day: int, hour: int, minute: int, second: int)

  predicate IsLeap(y: int) {
    y % 4 == 0 && (y % 100 != 0 || y % 400 == 0)
  }

  function DaysInMonth(y: int, m: int): int
    requires 1 <= m <= 12
  {
    if m == 2 then (if IsLeap(y) then 29 else 28)
    else if m == 4 || m == 6 || m == 9 || m == 11 then 30
    else 31
  }

  function DaysInYear(y: int): int {
    if IsLeap(y) then 366 else 365
  }

  /** The fields `datetime` accepts: years 1 to 9999 and days that exist in the month. */
  predicate Valid(t: DateTime) {
    && 1 <= t.year <= 9999
    && 1 <= t.month <= 12
    && 1 <= t.day <= DaysInMonth(t.year, t.month)
    && 0 <= t.hour < 24 && 0 <= t.minute < 60 && 0 <= t.second < 60
  }

  function DaysBeforeMonth(y: int, m: int): int
    requires 1 <= m <= 12
  {
    [0, 31, 59, 90, 120, 151, 181, 212, 243, 273, 304, 334][m - 1]
    + (if m > 2 && IsLeap(y) then 1 else 0)
  }

  function DaysBeforeYear(y: int): int
    requires y >= 1
  {
    var p := y - 1;
    365 * p + p / 4 - p / 100 + p / 400
  }

  /** Seconds since 0001-01-01 00:00 on the proleptic Gregorian calendar; comparing two
      `datetime` values compares these. */
  function Instant(t: DateTime): int
    requires Valid(t)
  {
    (DaysBeforeYear(t.year) + DaysBeforeMonth(t.year, t.month) + t.day - 1) * 86400
    + t.hour * 3600 + t.minute * 60 + t.second
  }

  /** `timedelta(days=7)` in seconds. */
  const Week: int := 7 * 86400

  /** Going from `y - 1` to `y` adds one multiple of 4, 100 or 400 exactly when it
      divides `y`. */
  lemma DivStep4(y: int)
    ensures y / 4 == (y - 1) / 4 + (if y % 4 == 0 then 1 else 0)
  {
  }

  lemma DivStep100(y: int)
    ensures y / 100 == (y - 1) / 100 + (if y % 100 == 0 then 1 else 0)
  {
  }

  lemma DivStep400(y: int)
    ensures y / 400 == (y - 1) / 400 + (if y % 400 == 0 then 1 else 0)
  {
  }

  /** A multiple of 400 is one of 100. */
  lemma Multiple400(y: int)
    requires y % 400 == 0
    ensures y % 100 == 0
  {
    var n := 4 * (y / 400);
    assert y == 100 * n;
    ModOfMultiple100(n);
  }

  /** A multiple of 100 is one of 4. */
  lemma Multiple100(y: int)
    requires y % 100 == 0
    ensures y % 4 == 0
  {
    var n := 25 * (y / 100);
    assert y == 4 * n;
    ModOfMultiple4(n);
  }

  lemma ModOfMultiple100(n: int)
    ensures (100 * n) % 100 == 0
  {
  }

  lemma ModOfMultiple4(n: int)
    ensures (4 * n) % 4 == 0
  {
  }

  lemma YearLength(y: int)
    requires y >= 1
    ensures DaysBeforeYear(y + 1) == DaysBeforeYear(y) + DaysInYear(y)
  {
    DivStep4(y);
    DivStep100(y);
    DivStep400(y);
    if y % 400 == 0 {
      Multiple400(y);
    }
    if y % 100 == 0 {
      Multiple100(y);
    }
    assert DaysBeforeYear(y + 1) - DaysBeforeYear(y)
           == 365 + (y / 4 - (y - 1) / 4) - (y / 100 - (y - 1) / 100) + (y / 400 - (y - 1) / 400);
  }

  lemma DayOfYearBound(t: DateTime)
    requires Valid(t)
    ensures DaysBeforeMonth(t.year, t.month) + t.day <= DaysInYear(t.year)
  {
  }

  /** Every moment of a year comes before every moment of the next one. */
  lemma EarlierThanNextYear(t: DateTime, u: DateTime)
    requires Valid(t) && Valid(u) && u.year == t.year + 1
    ensures Instant(t) < Instant(u)
  {
    YearLength(t.year);
    DayOfYearBound(t);
  }

  /** `datetime(...)` raises `ValueError` for fields out of range. */
  datatype DateError = InvalidDate(year: int, month: int, day: int, hour: int, minute: int)

  /** `datetime(y, mo, d, hh, mm)`: the time, or the error it raises. */
  function MakeDate(y: int, mo: int, d: int, hh: int, mm: int): (r: Result<DateTime, DateError>)
    ensures r.Ok? <==> Valid(DateTime(y, mo, d, hh, mm, 0))
    ensures r.Ok? ==> r.value == DateTime(y, mo, d, hh, mm, 0)
  {
    var t := DateTime(y, mo, d, hh, mm, 0);
    if Valid(t) then Ok(t) else Err(InvalidDate(y, mo, d, hh, mm))
  }

  // ---------------------------------------------------------------- scanners

  predicate DigitAt(s: String, i: nat) {
    i < |s| && IsDigit(s[i])
  }

  predicate SepAt(s: String, i: nat) {
    i < |s| && (s[i] == '.' || s[i] == '/')
  }

  /** `\d{1,2}` at a digit, as its value and width. The match is greedy, and backing off
      to one digit never rescues a failed match here, because every pattern needs a
      non-digit right after this group. */
  function Digits12(s: String, i: nat): (r: (nat, nat))
    requires DigitAt(s, i)
    ensures r.1 == (if DigitAt(s, i + 1) then 2 else 1) && i + r.1 <= |s|
    ensures r.0 < 100
  {
    if DigitAt(s, i + 1) then (DigitValue(s[i]) * 10 + DigitValue(s[i + 1]), 2)
    else (DigitValue(s[i]), 1)
  }

  /** The decimal value of the `n` digits starting at `i`. */
  function DigitsAt(s: String, i: nat, n: nat): nat
    requires i + n <= |s| && forall j | i <= j < i + n :: IsDigit(s[j])
  {
    if n == 0 then 0 else DigitsAt(s, i, n - 1) * 10 + DigitValue(s[i + n - 1])
  }

  /** What a date pattern matched: day, month, the year as written (if the pattern has
      one and it matched) and the position after the match. */
  datatype DateMatch = DateMatch(day: nat, month: nat, year: Option<nat>, end: nat)

  /** `(\d{1,2})[./](\d{1,2})[./](\d{2,4})` at `p`. */
  function FullAt(s: String, p: nat): (r: Option<DateMatch>)
    ensures r.Some? ==> r.value.year.Some? && r.value.end <= |s|
  {
    if !DigitAt(s, p) then None
    else
      var (d, a) := Digits12(s, p);
      var q := p + a + 1;
      if !SepAt(s, p + a) || !DigitAt(s, q) then None
      else
        var (mo, b) := Digits12(s, q);
        if !SepAt(s, q + b) then None
        else
          var y0 := q + b + 1;
          var c := Seqs.Min(4, DigitCount(s, y0));
          if c < 2 then None
          else Some(DateMatch(d, mo, Some(DigitsAt(s, y0, c)), y0 + c))
  }

  /** `(\d{1,2})[./](\d{1,2})(?![./]\d)` at `p`. When two month digits are followed by a
      separator and a digit, the pattern backs off to one month digit, and the look-ahead
      then sees the second digit and succeeds. */
  function ShortAt(s: String, p: nat): (r: Option<DateMatch>)
    ensures r.Some? ==> r.value.year.None? && r.value.end <= |s|
  {
    if !DigitAt(s, p) then None
    else
      var (d, a) := Digits12(s, p);
      var q := p + a + 1;
      if !SepAt(s, p + a) || !DigitAt(s, q) then None
      else if DigitAt(s, q + 1) then
        if SepAt(s, q + 2) && DigitAt(s, q + 3) then Some(DateMatch(d, DigitValue(s[q]), None, q + 1))
        else Some(DateMatch(d, DigitValue(s[q]) * 10 + DigitValue(s[q + 1]), None, q + 2))
      else if SepAt(s, q + 1) && DigitAt(s, q + 2) then None
      else Some(DateMatch(d, DigitValue(s[q]), None, q + 1))
  }

  /** The genitive month names, January first (`RU_MONTHS`). No name is a prefix of
      another, so the first alternative that matches is the only one. */
  const Months: seq<String> := ["января", "февраля", "марта", "апреля", "мая", "июня",
    "июля", "августа", "сентября", "октября", "ноября", "декабря"]

  /** The month name that `s[i..]` starts with, as its number (1 for January) and the
      position after it. */
  function MonthAt(s: String, i: nat): (r: Option<(nat, nat)>)
    requires i <= |s|
    ensures r.Some? ==> 1 <= r.value.0 <= 12 && i < r.value.1 <= |s|
  {
    match Seqs.FirstAt(12, 0, k => if k < 12 && IsPrefix(Months[k], s[i..]) then Some(k) else None)
    case Some((k, _)) => Some((k + 1, i + |Months[k]|))
    case None => None
  }

  /** `(\d{1,2})\s+(января|…|декабря)(?:\s+(\d{4}))?` at `p`. */
  function NamedAt(s: String, p: nat): (r: Option<DateMatch>)
    ensures r.Some? ==> 1 <= r.value.month <= 12 && r.value.end <= |s|
  {
    if !DigitAt(s, p) then None
    else
      var (d, a) := Digits12(s, p);
      var q := p + a;
      var k := SpaceCount(s, q);
      if k == 0 then None
      else
        match MonthAt(s, q + k)
        case None => None
        case Some((mo, e)) =>
          var k2 := SpaceCount(s, e);
          if k2 > 0 && DigitCount(s, e + k2) >= 4 then
            Some(DateMatch(d, mo, Some(DigitsAt(s, e + k2, 4)), e + k2 + 4))
          else Some(DateMatch(d, mo, None, e))
  }

  /** `(\d{1,2}):(\d{2})` at `t`, as hours and minutes. */
  function TimeAt(w: String, t: nat): Option<(nat, nat)> {
    if !DigitAt(w, t) then None
    else
      var (h, a) := Digits12(w, t);
      if t + a < |w| && w[t + a] == ':' && DigitAt(w, t + a + 1) && DigitAt(w, t + a + 2) then
        Some((h, DigitValue(w[t + a + 1]) * 10 + DigitValue(w[t + a + 2])))
      else None
  }

  /** `low[end: end + width]`. */
  function Window(s: String, end: nat, width: nat): String
    requires end <= |s|
  {
    s[end..Seqs.Min(end + width, |s|)]
  }

  /** The first `hh:mm` in the `width` characters after `end`, or `00:00` when there is
      none. */
  function TimeAfter(s: String, end: nat, width: nat): (r: (nat, nat))
    requires end <= |s|
    ensures var w := Window(s, end, width);
      && ((forall t | 0 <= t < |w| :: TimeAt(w, t).None?) ==> r == (0, 0))
      && (r != (0, 0) ==> exists t | 0 <= t < |w| :: TimeAt(w, t) == Some(r))
      && ((exists t | 0 <= t < |w| :: TimeAt(w, t).Some?) ==>
            exists t | 0 <= t < |w| :: TimeAt(w, t) == Some(r) && forall u | 0 <= u < t :: TimeAt(w, u).None?)
  {
    var w := Window(s, end, width);
    var at: nat -> Option<(nat, nat)> := t => TimeAt(w, t);
    match Seqs.FirstAt(|w|, 0, at)
    case Some((p, hm)) =>
      assert TimeAt(w, p) == at(p) == Some(hm);
      assert forall u | 0 <= u < p :: TimeAt(w, u).None? by {
        forall u | 0 <= u < p ensures TimeAt(w, u).None? {
          assert at(u).None?;
        }
      }
      hm
    case None =>
      assert forall t | 0 <= t < |w| :: TimeAt(w, t).None? by {
        forall t | 0 <= t < |w| ensures TimeAt(w, t).None? {
          assert at(t).None?;
        }
      }
      (0, 0)
  }

  function FindFull(s: String): Option<(nat, DateMatch)> {
    Seqs.FirstAt(|s|, 0, p => FullAt(s, p))
  }

  function FindShort(s: String): Option<(nat, DateMatch)> {
    Seqs.FirstAt(|s|, 0, p => ShortAt(s, p))
  }

  function FindNamed(s: String): Option<(nat, DateMatch)> {
    Seqs.FirstAt(|s|, 0, p => NamedAt(s, p))
  }

  // ---------------------------------------------------------------- the parser

  /** tools/parser.py, or the older OLD/parser.py. */
  datatype Variant = Current | Legacy

  /** How far after a numeric date the time is looked for. */
  function NumericWindow(v: Variant): nat {
    if v == Current then 80 else 50
  }

  /** How far after a month-name date the time is looked for. */
  function NamedWindow(v: Variant): nat {
    if v == Current then 100 else 60
  }

  /** A two-digit (or any below 100) year is taken as 20xx. */
  function FullYear(y: nat): nat {
    if y < 100 then y + 2000 else y
  }

  /** A date written without a year, in the year of `base`, moved to the next year when it
      falls more than a week before `base`. */
  function Rolled(base: DateTime, mo: int, d: int, hh: int, mm: int): (r: Result<DateTime, DateError>)
    requires Valid(base)
    ensures r.Ok? ==> Valid(r.value) && Instant(r.value) >= Instant(base) - Week
    ensures r.Ok? ==> var t := r.value;
      && (t.year == base.year || t.year == base.year + 1)
      && t.month == mo && t.day == d && t.hour == hh && t.minute == mm && t.second == 0
    ensures r.Ok? ==>
      (r.value.year == base.year + 1 <==>
        MakeDate(base.year, mo, d, hh, mm).Ok?
        && Instant(MakeDate(base.year, mo, d, hh, mm).value) < Instant(base) - Week)
  {
    match MakeDate(base.year, mo, d, hh, mm)
    case Err(e) => Err(e)
    case Ok(c) =>
      if Instant(c) < Instant(base) - Week then
        var n := MakeDate(base.year + 1, mo, d, hh, mm);
        if n.Ok? then EarlierThanNextYear(base, n.value); n else n
      else Ok(c)
  }

  /** The instant a year-less date is read against: `base or now`. */
  function BaseOf(base: Option<DateTime>, now: DateTime): DateTime {
    if base.Some? then base.value else now
  }

  /** The dd.mm.yyyy branch: the date as written, two-digit years in this century. */
  function FromFull(v: Variant, low: String, m: DateMatch): (r: Result<DateTime, DateError>)
    requires m.year.Some? && m.end <= |low|
    ensures r.Ok? ==> Valid(r.value) && r.value.second == 0
  {
    var (hh, mm) := TimeAfter(low, m.end, NumericWindow(v));
    MakeDate(FullYear(m.year.value), m.month, m.day, hh, mm)
  }

  /** The dd.mm branch: read in the year of `base`, and rolled over when stale. */
  function FromShort(v: Variant, low: String, m: DateMatch, b: DateTime): (r: Result<DateTime, DateError>)
    requires m.end <= |low| && Valid(b)
    ensures r.Ok? ==> Valid(r.value) && r.value.second == 0
  {
    var (hh, mm) := TimeAfter(low, m.end, NumericWindow(v));
    var mo := if v == Legacy && m.month == 0 then 1 else m.month;
    Rolled(b, mo, m.day, hh, mm)
  }

  /** The "d <month> [yyyy]" branch: an explicit year is kept, a missing one is read
      like the dd.mm form. */
  function FromNamed(v: Variant, low: String, m: DateMatch, b: DateTime): (r: Result<DateTime, DateError>)
    requires m.end <= |low| && Valid(b)
    ensures r.Ok? ==> Valid(r.value) && r.value.second == 0
  {
    var (hh, mm) := TimeAfter(low, m.end, NamedWindow(v));
    if m.year.Some? then MakeDate(m.year.value, m.month, m.day, hh, mm)
    else Rolled(b, m.month, m.day, hh, mm)
  }

  function Found(r: Result<DateTime, DateError>): (f: Result<Option<DateTime>, DateError>)
    ensures f.Ok? <==> r.Ok?
    ensures r.Ok? ==> f.value == Some(r.value)
  {
    match r
    case Ok(t) => Ok(Some(t))
    case Err(e) => Err(e)
  }

  /** `parse_ru_datetime_from_text(text, base)`: the first date of the first format that
      occurs anywhere in the lower-cased text, with the first time after it, or `None`.
      The formats are tried in order: dd.mm.yyyy, dd.mm, then "d <month> [yyyy]". A
      `ValueError` from `datetime(...)` is the `Err` outcome. The older parser reads
      month 0 of the dd.mm form as January. */
  function ParseRuDateTime(v: Variant, text: String, base: Option<DateTime>, now: DateTime)
    : (r: Result<Option<DateTime>, DateError>)
    requires Valid(now) && (base.Some? ==> Valid(base.value))
    ensures r.Ok? && r.value.Some? ==> Valid(r.value.value) && r.value.value.second == 0
    ensures r == Ok(None) <==>
      var low := Lower(text);
      FindFull(low).None? && FindShort(low).None? && FindNamed(low).None?
  {
    var low := Lower(text);
    var full, short, named := FindFull(low), FindShort(low), FindNamed(low);
    if full.Some? then Found(FromFull(v, low, full.value.1))
    else if short.Some? then Found(FromShort(v, low, short.value.1, BaseOf(base, now)))
    else if named.Some? then Found(FromNamed(v, low, named.value.1, BaseOf(base, now)))
    else Ok(None)
  }

  // ---------------------------------------------------------------- properties

  /** A dd.mm.yyyy date is taken as written, whatever `base` is: its year (20xx for a
      value below 100), month and day are never adjusted. */
  lemma FullDateAsWritten(v: Variant, text: String, base: Option<DateTime>, now: DateTime,
                          base2: Option<DateTime>, now2: DateTime)
    requires Valid(now) && (base.Some? ==> Valid(base.value))
    requires Valid(now2) && (base2.Some? ==> Valid(base2.value))
    requires FindFull(Lower(text)).Some?
    ensures var m, r := FindFull(Lower(text)).value.1, ParseRuDateTime(v, text, base, now);
      && (r.Ok? ==> r.value.Some? && r.value.value.year == FullYear(m.year.value)
                    && r.value.value.month == m.month && r.value.value.day == m.day)
      && ParseRuDateTime(v, text, base2, now2) == r
  {
  }

  /** A month-name date with a year is taken as written, whatever `base` is. */
  lemma NamedYearAsWritten(v: Variant, text: String, base: Option<DateTime>, now: DateTime,
                           base2: Option<DateTime>, now2: DateTime)
    requires Valid(now) && (base.Some? ==> Valid(base.value))
    requires Valid(now2) && (base2.Some? ==> Valid(base2.value))
    requires var low := Lower(text);
      FindFull(low).None? && FindShort(low).None? && FindNamed(low).Some?
      && FindNamed(low).value.1.year.Some?
    ensures var m, r := FindNamed(Lower(text)).value.1, ParseRuDateTime(v, text, base, now);
      && (r.Ok? ==> r.value.Some? && r.value.value.year == m.year.value
                    && r.value.value.month == m.month && r.value.value.day == m.day)
      && ParseRuDateTime(v, text, base2, now2) == r
  {
  }

  /** A date read without a year is never more than a week before `base` (or `now`):
      it lands in the year of `base` or in the next one. */
  lemma YearlessNotStale(v: Variant, text: String, base: Option<DateTime>, now: DateTime)
    requires Valid(now) && (base.Some? ==> Valid(base.value))
    requires var low := Lower(text);
      FindFull(low).None?
      && (FindShort(low).Some? || (FindNamed(low).Some? && FindNamed(low).value.1.year.None?))
    ensures var r, b := ParseRuDateTime(v, text, base, now), BaseOf(base, now);
      r.Ok? ==> && r.value.Some?
                && Instant(r.value.value) >= Instant(b) - Week
                && (r.value.value.year == b.year || r.value.value.year == b.year + 1)
  {
  }

  /** In the dd.mm form the older parser reads month 0 as January, while the current one
      lets `datetime` reject it. */
  lemma MonthZero(text: String, base: Option<DateTime>, now: DateTime)
    requires Valid(now) && (base.Some? ==> Valid(base.value))
    requires var low := Lower(text);
      FindFull(low).None? && FindShort(low).Some? && FindShort(low).value.1.month == 0
    ensures ParseRuDateTime(Current, text, base, now).Err?
    ensures var r := ParseRuDateTime(Legacy, text, base, now);
      r.Ok? ==> r.value.Some? && r.value.value.month == 1
  {
  }

  /** The roll-over can itself raise: 29 February seen from after the first week of
      March of a leap year moves to a year without that day. */
  lemma LeapDayRollover()
    ensures Rolled(DateTime(2024, 3, 20, 12, 0, 0), 2, 29, 18, 0) == Err(InvalidDate(2025, 2, 29, 18, 0))
  {
    assert MakeDate(2024, 2, 29, 18, 0) == Ok(DateTime(2024, 2, 29, 18, 0, 0));
  }
}
