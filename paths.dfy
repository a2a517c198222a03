/**
 * Where a day's log lives: `{log_dir}/YYYY-MM-DD.md`, built the way
 * `Path::join` and chrono's `%Y-%m-%d` build it.
 */
module Paths {

  /** A calendar date of the proleptic Gregorian calendar (chrono's `NaiveDate`). */
  datatype Date = Date(year: int, month: int, day: int)

  predicate IsLeapYear(y: int) {
    y % 4 == 0 && (y % 100 != 0 || y % 400 == 0)
  }

  function DaysInMonth(year: int, month: int): (n: int)
    requires 1 <= month <= 12
    ensures 28 <= n <= 31
  {
    if month == 2 then (if IsLeapYear(year) then 29 else 28)
    else if month == 4 || month == 6 || month == 9 || month == 11 then 30
    else 31
  }

  predicate ValidDate(d: Date) {
    1 <= d.month <= 12 && 1 <= d.day <= DaysInMonth(d.year, d.month)
  }

  /** Calendar order: `a` is an earlier day than `b`. */
  predicate Before(a: Date, b: Date) {
    a.year < b.year
    || (a.year == b.year && (a.month < b.month || (a.month == b.month && a.day < b.day)))
  }

  /** The day before `d` (`date - Duration::days(1)`). */
  function Predecessor(d: Date): (p: Date)
    requires ValidDate(d)
    ensures ValidDate(p) && Before(p, d)
  {
    if d.day > 1 then Date(d.year, d.month, d.day - 1)
    else if d.month > 1 then Date(d.year, d.month - 1, DaysInMonth(d.year, d.month - 1))
    else Date(d.year - 1, 12, 31)
  }

  /** No valid date lies strictly between a date and its predecessor. */
  lemma PredecessorIsImmediate(d: Date, e: Date)
    requires ValidDate(d) && ValidDate(e) && Before(e, d)
    ensures !Before(Predecessor(d), e)
  {
  }

  predicate IsDigit(c: char) {
    '0' <= c <= '9'
  }

  predicate AllDigits(s: string) {
    forall i :: 0 <= i < |s| ==> IsDigit(s[i])
  }

  function DigitChar(n: nat): (c: char)
    requires n < 10
    ensures IsDigit(c)
  {
    ('0' as int + n) as char
  }

  /** The number a string of decimal digits spells. */
  function DigitsValue(s: string): nat
    requires AllDigits(s)
  {
    if s == [] then 0
    else DigitsValue(s[..|s| - 1]) * 10 + (s[|s| - 1] as int - '0' as int)
  }

  /** Decimal digits of `n`, with no leading zero (Rust's `{}` for an integer). */
  function Decimal(n: nat): (r: string)
    ensures r != [] && AllDigits(r)
  {
    if n < 10 then [DigitChar(n)] else Decimal(n / 10) + [DigitChar(n % 10)]
  }

  function Zeros(k: nat): (r: string)
    ensures |r| == k && AllDigits(r)
  {
    if k == 0 then [] else Zeros(k - 1) + "0"
  }

  /** Zero-padded formatting: decimal digits of `n`, padded with zeros on the left to at least `width`. */
  function ZeroPad(n: nat, width: nat): (r: string)
    ensures AllDigits(r) && |r| >= width
  {
    var digits := Decimal(n);
    if |digits| < width then Zeros(width - |digits|) + digits else digits
  }

  lemma {:induction false} DecimalRoundTrip(n: nat)
    ensures DigitsValue(Decimal(n)) == n
  {
    if n >= 10 {
      var r := Decimal(n);
      assert r[..|r| - 1] == Decimal(n / 10);
      DecimalRoundTrip(n / 10);
    }
  }

  lemma {:induction false} DecimalLength(n: nat, bound: nat, width: nat)
    requires 1 <= width && n < bound
    requires bound == if width == 1 then 10 else if width == 2 then 100 else 10000
    requires width == 1 || width == 2 || width == 4
    ensures |Decimal(n)| <= width
  {
    if n >= 10 {
      if width == 2 {
        DecimalLength(n / 10, 10, 1);
      } else if width == 4 {
        if n / 10 >= 100 {
          assert n / 100 < 100;
          assert Decimal(n / 10) == Decimal(n / 100) + [DigitChar((n / 10) % 10)];
          DecimalLength(n / 100, 100, 2);
        } else if n / 10 >= 10 {
          DecimalLength(n / 10, 100, 2);
        }
      }
    }
  }

  lemma {:induction false} LeadingZerosValue(k: nat, s: string)
    requires AllDigits(s)
    ensures DigitsValue(Zeros(k) + s) == DigitsValue(s)
    decreases |s|, k
  {
    var t := Zeros(k) + s;
    if s == [] {
      assert t == Zeros(k);
      if k > 0 {
        assert t[..|t| - 1] == Zeros(k - 1) + [];
        LeadingZerosValue(k - 1, []);
      }
    } else {
      assert t[..|t| - 1] == Zeros(k) + s[..|s| - 1];
      LeadingZerosValue(k, s[..|s| - 1]);
    }
  }

  /** Reading back a zero-padded number gives the number. */
  lemma ZeroPadRoundTrip(n: nat, width: nat)
    ensures DigitsValue(ZeroPad(n, width)) == n
  {
    var d := Decimal(n);
    DecimalRoundTrip(n);
    if |d| < width {
      assert ZeroPad(n, width) == Zeros(width - |d|) + d;
      LeadingZerosValue(width - |d|, d);
    } else {
      assert ZeroPad(n, width) == d;
    }
  }

  /** Zero-padding a number below 10^width takes exactly `width` characters. */
  lemma ZeroPadWidth(n: nat, width: nat)
    requires width == 2 || width == 4
    requires n < if width == 2 then 100 else 10000
    ensures |ZeroPad(n, width)| == width
  {
    DecimalLength(n, if width == 2 then 100 else 10000, width);
  }

  /**
   * chrono's `%Y`: four zero-padded digits for years 0 to 9999, otherwise a
   * sign followed by at least four digits (`-0001`, `+10000`).
   */
  function FormatYear(y: int): (r: string)
    ensures |r| >= 4 && (IsDigit(r[0]) || r[0] == '-' || r[0] == '+')
  {
    if 0 <= y <= 9999 then ZeroPad(y, 4)
    else (if y < 0 then "-" else "+") + ZeroPad(if y < 0 then -y else y, 4)
  }

  lemma FormatYearInjective(y1: int, y2: int)
    requires FormatYear(y1) == FormatYear(y2)
    ensures y1 == y2
  {
    var r := FormatYear(y1);
    if 0 <= y1 <= 9999 && 0 <= y2 <= 9999 {
      ZeroPadRoundTrip(y1, 4);
      ZeroPadRoundTrip(y2, 4);
    } else if !(0 <= y1 <= 9999) && !(0 <= y2 <= 9999) {
      var a1 := if y1 < 0 then -y1 else y1;
      var a2 := if y2 < 0 then -y2 else y2;
      assert r[0] == (if y1 < 0 then '-' else '+');
      assert FormatYear(y2)[0] == (if y2 < 0 then '-' else '+');
      assert r[1..] == ZeroPad(a1, 4);
      assert FormatYear(y2)[1..] == ZeroPad(a2, 4);
      ZeroPadRoundTrip(a1, 4);
      ZeroPadRoundTrip(a2, 4);
    }
  }

  /** `format!("{}.md", date.format("%Y-%m-%d"))`. */
  function LogFileName(d: Date): (r: string)
    requires ValidDate(d)
    ensures |r| == |FormatYear(d.year)| + 9
    ensures r[..|FormatYear(d.year)|] == FormatYear(d.year)
    ensures r[|r| - 3..] == ".md"
    ensures var n := |FormatYear(d.year)|;
            r[n] == '-' && r[n + 3] == '-' && AllDigits(r[n + 1..n + 3]) && AllDigits(r[n + 4..n + 6])
            && DigitsValue(r[n + 1..n + 3]) == d.month && DigitsValue(r[n + 4..n + 6]) == d.day
  {
    ZeroPadWidth(d.month, 2);
    ZeroPadWidth(d.day, 2);
    ZeroPadRoundTrip(d.month, 2);
    ZeroPadRoundTrip(d.day, 2);
    var y, mm, dd := FormatYear(d.year), ZeroPad(d.month, 2), ZeroPad(d.day, 2);
    var r := y + "-" + mm + "-" + dd + ".md";
    assert r[|y| + 1..|y| + 3] == mm;
    assert r[|y| + 4..|y| + 6] == dd;
    r
  }

  /** Different days get different file names. */
  lemma {:induction false} LogFileNameInjective(d1: Date, d2: Date)
    requires ValidDate(d1) && ValidDate(d2)
    requires LogFileName(d1) == LogFileName(d2)
    ensures d1 == d2
  {
    var s := LogFileName(d1);
    var y1, y2 := FormatYear(d1.year), FormatYear(d2.year);
    assert |y1| == |y2|;
    assert y1 == s[..|y1|] == y2;
    FormatYearInjective(d1.year, d2.year);
  }

  /**
   * `Path::new(dir).join(name)` on Unix: an absolute `name` replaces `dir`;
   * otherwise one `/` goes between them unless `dir` is empty or already
   * ends with `/`.
   */
  function JoinPath(dir: string, name: string): string {
    if name != [] && name[0] == '/' then name
    else if dir == [] || dir[|dir| - 1] == '/' then dir + name
    else dir + "/" + name
  }

  /** `get_log_file_path_for_date`. */
  function PathForDate(logDir: string, d: Date): (path: string)
    requires ValidDate(d)
    ensures |logDir| <= |path| && path[..|logDir|] == logDir
    ensures |LogFileName(d)| <= |path| && path[|path| - |LogFileName(d)|..] == LogFileName(d)
    ensures logDir != [] && logDir[|logDir| - 1] != '/' ==> path == logDir + "/" + LogFileName(d)
    ensures logDir == [] || logDir[|logDir| - 1] == '/' ==> path == logDir + LogFileName(d)
  {
    var name := LogFileName(d);
    assert name[0] == FormatYear(d.year)[0];
    JoinPath(logDir, name)
  }

  /** Different days of one log directory never share a file. */
  lemma PathForDateInjective(logDir: string, d1: Date, d2: Date)
    requires ValidDate(d1) && ValidDate(d2)
    requires PathForDate(logDir, d1) == PathForDate(logDir, d2)
    ensures d1 == d2
  {
    var n1, n2 := LogFileName(d1), LogFileName(d2);
    assert n1[0] == FormatYear(d1.year)[0] && n2[0] == FormatYear(d2.year)[0];
    var p := PathForDate(logDir, d1);
    if logDir == [] || logDir[|logDir| - 1] == '/' {
      assert n1 == p[|logDir|..] == n2;
    } else {
      assert n1 == p[|logDir| + 1..] == n2;
    }
    LogFileNameInjective(d1, d2);
  }

  /** `get_log_file_path`, with today's date passed in instead of read from the clock. */
  function TodayPath(logDir: string, today: Date): string
    requires ValidDate(today)
  {
    PathForDate(logDir, today)
  }

  /** `get_previous_day_log_path`, with today's date passed in. */
  function PreviousDayPath(logDir: string, today: Date): string
    requires ValidDate(today)
  {
    PathForDate(logDir, Predecessor(today))
  }

  /** Yesterday's file is never today's file. */
  lemma PreviousDayPathDiffers(logDir: string, today: Date)
    requires ValidDate(today)
    ensures PreviousDayPath(logDir, today) != TodayPath(logDir, today)
  {
    if PreviousDayPath(logDir, today) == TodayPath(logDir, today) {
      PathForDateInjective(logDir, Predecessor(today), today);
    }
  }
}
