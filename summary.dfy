/**
 * The summary of the last few days of logs: which weekdays count, which
 * lines of a day's file are entry titles, and the walk back from today
 * that counts eligible days and collects the days that have entries.
 * Days are day numbers (days since 1970-01-01); the log directory is a
 * map from day number to the content of that day's file.
 */
module Summary {
  import opened Wrappers
  import opened RustStr

  /** chrono's `Weekday`. */
  datatype Weekday = Mon | Tue | Wed | Thu | Fri | Sat | Sun

  /** Monday is 0, Sunday is 6 (chrono's `num_days_from_monday`). */
  function Index(w: Weekday): (i: nat)
    ensures i < 7
  {
    match w
    case Mon => 0 case Tue => 1 case Wed => 2 case Thu => 3
    case Fri => 4 case Sat => 5 case Sun => 6
  }

  function FromIndex(i: nat): (w: Weekday)
    requires i < 7
    ensures Index(w) == i
  {
    if i == 0 then Mon else if i == 1 then Tue else if i == 2 then Wed
    else if i == 3 then Thu else if i == 4 then Fri else if i == 5 then Sat
    else Sun
  }

  /** The lower-case English name of a day. */
  function FullName(w: Weekday): string {
    match w
    case Mon => "monday" case Tue => "tuesday" case Wed => "wednesday"
    case Thu => "thursday" case Fri => "friday" case Sat => "saturday"
    case Sun => "sunday"
  }

  /** The lower-case three-letter abbreviation of a day. */
  function Abbrev(w: Weekday): string {
    match w
    case Mon => "mon" case Tue => "tue" case Wed => "wed" case Thu => "thu"
    case Fri => "fri" case Sat => "sat" case Sun => "sun"
  }

  /** `s` is one of the two accepted spellings of `w`. */
  predicate Names(s: string, w: Weekday) {
    s == FullName(w) || s == Abbrev(w)
  }

  /**
   * `parse_weekday`: a string names a weekday when, lower-cased, it is that
   * day's full name or its abbreviation; anything else names none.
   */
  function ParseWeekday(s: string): (r: Option<Weekday>)
    ensures forall w :: r == Some(w) <==> Names(AsciiLower(s), w)
  {
    var l := AsciiLower(s);
    if l == "monday" || l == "mon" then Some(Mon)
    else if l == "tuesday" || l == "tue" then Some(Tue)
    else if l == "wednesday" || l == "wed" then Some(Wed)
    else if l == "thursday" || l == "thu" then Some(Thu)
    else if l == "friday" || l == "fri" then Some(Fri)
    else if l == "saturday" || l == "sat" then Some(Sat)
    else if l == "sunday" || l == "sun" then Some(Sun)
    else None
  }

  /** The answer depends only on the lower-cased text. */
  lemma ParseWeekdayIgnoresCase(s: string)
    ensures ParseWeekday(s) == ParseWeekday(AsciiLower(s))
  {
    AsciiLowerIdempotent(s);
  }

  /** Every day is found again from either of its names, in any case. */
  lemma {:induction false} ParseWeekdayOfNames(w: Weekday, s: string)
    requires AsciiLower(s) == FullName(w) || AsciiLower(s) == Abbrev(w)
    ensures ParseWeekday(s) == Some(w)
  {
  }

  /** The examples of the source's documentation. */
  lemma ParseWeekdayExamples()
    ensures ParseWeekday("monday") == Some(Mon)
    ensures ParseWeekday("tue") == Some(Tue)
    ensures ParseWeekday("invalid") == None
  {
    AsciiLowerOfLower("monday");
    AsciiLowerOfLower("tue");
    AsciiLowerOfLower("invalid");
  }

  /** Capitals are accepted; a name with extra letters is not. */
  lemma ParseWeekdayCaseAndExtraLetters()
    ensures ParseWeekday("Mon") == Some(Mon)
    ensures ParseWeekday("mondayy") == None
  {
    assert AsciiLower("Mon") == "mon";
    AsciiLowerOfLower("mondayy");
  }

  /**
   * The allowed weekdays: every entry of `summary_days` that names a day,
   * in order, the others skipped.
   */
  function AllowedWeekdays(summaryDays: seq<string>): (r: seq<Weekday>)
    ensures |r| <= |summaryDays|
  {
    if summaryDays == [] then []
    else
      var rest := AllowedWeekdays(summaryDays[1..]);
      match ParseWeekday(summaryDays[0])
      case Some(w) => [w] + rest
      case None => rest
  }

  /** A weekday is allowed exactly when some entry of `summary_days` names it. */
  lemma {:induction false} AllowedWeekdaysMembers(summaryDays: seq<string>, w: Weekday)
    ensures w in AllowedWeekdays(summaryDays) <==> exists d :: d in summaryDays && ParseWeekday(d) == Some(w)
  {
    if summaryDays != [] {
      AllowedWeekdaysMembers(summaryDays[1..], w);
      assert forall d :: d in summaryDays <==> d == summaryDays[0] || d in summaryDays[1..];
    }
  }

  /** The `summary_days` of a configuration file that does not set it. */
  const DefaultSummaryDays: seq<string> := ["monday", "tuesday", "wednesday", "thursday", "friday"]

  /** By default Monday to Friday count, and the weekend does not. */
  lemma DefaultAllowsWorkWeek()
    ensures AllowedWeekdays(DefaultSummaryDays) == [Mon, Tue, Wed, Thu, Fri]
  {
    var ds := DefaultSummaryDays;
    AsciiLowerOfLower("monday");
    ParseWeekdayOfNames(Mon, "monday");
    AsciiLowerOfLower("tuesday");
    ParseWeekdayOfNames(Tue, "tuesday");
    AsciiLowerOfLower("wednesday");
    ParseWeekdayOfNames(Wed, "wednesday");
    AsciiLowerOfLower("thursday");
    ParseWeekdayOfNames(Thu, "thursday");
    AsciiLowerOfLower("friday");
    ParseWeekdayOfNames(Fri, "friday");
    assert ds[4..][1..] == [];
    assert AllowedWeekdays(ds[4..]) == [Fri];
    assert ds[3..][1..] == ds[4..];
    assert AllowedWeekdays(ds[3..]) == [Thu, Fri];
    assert ds[2..][1..] == ds[3..];
    assert AllowedWeekdays(ds[2..]) == [Wed, Thu, Fri];
    assert ds[1..][1..] == ds[2..];
    assert AllowedWeekdays(ds[1..]) == [Tue, Wed, Thu, Fri];
  }

  /** The weekday of a day number; day 0, 1970-01-01, was a Thursday. */
  function WeekdayOf(day: int): Weekday {
    FromIndex((day + 3) % 7)
  }

  /** `k` days back, the weekday index is `k` less, counted round the week. */
  lemma WeekdayOfBefore(today: int, k: nat)
    requires k < 7
    ensures var r := Index(WeekdayOf(today));
            Index(WeekdayOf(today - k)) == if r >= k then r - k else r + 7 - k
  {
    var q := (today + 3) / 7;
    var r := (today + 3) % 7;
    assert today + 3 == 7 * q + r;
    if r >= k {
      assert today - k + 3 == 7 * q + (r - k);
    } else {
      assert today - k + 3 == 7 * (q - 1) + (r + 7 - k);
    }
  }

  /** Any seven consecutive days take every weekday. */
  lemma WeekdaysOfWeek(today: int, w: Weekday)
    ensures exists k :: 0 <= k < 7 && WeekdayOf(DayBefore(today, k)) == w
  {
    var r := Index(WeekdayOf(today));
    var k := if r >= Index(w) then r - Index(w) else r + 7 - Index(w);
    WeekdayOfBefore(today, k);
    assert Index(WeekdayOf(DayBefore(today, k))) == Index(w);
  }

  // ----- Entry titles -----

  /** The lines `extract_entry_titles` takes a title from. */
  predicate IsHeading(t: string) {
    (StartsWith(t, "## ") && Contains(t, " - ")) || StartsWith(t, "# ") || StartsWith(t, "### ")
  }

  /**
   * The title one line contributes: for a trimmed `## ` line holding
   * ` - `, the text between the first ` - ` and the next one (or the end);
   * for a `# ` or `### ` line, the line without its leading `#`s, trimmed;
   * nothing for any other line.
   */
  function LineTitle(line: string): (r: Option<string>)
    ensures r.Some? <==> IsHeading(Trim(line))
    ensures r.Some? && StartsWith(Trim(line), "## ") ==> !Contains(r.value, " - ")
    ensures r.Some? && !StartsWith(Trim(line), "## ") ==> Trimmed(r.value) && |r.value| < |Trim(line)|
    ensures StartsWith(Trim(line), "## ") && Contains(Trim(line), " - ") ==> r == SplitNth1(Trim(line), " - ")
    ensures StartsWith(Trim(line), "# ") || StartsWith(Trim(line), "### ")
            ==> r == Some(Trim(TrimStartMatches(Trim(line), '#')))
  {
    var t := Trim(line);
    HeadingPrefixes(t);
    if StartsWith(t, "## ") && Contains(t, " - ") then SplitNth1(t, " - ")
    else if StartsWith(t, "# ") || StartsWith(t, "### ") then
      HeadingOpensWithHash(t);
      var u := TrimStartMatches(t, '#');
      Some(Trim(u))
    else None
  }

  /** Every heading opens with '#'. */
  lemma HeadingOpensWithHash(t: string)
    ensures StartsWith(t, "## ") || StartsWith(t, "# ") || StartsWith(t, "### ") ==> t != [] && t[0] == '#'
  {
    if StartsWith(t, "## ") {
      assert t[0] == t[..3][0];
    } else if StartsWith(t, "# ") {
      assert t[0] == t[..2][0];
    } else if StartsWith(t, "### ") {
      assert t[0] == t[..4][0];
    }
  }

  /** A `## ` line is neither a `# ` line nor a `### ` line. */
  lemma HeadingPrefixes(t: string)
    ensures StartsWith(t, "## ") ==> !StartsWith(t, "# ") && !StartsWith(t, "### ")
  {
    if StartsWith(t, "## ") {
      assert t[1] == '#' && t[2] == ' ';
    }
  }

  /** `f` applied to each element, in order. */
  function Map<A, B>(f: A -> B, xs: seq<A>): (ys: seq<B>)
    ensures |ys| == |xs|
  {
    if xs == [] then [] else Map(f, xs[..|xs| - 1]) + [f(xs[|xs| - 1])]
  }

  lemma {:induction false} MapAt<A, B>(f: A -> B, xs: seq<A>, i: nat)
    requires i < |xs|
    ensures Map(f, xs)[i] == f(xs[i])
  {
    if i < |xs| - 1 {
      MapAt(f, xs[..|xs| - 1], i);
    }
  }

  lemma {:induction false} MapAppend<A, B>(f: A -> B, a: seq<A>, b: seq<A>)
    ensures Map(f, a + b) == Map(f, a) + Map(f, b)
    decreases |b|
  {
    if b != [] {
      var ab := a + b;
      assert ab[..|ab| - 1] == a + b[..|b| - 1];
      MapAppend(f, a, b[..|b| - 1]);
    } else {
      assert a + b == a;
    }
  }

  /** What each line contributes, line by line. */
  function LineTitles(lines: seq<string>): seq<Option<string>> {
    Map(LineTitle, lines)
  }

  /** The present values among `ts`, in order. */
  function Present(ts: seq<Option<string>>): (r: seq<string>)
    ensures |r| <= |ts|
  {
    if ts == [] then []
    else match ts[|ts| - 1]
         case Some(t) => Present(ts[..|ts| - 1]) + [t]
         case None => Present(ts[..|ts| - 1])
  }

  /** The titles of a list of lines, in line order, at most one per line. */
  function TitlesOf(lines: seq<string>): (titles: seq<string>)
    ensures |titles| <= |lines|
  {
    Present(LineTitles(lines))
  }

  /** What `extract_entry_titles` returns for a day's content. */
  function EntryTitles(content: string): seq<string> {
    TitlesOf(Lines(content))
  }

  /** `extract_entry_titles`: one pass over the lines, pushing each title found. */
  method ExtractEntryTitles(content: string) returns (titles: seq<string>)
    ensures titles == EntryTitles(content)
  {
    var lines := Lines(content);
    ghost var ts := LineTitles(lines);
    titles := [];
    for i := 0 to |lines|
      invariant titles == Present(ts[..i])
    {
      PresentSnoc(ts, i);
      MapAt(LineTitle, lines, i);
      var trimmed := Trim(lines[i]);
      if StartsWith(trimmed, "## ") && Contains(trimmed, " - ") {
        var part := SplitNth1(trimmed, " - ");
        assert ts[i] == part;
        if part.Some? {
          titles := titles + [part.value];
        }
      } else if StartsWith(trimmed, "# ") || StartsWith(trimmed, "### ") {
        assert ts[i] == Some(Trim(TrimStartMatches(trimmed, '#')));
        titles := titles + [Trim(TrimStartMatches(trimmed, '#'))];
      } else {
        assert ts[i].None?;
      }
    }
    assert ts[..|lines|] == ts;
  }

  /** One more element adds its value, if it has one. */
  lemma PresentSnoc(ts: seq<Option<string>>, i: nat)
    requires i < |ts|
    ensures Present(ts[..i + 1]) == Present(ts[..i]) + (if ts[i].Some? then [ts[i].value] else [])
  {
    assert ts[..i + 1][..i] == ts[..i];
  }

  lemma {:induction false} PresentAppend(a: seq<Option<string>>, b: seq<Option<string>>)
    ensures Present(a + b) == Present(a) + Present(b)
    decreases |b|
  {
    if b != [] {
      var ab := a + b;
      assert ab[..|ab| - 1] == a + b[..|b| - 1];
      PresentAppend(a, b[..|b| - 1]);
    } else {
      assert a + b == a;
    }
  }

  /** Titles of consecutive runs of lines come one run after the other. */
  lemma TitlesOfAppend(a: seq<string>, b: seq<string>)
    ensures TitlesOf(a + b) == TitlesOf(a) + TitlesOf(b)
  {
    MapAppend(LineTitle, a, b);
    PresentAppend(LineTitles(a), LineTitles(b));
  }

  /** A single line contributes its own title, or nothing. */
  lemma TitlesOfOneLine(line: string)
    ensures TitlesOf([line]) == match LineTitle(line) case Some(t) => [t] case None => []
  {
    var ts := LineTitles([line]);
    assert ts[..0] == [];
  }

  // ----- The fallback when a day has no titles -----

  /** The first of the first two lines that is not blank, trimmed. */
  function FirstOfTwo(ls: seq<string>): (r: Option<string>)
    ensures r.None? <==> forall k :: 0 <= k < |ls| && k < 2 ==> IsBlank(ls[k])
    ensures r.Some? ==> r.value != [] && Trimmed(r.value)
    ensures r.Some? ==> exists k :: 0 <= k < 2 && k < |ls| && !IsBlank(ls[k])
                         && (forall j :: 0 <= j < k ==> IsBlank(ls[j])) && r.value == Trim(ls[k])
  {
    if |ls| > 0 && !IsBlank(ls[0]) then Some(Trim(ls[0]))
    else if |ls| > 1 && !IsBlank(ls[1]) then Some(Trim(ls[1]))
    else None
  }

  /**
   * What the summary shows for a day without titles: the first of the
   * day's first two lines that is not blank, trimmed; nothing when both
   * are blank, however much text follows them.
   */
  function FallbackLine(content: string): Option<string> {
    FirstOfTwo(Lines(content))
  }

  /** The source's loop over `content.lines().take(2)` that stops at the first non-blank line. */
  method FirstShownLine(content: string) returns (line: Option<string>)
    ensures line == FallbackLine(content)
  {
    var lines := Lines(content);
    var n := if |lines| < 2 then |lines| else 2;
    line := None;
    for k := 0 to n
      invariant line.None?
      invariant forall j :: 0 <= j < k ==> IsBlank(lines[j])
    {
      if !IsBlank(lines[k]) {
        assert FirstOfTwo(lines) == Some(Trim(lines[k]));
        line := Some(Trim(lines[k]));
        break;
      }
    }
    assert line == FirstOfTwo(lines);
  }

  lemma LinesOfTwoBlankThenText()
    ensures Lines("\n\nx") == ["", "", "x"]
  {
    LinesCons("", "\nx");
    assert "" + "\n" + "\nx" == "\n\nx";
    LinesCons("", "x");
    assert "" + "\n" + "x" == "\nx";
    LinesOfOneLine("x");
  }

  /** Lines none of which is a heading have no titles. */
  lemma {:induction false} NoHeadingsNoTitles(lines: seq<string>)
    requires forall i :: 0 <= i < |lines| ==> LineTitle(lines[i]) == None
    ensures TitlesOf(lines) == []
  {
    if lines != [] {
      var init := lines[..|lines| - 1];
      NoHeadingsNoTitles(init);
      assert Map(LineTitle, lines) == Map(LineTitle, init) + [LineTitle(lines[|lines| - 1])];
    }
  }

  /** A day can have text and still show nothing: its first two lines are blank. */
  lemma FallbackMissesLaterText()
    ensures !IsBlank("\n\nx")
    ensures EntryTitles("\n\nx") == [] && FallbackLine("\n\nx") == None
  {
    assert !IsBlank("\n\nx") by {
      assert "\n\nx"[2] == 'x';
    }
    assert EntryTitles("\n\nx") == [] by {
      LinesOfTwoBlankThenText();
      NoTitlesInPlainLines();
    }
    assert FallbackLine("\n\nx") == None by {
      LinesOfTwoBlankThenText();
    }
  }

  lemma NoTitlesInPlainLines()
    ensures TitlesOf(["", "", "x"]) == []
  {
    var ls: seq<string> := ["", "", "x"];
    forall i | 0 <= i < |ls|
      ensures LineTitle(ls[i]) == None
    {
      if i < 2 {
        assert ls[i] == "";
        EmptyLineIsNoHeading();
      } else {
        assert ls[i] == "x";
        PlainLineIsNoHeading();
      }
    }
    NoHeadingsNoTitles(ls);
  }

  /** A `### ` line shows without its `#`s and the space after them. */
  lemma SmallHeadingExample()
    ensures LineTitle("### Notes") == Some("Notes")
  {
    var t := "### Notes";
    SmallHeadingShape();
    SmallHeadingHashes();
    assert Trim(" " + "Notes") == "Notes" by {
      TrimLeadingSpace(' ', "Notes");
    }
  }

  lemma SmallHeadingShape()
    ensures Trim("### Notes") == "### Notes"
    ensures StartsWith("### Notes", "### ") && !StartsWith("### Notes", "## ")
  {
    SmallHeadingTrimmed();
    SmallHeadingPrefix();
  }

  lemma SmallHeadingTrimmed()
    ensures Trim("### Notes") == "### Notes"
  {
    var t := "### Notes";
    assert t[0] == '#' && t[|t| - 1] == 's';
    TrimOfTrimmed(t);
  }

  lemma SmallHeadingPrefix()
    ensures StartsWith("### Notes", "### ") && !StartsWith("### Notes", "## ")
  {
    var t := "### Notes";
    assert t[..4] == "### ";
    assert t[..3][2] == '#';
  }

  lemma SmallHeadingHashes()
    ensures TrimStartMatches("### Notes", '#') == " " + "Notes"
  {
    var t := "### Notes";
    assert t[0] == '#' && t[1] == '#' && t[2] == '#' && t[3] == ' ';
    HashPrefix(t, 3);
    assert t[3..] == " " + "Notes";
  }

  /** `trim_start_matches('#')` removes exactly the leading run of `#`s. */
  lemma {:induction false} HashPrefix(t: string, k: nat)
    requires k < |t| && t[k] != '#'
    requires forall i :: 0 <= i < k ==> t[i] == '#'
    ensures TrimStartMatches(t, '#') == t[k..]
  {
    if k > 0 {
      assert t[0] == '#';
      HashPrefix(t[1..], k - 1);
      assert t[1..][k - 1..] == t[k..];
    }
  }

  lemma EmptyLineIsNoHeading()
    ensures LineTitle("") == None
  {
    assert !IsHeading(Trim(""));
  }

  lemma PlainLineIsNoHeading()
    ensures LineTitle("x") == None
  {
    assert Trimmed("x") by {
      assert "x"[0] == 'x';
    }
    TrimOfTrimmed("x");
    ShortLineIsNoHeading("x");
  }

  /** A line that trims to fewer than two characters is no heading. */
  lemma ShortLineIsNoHeading(line: string)
    requires |Trim(line)| < 2
    ensures LineTitle(line) == None
  {
    assert !StartsWith(Trim(line), "## ");
    assert !StartsWith(Trim(line), "# ");
    assert !StartsWith(Trim(line), "### ");
  }

  // ----- Collecting the days -----

  /** A day whose file exists and is not blank. */
  datatype DayEntry = DayEntry(day: int, content: string)

  /** The day `i` days before `today`. */
  function DayBefore(today: int, i: nat): int {
    today - i
  }

  /** The day's file exists and holds something besides whitespace. */
  predicate HasEntry(logs: map<int, string>, day: int) {
    day in logs && !IsBlank(logs[day])
  }

  /** How many of the `n` days from `today` back have an allowed weekday. */
  function EligibleCount(allowed: seq<Weekday>, today: int, n: nat): nat {
    if n == 0 then 0
    else EligibleCount(allowed, today, n - 1) + (if WeekdayOf(today - (n - 1)) in allowed then 1 else 0)
  }

  /** The days with entries among those `n` days, from today backwards. */
  function Collected(allowed: seq<Weekday>, logs: map<int, string>, today: int, n: nat): seq<DayEntry> {
    if n == 0 then []
    else
      var day := today - (n - 1);
      Collected(allowed, logs, today, n - 1)
        + (if WeekdayOf(day) in allowed && HasEntry(logs, day) then [DayEntry(day, logs[day])] else [])
  }

  /**
   * The counting loop of `summarize_logs`: walking `days` days back from
   * today, count the days with an allowed weekday and collect those whose
   * file has non-blank content.
   */
  method CollectEntries(allowed: seq<Weekday>, logs: map<int, string>, today: int, days: nat)
    returns (totalEntries: nat, eligibleDays: nat, entries: seq<DayEntry>)
    ensures eligibleDays == EligibleCount(allowed, today, days)
    ensures entries == Collected(allowed, logs, today, days)
    ensures totalEntries == |entries|
  {
    totalEntries, eligibleDays, entries := 0, 0, [];
    for i := 0 to days
      invariant eligibleDays == EligibleCount(allowed, today, i)
      invariant entries == Collected(allowed, logs, today, i)
      invariant totalEntries == |entries|
    {
      var day := today - i;
      if WeekdayOf(day) in allowed {
        eligibleDays := eligibleDays + 1;
        if day in logs {
          var content := logs[day];
          if !IsBlank(content) {
            totalEntries := totalEntries + 1;
            entries := entries + [DayEntry(day, content)];
          }
        }
      }
    }
  }

  /** Days with entries are among the eligible days, which are among the days walked. */
  lemma {:induction false} CollectedBounds(allowed: seq<Weekday>, logs: map<int, string>, today: int, n: nat)
    ensures |Collected(allowed, logs, today, n)| <= EligibleCount(allowed, today, n) <= n
  {
    if n > 0 {
      CollectedBounds(allowed, logs, today, n - 1);
    }
  }

  /**
   * A day is collected, with its file's content, exactly when it is one of
   * the `n` days walked, its weekday is allowed and its file is not blank.
   */
  lemma {:induction false} CollectedMembers(allowed: seq<Weekday>, logs: map<int, string>, today: int, n: nat, e: DayEntry)
    ensures e in Collected(allowed, logs, today, n)
        <==> today - n < e.day <= today && WeekdayOf(e.day) in allowed
             && HasEntry(logs, e.day) && e.content == logs[e.day]
  {
    if n > 0 {
      CollectedMembers(allowed, logs, today, n - 1, e);
    }
  }

  /** Collected days run from the most recent back, each day at most once. */
  lemma {:induction false} CollectedDescending(allowed: seq<Weekday>, logs: map<int, string>, today: int, n: nat)
    ensures forall e :: e in Collected(allowed, logs, today, n) ==> today - n < e.day <= today
    ensures forall i, j :: 0 <= i < j < |Collected(allowed, logs, today, n)|
              ==> Collected(allowed, logs, today, n)[i].day > Collected(allowed, logs, today, n)[j].day
  {
    if n > 0 {
      CollectedDescending(allowed, logs, today, n - 1);
    }
  }

  /** With no allowed weekday, nothing is eligible and nothing is collected. */
  lemma {:induction false} NothingAllowedNothingCollected(logs: map<int, string>, today: int, n: nat)
    ensures EligibleCount([], today, n) == 0
    ensures Collected([], logs, today, n) == []
  {
    if n > 0 {
      NothingAllowedNothingCollected(logs, today, n - 1);
    }
  }

  /** 1 when the day's weekday is allowed, else 0. */
  function Hit(allowed: seq<Weekday>, day: int): nat {
    if WeekdayOf(day) in allowed then 1 else 0
  }

  /** The seven days from `today` back, one term per day. */
  lemma EligibleWeek(allowed: seq<Weekday>, today: int)
    ensures EligibleCount(allowed, today, 7)
         == Hit(allowed, today) + Hit(allowed, today - 1) + Hit(allowed, today - 2) + Hit(allowed, today - 3)
          + Hit(allowed, today - 4) + Hit(allowed, today - 5) + Hit(allowed, today - 6)
  {
    assert EligibleCount(allowed, today, 1) == Hit(allowed, today);
    assert EligibleCount(allowed, today, 3) == EligibleCount(allowed, today, 1) + Hit(allowed, today - 1) + Hit(allowed, today - 2);
    assert EligibleCount(allowed, today, 5) == EligibleCount(allowed, today, 3) + Hit(allowed, today - 3) + Hit(allowed, today - 4);
  }

  lemma WorkWeekHit(day: int)
    ensures Hit([Mon, Tue, Wed, Thu, Fri], day) == if Index(WeekdayOf(day)) < 5 then 1 else 0
  {
  }

  /** Whatever today's weekday, five of the seven weekday indexes walked are below 5. */
  lemma FiveOfSeven(r: int)
    requires 0 <= r < 7
    ensures (if r < 5 then 1 else 0)
          + (if (if r >= 1 then r - 1 else r + 6) < 5 then 1 else 0)
          + (if (if r >= 2 then r - 2 else r + 5) < 5 then 1 else 0)
          + (if (if r >= 3 then r - 3 else r + 4) < 5 then 1 else 0)
          + (if (if r >= 4 then r - 4 else r + 3) < 5 then 1 else 0)
          + (if (if r >= 5 then r - 5 else r + 2) < 5 then 1 else 0)
          + (if (if r >= 6 then r - 6 else r + 1) < 5 then 1 else 0) == 5
  {
  }

  /** Over any seven days, a Monday-to-Friday filter admits exactly five. */
  lemma WorkWeekHasFiveDays(today: int)
    ensures EligibleCount([Mon, Tue, Wed, Thu, Fri], today, 7) == 5
  {
    EligibleWeek([Mon, Tue, Wed, Thu, Fri], today);
    WorkWeekHit(today);
    WorkWeekHit(today - 1);
    WorkWeekHit(today - 2);
    WorkWeekHit(today - 3);
    WorkWeekHit(today - 4);
    WorkWeekHit(today - 5);
    WorkWeekHit(today - 6);
    WeekdayOfBefore(today, 1);
    WeekdayOfBefore(today, 2);
    WeekdayOfBefore(today, 3);
    WeekdayOfBefore(today, 4);
    WeekdayOfBefore(today, 5);
    WeekdayOfBefore(today, 6);
    FiveOfSeven(Index(WeekdayOf(today)));
  }

  // ----- The summary -----

  /** What the summary lists under a day: its titles, or else its fallback line. */
  datatype Highlights = Titles(titles: seq<string>) | FirstLine(line: Option<string>)

  datatype DayReport = DayReport(day: int, highlights: Highlights)

  /**
   * The outcome of `summarize_logs` without its printing: no entries at
   * all, or the two counts behind the consistency figure and the report of
   * each collected day, most recent first.
   */
  datatype Report = NoEntries | Stats(totalEntries: nat, eligibleDays: nat, days: seq<DayReport>)

  /** The highlights of one day's content. */
  function HighlightsOf(content: string): Highlights {
    var titles := EntryTitles(content);
    if titles != [] then Titles(titles) else FirstLine(FallbackLine(content))
  }

  /** One report per collected day, in the same order. */
  function ReportsOf(entries: seq<DayEntry>): (rs: seq<DayReport>)
    ensures |rs| == |entries|
  {
    if entries == [] then []
    else ReportsOf(entries[..|entries| - 1])
         + [DayReport(entries[|entries| - 1].day, HighlightsOf(entries[|entries| - 1].content))]
  }

  /** The summary of the `days` days back from `today`, as a value. */
  function SummaryOf(summaryDays: seq<string>, logs: map<int, string>, today: int, days: nat): Report {
    var allowed := AllowedWeekdays(summaryDays);
    var entries := Collected(allowed, logs, today, days);
    if entries == [] then NoEntries
    else Stats(|entries|, EligibleCount(allowed, today, days), ReportsOf(entries))
  }

  /**
   * `summarize_logs(log_dir, days, config)` on the given day, with the log
   * directory read into `logs` and the report returned instead of printed.
   */
  method SummarizeLogs(summaryDays: seq<string>, logs: map<int, string>, today: int, days: nat)
    returns (report: Report)
    ensures report == SummaryOf(summaryDays, logs, today, days)
  {
    var allowed := AllowedWeekdays(summaryDays);
    var totalEntries, eligibleDays, entries := CollectEntries(allowed, logs, today, days);
    if entries == [] {
      return NoEntries;
    }
    var reports: seq<DayReport> := [];
    for i := 0 to |entries|
      invariant reports == ReportsOf(entries[..i])
    {
      assert entries[..i + 1][..i] == entries[..i];
      var titles := ExtractEntryTitles(entries[i].content);
      var highlights;
      if titles != [] {
        highlights := Titles(titles);
      } else {
        var line := FirstShownLine(entries[i].content);
        highlights := FirstLine(line);
      }
      reports := reports + [DayReport(entries[i].day, highlights)];
    }
    assert entries[..|entries|] == entries;
    report := Stats(totalEntries, eligibleDays, reports);
  }

  /**
   * A configuration whose `summary_days` names no day (the derived default
   * a configuration file that fails to parse falls back to) reports no
   * entries, whatever the logs hold.
   */
  lemma EmptyConfigReportsNothing(logs: map<int, string>, today: int, days: nat)
    ensures SummaryOf([], logs, today, days) == NoEntries
  {
    NothingAllowedNothingCollected(logs, today, days);
  }

  /**
   * The statistics are well formed: with no collected day there is no
   * statistics at all; otherwise at least one day was eligible (so the
   * consistency ratio has a non-zero denominator), the entries do not
   * outnumber the eligible days, nor those the days walked, and every
   * collected day gets one report.
   */
  lemma SummaryCounts(summaryDays: seq<string>, logs: map<int, string>, today: int, days: nat)
    ensures SummaryOf(summaryDays, logs, today, days).NoEntries?
        <==> forall i :: 0 <= i < days ==>
               !(WeekdayOf(DayBefore(today, i)) in AllowedWeekdays(summaryDays) && HasEntry(logs, DayBefore(today, i)))
    ensures SummaryOf(summaryDays, logs, today, days).Stats? ==>
              var r := SummaryOf(summaryDays, logs, today, days);
              1 <= r.eligibleDays && r.totalEntries <= r.eligibleDays <= days
              && |r.days| == r.totalEntries
  {
    var allowed := AllowedWeekdays(summaryDays);
    var entries := Collected(allowed, logs, today, days);
    CollectedBounds(allowed, logs, today, days);
    forall i | 0 <= i < days
      ensures WeekdayOf(DayBefore(today, i)) in allowed && HasEntry(logs, DayBefore(today, i))
              ==> DayEntry(DayBefore(today, i), logs[DayBefore(today, i)]) in entries
    {
      CollectedMembers(allowed, logs, today, days, DayEntry(DayBefore(today, i), ""));
      if WeekdayOf(DayBefore(today, i)) in allowed && HasEntry(logs, DayBefore(today, i)) {
        CollectedMembers(allowed, logs, today, days, DayEntry(DayBefore(today, i), logs[DayBefore(today, i)]));
      }
    }
    if entries != [] {
      var e := entries[0];
      CollectedMembers(allowed, logs, today, days, e);
      assert DayBefore(today, today - e.day) == e.day;
    }
  }
}
