/**
 * What the summary reads back from what the journal writes: the header
 * line `## HH:MM - title` that `format_entry` produces is exactly the kind
 * of line `extract_entry_titles` takes a title from, so appending a titled
 * entry to a day's file adds that title to the day's list.
 */
module LogTitles {
  import opened Wrappers
  import opened RustStr
  import Paths
  import opened Entry
  import opened Summary

  /** The search finds the first occurrence: the one at `k` when none comes before it. */
  lemma FindFromAt(s: string, pat: string, from: nat, k: nat)
    requires from <= k && OccursAt(s, pat, k)
    requires forall j: nat :: from <= j < k ==> !OccursAt(s, pat, j)
    ensures FindFrom(s, pat, from) == Some(k)
  {
  }

  /** A match inside a suffix of `s` is a match inside `s`. */
  lemma NoMatchInSuffix(s: string, pat: string, q: nat)
    requires q <= |s| && !Contains(s[q..], pat)
    ensures FindFrom(s, pat, q).None?
  {
    if FindFrom(s, pat, q).Some? {
      var v := FindFrom(s, pat, q).value;
      assert s[q..][v - q..v - q + |pat|] == s[v..v + |pat|];
      assert OccursAt(s[q..], pat, v - q);
      assert false;
    }
  }

  /** The header of a titled entry, as the clock fills it in. */
  lemma HeaderShape(title: string, now: Time)
    requires ValidTime(now)
    ensures var h := Header(title, now);
            |h| == 11 + |title| && h[..3] == "## " && h[8..11] == " - " && h[11..] == title
            && Paths.AllDigits(h[3..5]) && h[5] == ':' && Paths.AllDigits(h[6..8])
  {
    var c := ClockText(now);
    var h := Header(title, now);
    assert h == "## " + c + " - " + title;
    assert h[3..8] == c;
    assert h[3..5] == c[..2];
    assert h[6..8] == c[3..];
  }

  /** Searching from `q` is searching the suffix that starts at `q`. */
  lemma FindFromSuffix(s: string, pat: string, q: nat)
    requires q <= |s|
    ensures FindFrom(s, pat, q) == match FindFrom(s[q..], pat, 0)
                                   case None => None
                                   case Some(k) => Some(q + k)
  {
    match FindFrom(s[q..], pat, 0)
    case None =>
      NoMatchInSuffix(s, pat, q);
    case Some(k) =>
      assert s[q..][k..k + |pat|] == s[q + k..q + k + |pat|];
      forall j: nat | q <= j < q + k
        ensures !OccursAt(s, pat, j)
      {
        assert !OccursAt(s[q..], pat, j - q);
        if j + |pat| <= |s| {
          assert s[q..][j - q..j - q + |pat|] == s[j..j + |pat|];
        }
      }
      FindFromAt(s, pat, q, q + k);
  }

  /**
   * The part of a title the summary can show: everything before the
   * title's own first ` - `, or the whole title when it has none.
   */
  function TitleBeforeDash(title: string): (r: string)
    ensures StartsWith(title, r)
    ensures !Contains(r, " - ")
    ensures r == title <==> !Contains(title, " - ")
    ensures r != title ==> OccursAt(title, " - ", |r|)
  {
    match FindFrom(title, " - ", 0)
    case None => title
    case Some(p) =>
      NoMatchBeforeFirst(title, " - ", p);
      title[..p]
  }

  /** The text before the first occurrence of `pat` holds no occurrence of it. */
  lemma NoMatchBeforeFirst(s: string, pat: string, p: nat)
    requires pat != [] && FindFrom(s, pat, 0) == Some(p)
    ensures !Contains(s[..p], pat)
  {
    forall k: nat | k + |pat| <= p
      ensures !OccursAt(s[..p], pat, k)
    {
      assert k < p && !OccursAt(s, pat, k);
      assert s[..p][k..k + |pat|] == s[k..k + |pat|];
    }
  }

  /**
   * The title the summary reads from a header line is the title written
   * into it, cut short at the title's own first ` - ` if it has one (the
   * split takes the piece between the first and the second ` - ` of the
   * line).
   */
  lemma HeaderTitle(title: string, now: Time)
    requires ValidTime(now)
    requires title != [] && Trimmed(title)
    ensures LineTitle(Header(title, now)) == Some(TitleBeforeDash(title))
  {
    var h := Header(title, now);
    HeaderShape(title, now);
    HeaderFirstDash(h, title);
    FindFromSuffix(h, " - ", 11);
    assert SplitNth1(h, " - ") == Some(TitleBeforeDash(title)) by {
      match FindFrom(title, " - ", 0)
      case None =>
      case Some(p) =>
        assert h[11..11 + p] == title[..p];
    }
  }

  /** A line shaped like a header is trimmed and has its first ` - ` right after the clock. */
  lemma HeaderFirstDash(h: string, title: string)
    requires title != [] && Trimmed(title)
    requires |h| == 11 + |title| && h[..3] == "## " && h[8..11] == " - " && h[11..] == title
    requires Paths.AllDigits(h[3..5]) && h[5] == ':' && Paths.AllDigits(h[6..8])
    ensures Trim(h) == h && StartsWith(h, "## ") && FindFrom(h, " - ", 0) == Some(8)
  {
    assert Trimmed(h) by {
      assert h[0] == h[..3][0];
      assert h[|h| - 1] == h[11..][|title| - 1];
    }
    TrimOfTrimmed(h);
    NoDashInClock(h);
    FindFromAt(h, " - ", 0, 8);
  }

  /** No ` - ` starts inside `## HH:MM`: each place one would need a '-' holds something else. */
  lemma NoDashInClock(h: string)
    requires |h| >= 11 && h[..3] == "## " && h[8..11] == " - "
    requires Paths.AllDigits(h[3..5]) && h[5] == ':' && Paths.AllDigits(h[6..8])
    ensures forall j: nat :: j < 8 ==> !OccursAt(h, " - ", j)
  {
    forall j: nat | j < 8
      ensures !OccursAt(h, " - ", j)
    {
      var m := j + 1;
      if m < 3 {
        assert h[m] == h[..3][m];
      } else if m < 5 {
        assert h[m] == h[3..5][m - 3];
      } else if 5 < m < 8 {
        assert h[m] == h[6..8][m - 6];
      } else if m == 8 {
        assert h[m] == h[8..11][0];
      }
      assert h[m] != '-';
      assert h[j..j + 3][1] == h[m];
    }
  }

  /** A title without ` - ` of its own comes back whole. */
  lemma HeaderTitleRoundTrip(title: string, now: Time)
    requires ValidTime(now)
    requires title != [] && Trimmed(title) && !Contains(title, " - ")
    ensures LineTitle(Header(title, now)) == Some(title)
  {
    HeaderTitle(title, now);
  }

  /** A header line built from a one-line title is one line, and `lines` leaves it whole. */
  lemma HeaderIsOneLine(h: string, title: string)
    requires title != [] && Trimmed(title) && '\n' !in title
    requires |h| == 11 + |title| && h[..3] == "## " && h[8..11] == " - " && h[11..] == title
    requires Paths.AllDigits(h[3..5]) && h[5] == ':' && Paths.AllDigits(h[6..8])
    ensures '\n' !in h && StripCR(h) == h
  {
    forall i | 0 <= i < |h|
      ensures h[i] != '\n'
    {
      if i < 3 {
        assert h[i] == h[..3][i];
      } else if i < 5 {
        assert h[i] == h[3..5][i - 3];
      } else if 5 < i < 8 {
        assert h[i] == h[6..8][i - 6];
      } else if 8 <= i < 11 {
        assert h[i] == h[8..11][i - 8];
      } else if 11 <= i {
        assert h[i] == h[11..][i - 11];
      }
    }
    assert h[|h| - 1] == h[11..][|title| - 1];
  }

  /** A final `\n` after a last line that does not end in `\r` adds no line. */
  lemma {:induction false} LinesWithFinalNewline(s: string)
    requires s != [] && s[|s| - 1] != '\n' && s[|s| - 1] != '\r'
    ensures Lines(s + "\n") == Lines(s)
    decreases |s|
  {
    var k := IndexOf(s, '\n');
    if k == |s| {
      LinesCons(s, "");
      assert s + "\n" + "" == s + "\n";
      LinesOfOneLine(s);
    } else {
      LastOfSuffix(s, k + 1);
      LinesWithFinalNewline(s[k + 1..]);
      FinalNewlineAfterCut(s, k);
    }
  }

  /** The step: a final `\n` that adds no line to the text after the first cut adds none to the whole. */
  lemma FinalNewlineAfterCut(s: string, k: nat)
    requires k < |s| && s[k] == '\n' && '\n' !in s[..k]
    requires Lines(s[k + 1..] + "\n") == Lines(s[k + 1..])
    ensures Lines(s + "\n") == Lines(s)
  {
    var a := s[..k];
    var rest := s[k + 1..];
    SplitAtNewline(s, k);
    LinesCons(a, rest);
    LinesCons(a, rest + "\n");
  }

  /** Text cut at one of its `\n`s, with and without a final `\n` added. */
  lemma SplitAtNewline(s: string, k: nat)
    requires k < |s| && s[k] == '\n'
    ensures s == s[..k] + "\n" + s[k + 1..]
    ensures s + "\n" == s[..k] + "\n" + (s[k + 1..] + "\n")
  {
    assert s == s[..k] + [s[k]] + s[k + 1..];
  }

  /** A suffix that is not empty ends where the whole text does. */
  lemma LastOfSuffix(s: string, j: nat)
    requires j < |s|
    ensures s[j..] != [] && s[j..][|s[j..]| - 1] == s[|s| - 1]
  {
  }

  /** A single `\n` is one empty line, and an empty line holds no title. */
  lemma NewlineIsEmptyLine()
    ensures Lines("\n") == [""]
  {
    LinesCons("", "");
    assert "" + "\n" + "" == "\n";
  }

  /** An empty line holds no title. */
  lemma EmptyLineHasNoTitle()
    ensures TitlesOf([""]) == []
  {
    TitlesOfOneLine("");
    assert !IsHeading(Trim(""));
  }

  /** A body followed by the two newlines that close an entry: its own lines, then an empty one. */
  lemma BodyLines(body: string)
    requires body != [] && !IsWhitespace(body[|body| - 1])
    ensures Lines(body + "\n\n") == Lines(body) + [""]
  {
    assert body + "\n\n" == (body + "\n") + "\n";
    LinesAppend(body + "\n", "\n");
    LinesWithFinalNewline(body);
    NewlineIsEmptyLine();
  }

  /** A one-line header opening a text splits off as its first line. */
  lemma HeaderThen(h: string, rest: string)
    requires '\n' !in h && StripCR(h) == h
    ensures Lines(h + "\n" + rest) == [h] + Lines(rest)
  {
    LinesCons(h, rest);
  }

  /**
   * The lines `append_to_log` writes for a titled entry, with the newline
   * `writeln!` adds: the header, an empty line, and when there is a body,
   * the body's lines and one more empty line.
   */
  lemma TitledFragmentLines(h: string, body: string, fragment: string)
    requires h != [] && '\n' !in h && StripCR(h) == h
    requires body == [] || !IsWhitespace(body[|body| - 1])
    requires fragment == if body == [] then h + "\n" else h + "\n\n" + body + "\n"
    ensures Lines(fragment + "\n") == [h, ""] + Lines(body) + (if body == [] then [] else [""])
  {
    if body == [] {
      assert fragment + "\n" == h + "\n" + "\n";
      HeaderThen(h, "\n");
      NewlineIsEmptyLine();
      assert Lines(body) == [];
    } else {
      var rest := body + "\n\n";
      assert fragment + "\n" == h + "\n" + ("\n" + rest);
      HeaderThen(h, "\n" + rest);
      EmptyFirstLine(rest);
      BodyLines(body);
      Regroup(h, "", Lines(body));
    }
  }

  lemma Regroup<T>(x: T, y: T, m: seq<T>)
    ensures [x] + ([y] + (m + [y])) == [x, y] + m + [y]
  {
  }

  /** Text that opens with `\n` opens with an empty line. */
  lemma EmptyFirstLine(rest: string)
    ensures Lines("\n" + rest) == [""] + Lines(rest)
  {
    var s := "\n" + rest;
    assert s[0] == '\n';
    assert IndexOf(s, '\n') == 0;
    assert s[1..] == rest;
  }

  /**
   * What the summary lists for a titled fragment written to a day's file:
   * the title (cut at its own first ` - `), then the titles of the body's
   * own lines.
   */
  lemma FragmentTitles(title: string, body: string, now: Time)
    requires ValidTime(now)
    requires title != [] && Trimmed(title) && '\n' !in title && Trimmed(body)
    ensures EntryTitles(FormatEntry(Some(title), body, now) + "\n")
            == [TitleBeforeDash(title)] + EntryTitles(body)
  {
    var h := Header(title, now);
    HeaderShape(title, now);
    HeaderIsOneLine(h, title);
    HeaderTitle(title, now);
    var fragment := FormatEntry(Some(title), body, now);
    assert fragment == if body == [] then h + "\n" else h + "\n\n" + body + "\n";
    TitledFragmentLines(h, body, fragment);
    var tail := if body == [] then [] else [""];
    EmptyLineHasNoTitle();
    TailTitles(tail);
    HeaderBlockTitles(h, "", Lines(body), tail);
  }

  /** A header, an empty line, some lines and perhaps one more empty line: the header's title first. */
  lemma HeaderBlockTitles(h: string, e: string, ls: seq<string>, tail: seq<string>)
    requires LineTitle(h).Some? && TitlesOf([e]) == [] && TitlesOf(tail) == []
    ensures TitlesOf([h, e] + ls + tail) == [LineTitle(h).value] + TitlesOf(ls)
  {
    HeaderThenEmptyTitles(h, e);
    TitlesOfAppend([h, e], ls);
    TitlesOfAppend([h, e] + ls, tail);
    DropEmpty([LineTitle(h).value] + TitlesOf(ls));
  }

  /** A header followed by a line without a title (an empty one, where it is used). */
  lemma HeaderThenEmptyTitles(h: string, e: string)
    requires LineTitle(h).Some? && TitlesOf([e]) == []
    ensures TitlesOf([h, e]) == [LineTitle(h).value]
  {
    TitlesOfOneLine(h);
    OneLineThenEmpty(h, e, TitlesOf([h]));
  }

  lemma OneLineThenEmpty(h: string, e: string, ts: seq<string>)
    requires TitlesOf([h]) == ts && TitlesOf([e]) == []
    ensures TitlesOf([h, e]) == ts
  {
    Pair(h, e);
    TitlesOfAppend([h], [e]);
  }

  lemma Pair<T>(x: T, y: T)
    ensures [x, y] == [x] + [y]
  {
  }

  lemma TailTitles(tail: seq<string>)
    requires tail == [] || tail == [""]
    ensures TitlesOf(tail) == []
  {
    EmptyLineHasNoTitle();
  }

  lemma DropEmpty<T>(a: seq<T>)
    ensures a + [] == a
  {
  }


  /** Trimming a line leaves a line. */
  lemma TrimOfOneLine(s: string)
    requires '\n' !in s
    ensures '\n' !in Trim(s)
  {
    TrimIsInfix(s);
    var i, j :| 0 <= i <= j <= |s| && Trim(s) == s[i..j];
    forall k | 0 <= k < j - i
      ensures s[i..j][k] != '\n'
    {
      assert s[i..j][k] == s[i + k];
    }
  }

  /** A parsed title is a trimmed first line, so it holds no `\n`. */
  lemma ParsedTitleIsOneLine(content: string)
    requires Parse(content).title.Some?
    ensures '\n' !in Parse(content).title.value
  {
    var lines := Lines(content);
    assert Parse(content).title.value == Trim(lines[0]);
    TrimOfOneLine(lines[0]);
  }

  /**
   * Appending a titled entry to a day's file (one that ends in `\n`, as
   * files built by appending do) adds the entry's title, cut at its own
   * first ` - `, to what the summary lists for that day, after the titles
   * already there and before the titles of headings inside the body.
   */
  lemma AppendedTitles(file: Option<string>, content: string, now: Time)
    requires ValidTime(now) && EndsWithNewline(file)
    requires Parse(content).title.Some?
    ensures Appended(file, content, now).Some?
    ensures EntryTitles(Appended(file, content, now).value)
            == EntryTitles(file.GetOr("")) + [TitleBeforeDash(Parse(content).title.value)]
               + EntryTitles(Parse(content).body)
  {
    var e := Parse(content);
    var title := e.title.value;
    var before := file.GetOr("");
    var fragment := FormatEntry(Some(title), e.body, now);
    AppendedTitledEntry(file, content, now);
    ContentsBeforeEndInNewline(file);
    TitlesAfter(before, fragment);
    ParsedTitleIsOneLine(content);
    FragmentTitles(title, e.body, now);
    Reassociate(EntryTitles(before), [TitleBeforeDash(title)], EntryTitles(e.body));
  }

  /** A titled entry is never blank, so appending it always writes the fragment and a newline. */
  lemma AppendedTitledEntry(file: Option<string>, content: string, now: Time)
    requires ValidTime(now)
    requires Parse(content).title.Some?
    ensures Appended(file, content, now)
            == Some(file.GetOr("") + FormatEntry(Some(Parse(content).title.value), Parse(content).body, now) + "\n")
  {
    var e := Parse(content);
    var fragment := Fragment(content, now);
    assert fragment == FormatEntry(Some(e.title.value), e.body, now);
    FormatEntryBlank(e.title, e.body, now);
  }

  lemma ContentsBeforeEndInNewline(file: Option<string>)
    requires EndsWithNewline(file)
    ensures var before := file.GetOr(""); before == [] || before[|before| - 1] == '\n'
  {
    match file
    case None =>
    case Some(c) =>
  }

  /** The titles of a file that ends its last line, followed by more lines. */
  lemma TitlesAfter(before: string, more: string)
    requires before == [] || before[|before| - 1] == '\n'
    ensures EntryTitles(before + more + "\n") == EntryTitles(before) + EntryTitles(more + "\n")
  {
    assert before + more + "\n" == before + (more + "\n");
    LinesAppend(before, more + "\n");
    TitlesOfAppend(Lines(before), Lines(more + "\n"));
  }

  lemma Reassociate<T>(a: seq<T>, b: seq<T>, c: seq<T>)
    ensures a + (b + c) == a + b + c
  {
  }

  // ----- The documented example of `extract_entry_titles` -----

  /** Two headers with a paragraph between them, each separated by an empty line. */
  lemma {:induction false} FiveLines(h1: string, p: string, h2: string)
    requires '\n' !in h1 && '\n' !in p && '\n' !in h2 && h2 != []
    requires StripCR(h1) == h1 && StripCR(p) == p
    ensures Lines(h1 + "\n\n" + p + "\n\n" + h2) == [h1] + [""] + [p] + [""] + [h2]
  {
    var x2 := "\n" + h2;
    var x1 := p + "\n" + x2;
    assert h1 + "\n\n" + p + "\n\n" + h2 == h1 + "\n" + ("\n" + x1);
    LinesCons(h1, "\n" + x1);
    EmptyFirstLine(x1);
    LinesCons(p, x2);
    EmptyFirstLine(h2);
    LinesOfOneLine(h2);
    Reassociate([h1] + [""] + [p], [""], [h2]);
    Reassociate([h1] + [""], [p], [""] + [h2]);
    Reassociate([h1], [""], [p] + [""] + [h2]);
  }

  /** The titles of two headers around a paragraph that is not a heading. */
  lemma {:induction false} FiveLineTitles(h1: string, e: string, p: string, h2: string)
    requires LineTitle(h1).Some? && TitlesOf([e]) == [] && LineTitle(p).None? && LineTitle(h2).Some?
    ensures TitlesOf([h1] + [e] + [p] + [e] + [h2]) == [LineTitle(h1).value, LineTitle(h2).value]
  {
    var a3 := [h1] + [e] + [p] + [e];
    FourLineTitles(h1, e, p);
    TitlesOfOneLine(h2);
    TitlesOfAppend(a3, [h2]);
    Pair(LineTitle(h1).value, LineTitle(h2).value);
  }

  lemma {:induction false} FourLineTitles(h1: string, e: string, p: string)
    requires LineTitle(h1).Some? && TitlesOf([e]) == [] && LineTitle(p).None?
    ensures TitlesOf([h1] + [e] + [p] + [e]) == [LineTitle(h1).value]
  {
    ThreeLineTitles(h1, e, p);
    TitlesOfAppend([h1] + [e] + [p], [e]);
  }

  lemma {:induction false} ThreeLineTitles(h1: string, e: string, p: string)
    requires LineTitle(h1).Some? && TitlesOf([e]) == [] && LineTitle(p).None?
    ensures TitlesOf([h1] + [e] + [p]) == [LineTitle(h1).value]
  {
    HeaderThenEmptyTitles(h1, e);
    Pair(h1, e);
    TitlesOfOneLine(p);
    AppendNoTitle([h1] + [e], p);
  }

  /** A line without a title adds nothing to the titles before it. */
  lemma AppendNoTitle(a: seq<string>, p: string)
    requires TitlesOf([p]) == []
    ensures TitlesOf(a + [p]) == TitlesOf(a)
  {
    TitlesOfAppend(a, [p]);
  }


  /** A title without a '-' has no ` - ` in it. */
  lemma NoDash(t: string)
    requires '-' !in t
    ensures !Contains(t, " - ")
  {
    forall k: nat | k + 3 <= |t|
      ensures !OccursAt(t, " - ", k)
    {
      assert t[k..k + 3][1] == t[k + 1];
    }
  }

  /** A trimmed line that does not open with '#' holds no title. */
  lemma NotAHeading(s: string)
    requires s != [] && Trimmed(s) && s[0] != '#'
    ensures LineTitle(s) == None
  {
    TrimOfTrimmed(s);
    HeadingOpensWithHash(s);
  }

  lemma MeetingClock()
    ensures ClockText(Time(14, 30)) == "14:30"
  {
    assert Paths.Decimal(14) == "14" && Paths.Decimal(30) == "30";
  }

  lemma ReviewClock()
    ensures ClockText(Time(16, 0)) == "16:00"
  {
    assert Paths.Zeros(1) == "0";
    assert Paths.ZeroPad(0, 2) == "00";
    assert Paths.Decimal(16) == "16";
  }

  lemma MeetingHeader()
    ensures Header("Meeting notes", Time(14, 30)) == "## 14:30 - Meeting notes"
  {
    MeetingClock();
  }

  lemma ReviewHeader()
    ensures Header("Code review", Time(16, 0)) == "## 16:00 - Code review"
  {
    ReviewClock();
  }

  lemma MeetingTitle()
    ensures LineTitle("## 14:30 - Meeting notes") == Some("Meeting notes")
  {
    var t := "Meeting notes";
    assert t[0] == 'M' && t[|t| - 1] == 's' && '-' !in t;
    NoDash(t);
    MeetingHeader();
    HeaderTitleRoundTrip(t, Time(14, 30));
  }

  lemma ReviewTitle()
    ensures LineTitle("## 16:00 - Code review") == Some("Code review")
  {
    var t := "Code review";
    assert t[0] == 'C' && t[|t| - 1] == 'w' && '-' !in t;
    NoDash(t);
    ReviewHeader();
    HeaderTitleRoundTrip(t, Time(16, 0));
  }

  lemma ParagraphHasNoTitle()
    ensures LineTitle("Discussed project timeline.") == None
  {
    var p := "Discussed project timeline.";
    assert p[0] == 'D' && p[|p| - 1] == '.';
    NotAHeading(p);
  }

  /** The example in the documentation of `extract_entry_titles`. */
  lemma ExtractTitlesDocExample()
    ensures EntryTitles("## 14:30 - Meeting notes" + "\n\n" + "Discussed project timeline."
                        + "\n\n" + "## 16:00 - Code review") == ["Meeting notes", "Code review"]
  {
    var p := "Discussed project timeline.";
    var h1, h2 := "## 14:30 - Meeting notes", "## 16:00 - Code review";
    MeetingTitle();
    ReviewTitle();
    ParagraphHasNoTitle();
    DocExampleLines();
    EmptyLineHasNoTitle();
    FiveLineTitles(h1, "", p, h2);
  }

  lemma DocExampleLines()
    ensures Lines("## 14:30 - Meeting notes" + "\n\n" + "Discussed project timeline."
                  + "\n\n" + "## 16:00 - Code review")
         == ["## 14:30 - Meeting notes"] + [""] + ["Discussed project timeline."] + [""]
            + ["## 16:00 - Code review"]
  {
    var p := "Discussed project timeline.";
    var h1, h2 := "## 14:30 - Meeting notes", "## 16:00 - Code review";
    assert '\n' !in h1 && '\n' !in p && '\n' !in h2;
    assert h1[|h1| - 1] == 's' && p[|p| - 1] == '.';
    FiveLines(h1, p, h2);
  }

  // ----- A title with a ` - ` of its own -----

  lemma DeployClock()
    ensures ClockText(Time(10, 0)) == "10:00"
  {
    assert Paths.Zeros(1) == "0";
    assert Paths.ZeroPad(0, 2) == "00";
    assert Paths.Decimal(10) == "10";
  }

  lemma DeployHeader()
    ensures Header("Deploy - staging", Time(10, 0)) == "## 10:00 - " + "Deploy - staging"
  {
    DeployClock();
  }

  lemma DeployTitleBeforeDash()
    ensures TitleBeforeDash("Deploy - staging") == "Deploy"
  {
    var t := "Deploy - staging";
    assert t[..6] == "Deploy" && t[6..9] == " - ";
    forall j: nat | j < 6
      ensures !OccursAt(t, " - ", j)
    {
      assert t[j + 1] != '-' by {
        if j + 1 < 6 {
          assert t[j + 1] == t[..6][j + 1];
        } else {
          assert t[j + 1] == t[6..9][0];
        }
      }
      assert t[j..j + 3][1] == t[j + 1];
    }
    FindFromAt(t, " - ", 0, 6);
  }

  /**
   * A title holding ` - ` is shown only up to it: the line is split at
   * every ` - ` and the second piece is taken.
   */
  lemma DashedTitleIsCut()
    ensures LineTitle("## 10:00 - " + "Deploy - staging") == Some("Deploy")
  {
    var t := "Deploy - staging";
    assert t[0] == 'D' && t[|t| - 1] == 'g';
    DeployHeader();
    DeployTitleBeforeDash();
    HeaderTitle(t, Time(10, 0));
  }
}
