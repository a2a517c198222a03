/**
 * Journal entries: splitting editor text into a title and a body in the
 * style of a commit message, rendering the pair as a markdown fragment, and
 * the two ways a day's file changes (append a fragment; replace the whole
 * file after an edit). The editor's output and the clock are parameters;
 * the log directory is a map from path to file content.
 */
module Entry {
  import opened Wrappers
  import opened RustStr
  import Paths

  /** What `parse_entry` returns: an optional title and a body. */
  datatype ParsedEntry = ParsedEntry(title: Option<string>, body: string)

  /** Index of the first blank line at or after `from`, if there is one. */
  function FirstBlankFrom(lines: seq<string>, from: nat): (r: Option<nat>)
    ensures r.Some? ==> from <= r.value < |lines| && IsBlank(lines[r.value])
    ensures forall k :: from <= k < |lines| && (r.None? || k < r.value) ==> !IsBlank(lines[k])
    decreases |lines| - from
  {
    if from >= |lines| then None
    else if IsBlank(lines[from]) then Some(from)
    else FirstBlankFrom(lines, from + 1)
  }

  /** Where the body begins: just past the first blank line after the title, else line 1. */
  function BodyStart(lines: seq<string>): nat {
    match FirstBlankFrom(lines, 1)
    case Some(i) => i + 1
    case None => 1
  }

  /** Lines from `start` on, joined with `\n` and trimmed; empty when none are left. */
  function BodyFrom(lines: seq<string>, start: nat): string {
    if start < |lines| then Trim(JoinLines(lines[start..])) else ""
  }

  /**
   * The meaning of `parse_entry`: no lines gives no title and an empty
   * body; a blank first line gives no title and the text untouched;
   * otherwise the trimmed first line is the title and the body starts after
   * the first blank line (or right after the title when there is none).
   */
  function Parse(content: string): (e: ParsedEntry)
    ensures e.title.None? <==> content == [] || IsBlank(Lines(content)[0])
    ensures e.title.None? ==> e.body == content
    ensures e.title.Some? ==> e.title.value != [] && Trimmed(e.title.value) && Trimmed(e.body)
    ensures e.title.Some? ==> e.title.value == Trim(Lines(content)[0])
  {
    var lines := Lines(content);
    if lines == [] then ParsedEntry(None, "")
    else if IsBlank(lines[0]) then ParsedEntry(None, content)
    else ParsedEntry(Some(Trim(lines[0])), BodyFrom(lines, BodyStart(lines)))
  }

  /** `parse_entry`: the scan for the first blank line is the source's loop. */
  method ParseEntry(content: string) returns (title: Option<string>, body: string)
    ensures title == Parse(content).title && body == Parse(content).body
  {
    var lines := Lines(content);
    if |lines| == 0 {
      return None, "";
    }
    var first := Trim(lines[0]);
    if first == [] {
      return None, content;
    }
    var bodyStart := 1;
    for i := 1 to |lines|
      invariant bodyStart == 1
      invariant FirstBlankFrom(lines, 1) == FirstBlankFrom(lines, i)
    {
      if Trim(lines[i]) == [] {
        assert FirstBlankFrom(lines, 1) == Some(i);
        bodyStart := i + 1;
        break;
      }
      assert FirstBlankFrom(lines, i) == FirstBlankFrom(lines, i + 1);
    }
    assert bodyStart == BodyStart(lines);
    if bodyStart == 1 && |lines| > 1 {
      bodyStart := 1;
    }
    body := if bodyStart < |lines| then Trim(JoinLines(lines[bodyStart..])) else "";
    title := Some(first);
    assert Parse(content) == ParsedEntry(title, BodyFrom(lines, bodyStart));
  }

  /** The first blank line from `from` on is the one at `k` when none before it is blank. */
  lemma {:induction false} FirstBlankAt(lines: seq<string>, from: nat, k: nat)
    requires from <= k < |lines| && IsBlank(lines[k])
    requires forall j :: from <= j < k ==> !IsBlank(lines[j])
    ensures FirstBlankFrom(lines, from) == Some(k)
    decreases k - from
  {
    if from < k {
      FirstBlankAt(lines, from + 1, k);
    }
  }

  /** With a title, the body is what follows the first blank line after it. */
  lemma ParseBodyAfterBlankLine(content: string, k: nat)
    requires Parse(content).title.Some?
    requires 1 <= k < |Lines(content)| && IsBlank(Lines(content)[k])
    requires forall j :: 1 <= j < k ==> !IsBlank(Lines(content)[j])
    ensures Parse(content).body == BodyFrom(Lines(content), k + 1)
  {
    var lines := Lines(content);
    FirstBlankAt(lines, 1, k);
    assert BodyStart(lines) == k + 1;
    assert !IsBlank(lines[0]);
  }

  /** With a title and no blank line, every line after the title is body. */
  lemma ParseBodyWithoutBlankLine(content: string)
    requires Parse(content).title.Some?
    requires forall j :: 1 <= j < |Lines(content)| ==> !IsBlank(Lines(content)[j])
    ensures Parse(content).body == BodyFrom(Lines(content), 1)
  {
  }

  /** A single non-blank line is all title: the body is empty. */
  lemma ParseSingleLine(line: string)
    requires '\n' !in line && !IsBlank(line)
    ensures Parse(line) == ParsedEntry(Some(Trim(line)), "")
  {
    LinesOfOneLine(line);
  }

  /** The lines of a title, a blank line and a one-line body. */
  lemma {:induction false} LinesOfTitleBlankBody(t: string, b: string)
    requires '\n' !in t && '\n' !in b && b != []
    requires t == [] || t[|t| - 1] != '\r'
    ensures Lines(t + "\n\n" + b) == [t, "", b]
  {
    LinesOfOneLine(b);
    EmptyLineFirst(b);
    LinesCons(t, "\n" + b);
    JoinNewlines(t, b);
    Triple(t, "", b);
  }

  /** Text that opens with `\n` opens with an empty line. */
  lemma EmptyLineFirst(b: string)
    ensures Lines("\n" + b) == [""] + Lines(b)
  {
    LinesCons("", b);
    assert "" + "\n" + b == "\n" + b;
  }

  lemma JoinNewlines(t: string, b: string)
    ensures t + "\n" + ("\n" + b) == t + "\n\n" + b
  {
  }

  lemma Triple<T>(x: T, y: T, z: T)
    ensures [x] + ([y] + [z]) == [x, y, z]
  {
  }

  /** A title line, a blank line and a one-line body split as the convention says. */
  lemma ParseTitleBlankBody(t: string, b: string)
    requires '\n' !in t && '\n' !in b && t != [] && b != [] && Trimmed(t) && Trimmed(b)
    ensures Parse(t + "\n\n" + b) == ParsedEntry(Some(t), b)
  {
    LinesOfTitleBlankBody(t, b);
    TitleBlankBodyParts(t, b);
  }

  /** How `Parse` reads the three lines of a title, a blank line and a body. */
  lemma TitleBlankBodyParts(t: string, b: string)
    requires t != [] && b != [] && Trimmed(t) && Trimmed(b)
    ensures !IsBlank(t) && Trim(t) == t
    ensures BodyFrom([t, "", b], BodyStart([t, "", b])) == b
  {
    TrimOfTrimmed(t);
    TrimOfTrimmed(b);
    var lines := [t, "", b];
    assert FirstBlankFrom(lines, 1) == Some(1);
    assert lines[2..] == [b];
  }

  /** The example of the source's documentation, its body written in two pieces. */
  lemma ParseDocExample()
    ensures Parse("Fixed authentication bug\n\n" + "Updated the login system" + " to handle edge cases.")
         == ParsedEntry(Some("Fixed authentication bug"), "Updated the login system" + " to handle edge cases.")
  {
    var t, b1, b2 := "Fixed authentication bug", "Updated the login system", " to handle edge cases.";
    assert t[0] == 'F' && t[|t| - 1] == 'g' && '\n' !in t;
    assert b1[0] == 'U' && '\n' !in b1;
    assert b2[|b2| - 1] == '.' && '\n' !in b2;
    var b := b1 + b2;
    assert b[0] == 'U' && b[|b| - 1] == '.';
    assert t + "\n\n" + b == "Fixed authentication bug\n\n" + b1 + b2;
    ParseTitleBlankBody(t, b);
  }

  /** A time of day, as far as `%H:%M` shows it. */
  datatype Time = Time(hour: nat, minute: nat)

  predicate ValidTime(t: Time) {
    t.hour < 24 && t.minute < 60
  }

  /** chrono's `%H:%M`: two zero-padded digits each, 24-hour clock. */
  function ClockText(t: Time): (r: string)
    requires ValidTime(t)
    ensures |r| == 5 && r[2] == ':'
    ensures Paths.AllDigits(r[..2]) && Paths.AllDigits(r[3..])
    ensures Paths.DigitsValue(r[..2]) == t.hour && Paths.DigitsValue(r[3..]) == t.minute
  {
    Paths.ZeroPadWidth(t.hour, 2);
    Paths.ZeroPadWidth(t.minute, 2);
    Paths.ZeroPadRoundTrip(t.hour, 2);
    Paths.ZeroPadRoundTrip(t.minute, 2);
    var r := Paths.ZeroPad(t.hour, 2) + ":" + Paths.ZeroPad(t.minute, 2);
    assert r[..2] == Paths.ZeroPad(t.hour, 2);
    assert r[3..] == Paths.ZeroPad(t.minute, 2);
    r
  }

  /** `format_entry` writes a header only for a title that is present and not empty. */
  predicate HasTitle(title: Option<string>) {
    title.Some? && title.value != []
  }

  /** The header line of a titled entry: `## HH:MM - title`. */
  function Header(title: string, now: Time): string
    requires ValidTime(now)
  {
    "## " + ClockText(now) + " - " + title
  }

  /**
   * `format_entry`, with the time it reads from the clock passed in: a
   * titled entry opens with its header line, followed by a blank line and
   * the body when there is one; an untitled entry is its body on its own;
   * a non-empty fragment always ends in `\n`.
   */
  function FormatEntry(title: Option<string>, body: string, now: Time): (r: string)
    requires ValidTime(now)
    ensures r == [] <==> !HasTitle(title) && body == []
    ensures r != [] ==> r[|r| - 1] == '\n'
    ensures HasTitle(title) ==> StartsWith(r, Header(title.value, now) + "\n")
    ensures HasTitle(title) && body == [] ==> r == Header(title.value, now) + "\n"
    ensures HasTitle(title) && body != [] ==> r == Header(title.value, now) + "\n\n" + body + "\n"
    ensures !HasTitle(title) && body != [] ==> r == body + "\n"
  {
    if HasTitle(title) then
      if body == [] then Header(title.value, now) + "\n"
      else Header(title.value, now) + "\n\n" + body + "\n"
    else if body == [] then []
    else body + "\n"
  }

  /** A fragment is blank exactly when it has no title and a blank body. */
  lemma FormatEntryBlank(title: Option<string>, body: string, now: Time)
    requires ValidTime(now)
    ensures IsBlank(FormatEntry(title, body, now)) <==> !HasTitle(title) && IsBlank(body)
  {
    var r := FormatEntry(title, body, now);
    if HasTitle(title) {
      assert r[0] == '#';
    } else if body != [] {
      assert r == body + "\n";
      assert IsBlank(body) ==> IsBlank(r);
      assert IsBlank(r) ==> IsBlank(body) by {
        if IsBlank(r) {
          forall i | 0 <= i < |body| ensures IsWhitespace(body[i]) {
            assert body[i] == r[i];
          }
        }
      }
    }
  }

  /** The file at `path`, if it exists. */
  function Lookup(files: map<string, string>, path: string): Option<string> {
    if path in files then Some(files[path]) else None
  }

  /** The directory after the file at `path` becomes `file` (`None`: removed). */
  function Store(files: map<string, string>, path: string, file: Option<string>): (r: map<string, string>)
    ensures Lookup(r, path) == file
  {
    match file
    case Some(c) => files[path := c]
    case None => files - {path}
  }

  /** Storing a file at one path leaves every other path as it was. */
  lemma StoreKeepsOtherPaths(files: map<string, string>, path: string, file: Option<string>, other: string)
    requires other != path
    ensures Lookup(Store(files, path, file), other) == Lookup(files, other)
  {
  }

  /** Writing back what is already there changes nothing. */
  lemma StoreLookup(files: map<string, string>, path: string)
    ensures Store(files, path, Lookup(files, path)) == files
  {
  }

  /** The fragment `append_to_log` writes for `content`. */
  function Fragment(content: string, now: Time): string
    requires ValidTime(now)
  {
    var e := Parse(content);
    FormatEntry(e.title, e.body, now)
  }

  /**
   * The file after `append_to_log`: the fragment made of the parsed text,
   * and a newline after it, is added at the end (the file is created if it
   * was absent) unless the fragment is blank.
   */
  function Appended(file: Option<string>, content: string, now: Time): (r: Option<string>)
    requires ValidTime(now)
  {
    var fragment := Fragment(content, now);
    if IsBlank(fragment) then file
    else Some(file.GetOr("") + fragment + "\n")
  }

  /** Appending leaves the file alone exactly when the editor text is blank. */
  lemma {:induction false} AppendChangesIffNotBlank(file: Option<string>, content: string, now: Time)
    requires ValidTime(now)
    ensures Appended(file, content, now) == file <==> IsBlank(content)
    ensures IsBlank(content) <==> IsBlank(Fragment(content, now))
  {
    var e := Parse(content);
    var fragment := Fragment(content, now);
    FormatEntryBlank(e.title, e.body, now);
    if content != [] {
      var first := Lines(content)[0];
      assert StartsWith(content, first);
      if IsBlank(content) {
        assert IsBlank(first) by {
          forall i | 0 <= i < |first| ensures IsWhitespace(first[i]) {
            assert first[i] == content[i];
          }
        }
      }
    }
    if !IsBlank(fragment) {
      var r := Appended(file, content, now);
      assert |r.value| > |file.GetOr("")|;
    }
  }

  /** Appending never rewrites: the old content stays as a prefix of the new. */
  lemma AppendKeepsOldContent(file: Option<string>, content: string, now: Time)
    requires ValidTime(now)
    ensures file.Some? ==> Appended(file, content, now).Some?
    ensures Appended(file, content, now).Some? ==> StartsWith(Appended(file, content, now).value, file.GetOr(""))
  {
  }

  /** A file that is absent, empty, or ends its last line with `\n`. */
  predicate EndsWithNewline(file: Option<string>) {
    file.None? || file.value == [] || file.value[|file.value| - 1] == '\n'
  }

  /** Files built only by appending always end in `\n`. */
  lemma AppendKeepsNewlineEnding(file: Option<string>, content: string, now: Time)
    requires ValidTime(now) && EndsWithNewline(file)
    ensures EndsWithNewline(Appended(file, content, now))
  {
  }

  lemma ClockExample()
    ensures ClockText(Time(9, 5)) == "09:05"
  {
    assert Paths.Decimal(9) == "9" && Paths.Decimal(5) == "5";
  }

  lemma HeaderExample()
    ensures Header("Fixed bug", Time(9, 5)) == "## 09:05 - Fixed bug"
  {
    ClockExample();
  }

  /** The fragment the end-to-end example writes. */
  lemma FragmentExample()
    ensures Fragment("Fixed bug\n\n" + "Resolved the " + "authentication issue.", Time(9, 5))
         == "## 09:05 - Fixed bug" + "\n\n" + "Resolved the " + "authentication issue." + "\n"
  {
    var t, b1, b2 := "Fixed bug", "Resolved the ", "authentication issue.";
    var b := b1 + b2;
    assert t[0] == 'F' && t[|t| - 1] == 'g' && '\n' !in t;
    assert '\n' !in b1 && '\n' !in b2;
    assert b[0] == b1[0] == 'R' && b[|b| - 1] == b2[|b2| - 1] == '.';
    assert t + "\n\n" + b == "Fixed bug\n\n" + b1 + b2;
    TitledFragment(t, b, Time(9, 5));
    HeaderExample();
    SplitBody(Header(t, Time(9, 5)), b1, b2);
  }

  lemma SplitBody(h: string, b1: string, b2: string)
    ensures h + "\n\n" + (b1 + b2) + "\n" == h + "\n\n" + b1 + b2 + "\n"
  {
  }

  /** A title line, a blank line and a one-line body make a header, a blank line and the body. */
  lemma TitledFragment(t: string, b: string, now: Time)
    requires ValidTime(now)
    requires '\n' !in t && '\n' !in b && t != [] && b != [] && Trimmed(t) && Trimmed(b)
    ensures Fragment(t + "\n\n" + b, now) == Header(t, now) + "\n\n" + b + "\n"
  {
    ParseTitleBlankBody(t, b);
  }

  /** The end-to-end example: one entry appended to a day that had no file. */
  lemma AppendExample()
    ensures Appended(None, "Fixed bug\n\n" + "Resolved the " + "authentication issue.", Time(9, 5))
         == Some("## 09:05 - Fixed bug" + "\n\n" + "Resolved the " + "authentication issue." + "\n" + "\n")
  {
    var content := "Fixed bug\n\n" + "Resolved the " + "authentication issue.";
    FragmentExample();
    var fragment := Fragment(content, Time(9, 5));
    assert fragment[0] == '#';
    AppendToAbsent(content, Time(9, 5));
  }

  /** A non-blank fragment appended to an absent file makes a file of the fragment and a newline. */
  lemma AppendToAbsent(content: string, now: Time)
    requires ValidTime(now) && Fragment(content, now) != [] && !IsWhitespace(Fragment(content, now)[0])
    ensures Appended(None, content, now) == Some(Fragment(content, now) + "\n")
  {
    assert "" + Fragment(content, now) + "\n" == Fragment(content, now) + "\n";
  }

  /** Which of its three actions `edit_today_log` takes. */
  datatype EditAction = Write | Remove | Keep

  /**
   * The choice `edit_today_log` makes: write edited text that differs
   * from the file and is not blank; remove an existing file whose edited
   * text is blank; otherwise do nothing.
   */
  function EditActionFor(file: Option<string>, edited: string): EditAction {
    var existing := file.GetOr("");
    if edited != existing && !IsBlank(edited) then Write
    else if IsBlank(edited) && file.Some? then Remove
    else Keep
  }

  /** The file after `edit_today_log`. */
  function Edited(file: Option<string>, edited: string): Option<string> {
    match EditActionFor(file, edited)
    case Write => Some(edited)
    case Remove => None
    case Keep => file
  }

  /**
   * Whatever the file held before, after an edit it holds exactly the
   * edited text, or is absent when that text is blank: no blank file is
   * ever left behind.
   */
  lemma EditedIsEditorText(file: Option<string>, edited: string)
    ensures Edited(file, edited) == if IsBlank(edited) then None else Some(edited)
    ensures Edited(file, edited).None? || !IsBlank(Edited(file, edited).value)
  {
    if !IsBlank(edited) && edited == file.GetOr("") {
      assert edited != [];
    }
  }

  /** The write and the removal happen only when they change the file. */
  lemma EditActsOnlyOnChange(file: Option<string>, edited: string)
    ensures EditActionFor(file, edited) != Keep ==> Edited(file, edited) != file
    ensures EditActionFor(file, edited) == Keep ==> Edited(file, edited) == file
  {
  }

  /** Formatting what `parse_entry` returned gives the fragment of the text. */
  lemma FragmentOfParsed(content: string, now: Time, title: Option<string>, body: string)
    requires ValidTime(now) && title == Parse(content).title && body == Parse(content).body
    ensures FormatEntry(title, body, now) == Fragment(content, now)
  {
  }

  /** One append, as `LogDir.AppendToLog` performs it, agrees with `Appended`. */
  lemma AppendStep(files: map<string, string>, path: string, content: string, now: Time,
                   formatted: string, after: map<string, string>)
    requires ValidTime(now) && formatted == Fragment(content, now)
    requires after == if IsBlank(formatted) then files
                      else files[path := Lookup(files, path).GetOr("") + formatted + "\n"]
    ensures after == Store(files, path, Appended(Lookup(files, path), content, now))
  {
    if IsBlank(formatted) {
      StoreLookup(files, path);
    }
  }

  /** One edit, as `LogDir.EditTodayLog` performs it, agrees with `Edited`. */
  lemma EditStep(files: map<string, string>, path: string, edited: string,
                 action: EditAction, after: map<string, string>)
    requires action == EditActionFor(Lookup(files, path), edited)
    requires after == match action
                      case Write => files[path := edited]
                      case Remove => files - {path}
                      case Keep => files
    ensures after == Store(files, path, Edited(Lookup(files, path), edited))
  {
    if action == Keep {
      StoreLookup(files, path);
    }
  }

  /** The log directory: the path of every existing file, mapped to its content. */
  class LogDir {
    var files: map<string, string>

    constructor (files: map<string, string>)
      ensures this.files == files
    {
      this.files := files;
    }

    /** `append_to_log(path, content)` at time `now`. */
    method AppendToLog(path: string, content: string, now: Time)
      requires ValidTime(now)
      modifies this
      ensures files == Store(old(files), path, Appended(Lookup(old(files), path), content, now))
    {
      ghost var before := files;
      var title, body := ParseEntry(content);
      var formatted := FormatEntry(title, body, now);
      FragmentOfParsed(content, now, title, body);
      if !IsBlank(formatted) {
        var existing := Lookup(files, path).GetOr("");
        files := files[path := existing + formatted + "\n"];
      }
      AppendStep(before, path, content, now, formatted, files);
    }

    /** `edit_today_log(path)`, where the editor returned `edited`. */
    method EditTodayLog(path: string, edited: string) returns (action: EditAction)
      modifies this
      ensures action == EditActionFor(Lookup(old(files), path), edited)
      ensures files == Store(old(files), path, Edited(Lookup(old(files), path), edited))
    {
      ghost var before := files;
      var existing := if path in files then files[path] else "";
      var blank := IsBlank(edited);
      if edited != existing && !blank {
        files := files[path := edited];
        action := Write;
      } else if blank && path in files {
        files := files - {path};
        action := Remove;
      } else {
        action := Keep;
      }
      EditStep(before, path, edited, action, files);
    }
  }
}
