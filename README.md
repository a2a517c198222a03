# dailylog — a verified model of the entry pipeline and the summary

dailylog is a journaling command-line tool. It keeps one markdown file per
day, `{log_dir}/YYYY-MM-DD.md`. A new entry is typed in an editor and split
like a commit message: the first line is the title, and the text after the
first blank line is the body. It is rendered as a fragment
`## HH:MM - title` followed by the body, and appended to today's file. A
whole day's file can also be edited in place. In that case the file is
rewritten, removed when the edited text is blank, or left alone.

The summary looks back a number of days from today. It keeps the days whose
weekday is one of the configured `summary_days`, counts them, and collects
those whose file holds something besides whitespace, most recent first. For
each collected day it lists the entry titles: the `## HH:MM - title`
headers, and also `# ` and `### ` headings. A day without titles shows the
first non-blank line among its first two lines instead.

The model is written in Dafny in six modules:

- `Wrappers` — `Option`.
- `RustStr` — the parts of Rust's `str` API the logic relies on, stated
  exactly:
  - `char::is_whitespace` (the Unicode `White_Space` list), `trim`, and
    `lines` (`\r` is stripped only in front of `\n`);
  - `join("\n")`, `starts_with`, `contains`, `split(pat).nth(1)` and
    `trim_start_matches`;
  - ASCII `to_lowercase`.
- `Paths` — dates, zero-padded `%Y-%m-%d` names, `Path::join`, and the log
  file of a date.
- `Entry` — `parse_entry` (a method with the source's scanning loop, proved
  against the function `Parse`), `format_entry` with the clock as a
  parameter, and the file changes:
  - `Appended` and `Edited` are the meanings of `append_to_log` and
    `edit_today_log` on one file;
  - the class `LogDir` holds the log directory as a map from path to
    content; its methods `AppendToLog` and `EditTodayLog` update that map in
    place.
- `Summary` — `parse_weekday`, the allowed-weekday list, and
  `extract_entry_titles` (a loop proved against `EntryTitles`). It also
  holds the summary's counting loop `CollectEntries` (proved against
  `EligibleCount`/`Collected`), the per-day fallback `FirstShownLine`, and
  `SummarizeLogs`, which returns the report instead of printing it.
- `LogTitles` — how the two halves meet. The header `format_entry` writes
  is a line `extract_entry_titles` reads a title from. So appending a titled
  entry adds its title to the day's summary, cut short at the title's own
  first ` - `.

Days in the summary are day numbers, counted from 1970-01-01, which was a
Thursday. Only the weekday of a day number is used (`Summary.WeekdayOf`).
The conversion between day numbers and calendar dates is not defined in the
model. The log directory the summary reads is a map from day number to file
content. This stands for looking up each date's file:
`Paths.PathForDateInjective` shows that different dates have different
files, so no two days share an entry in that map.

Two behaviours of the code differ from a natural reading of it:

- Header titles. A natural description says a `## ` header's title is
  everything after the first ` - `. The code takes `split(" - ").nth(1)`,
  which is the piece between the first and the second ` - `.
  `LogTitles.DashedTitleIsCut` shows `## 10:00 - Deploy - staging` giving
  `Deploy`.
- The round trip from an entry to its summary title. It holds only for
  titles without ` - ` of their own (`LogTitles.HeaderTitleRoundTrip`). In
  general the summary shows `TitleBeforeDash(title)`
  (`LogTitles.HeaderTitle`).
- A file that does not end in `\n`. Appending writes the fragment right
  after the file's last character (src/entry.rs:278-279), and
  `edit_today_log` saves the editor text as it is (src/entry.rs:323). So
  after an edit that drops the final `\n`, the next entry's header is glued
  onto the file's last line, and `extract_entry_titles` no longer sees that
  title. For this reason `LogTitles.AppendedTitles` requires a file that
  is absent, empty or ends in `\n`. Files built only by appending always
  are (`Entry.AppendKeepsNewlineEnding`).

## Model

| member | source | states |
|---|---|---|
| Paths.PathForDate | src/entry.rs:58-61 | the path of a date is the log directory, one `/` unless the directory is empty or already ends in `/`, then the file name `YYYY-MM-DD.md` |
| Paths.LogFileName | src/entry.rs:59-60 | the name is the formatted year, `-`, two digits reading back as the month, `-`, two digits reading back as the day, then `.md` |
| Paths.LogFileNameInjective | src/entry.rs:59-60 | two valid dates with the same file name are the same date: the zero-padded fields read back |
| Paths.PathForDateInjective | src/entry.rs:58-61 | different days of one log directory never share a path |
| Paths.PreviousDayPathDiffers | src/entry.rs:44-48 | the file of the calendar day before a date is never that date's file |
| Paths.PredecessorIsImmediate | src/entry.rs:45 | the calendar predecessor of a date is the day immediately before it: no valid date lies strictly between them |
| Entry.Parse | src/entry.rs:172-205 | no title exactly when the text has no lines or a blank first line; then the body is the text untouched; otherwise the title is the trimmed first line (non-empty), and the body is trimmed |
| Entry.ParseEntry | src/entry.rs:172-205 | the source's scan for the first blank line after the title returns the title and body `Parse` defines |
| Entry.ParseBodyAfterBlankLine | src/entry.rs:185-202 | with a title, the body is the lines after the first blank line at index 1 or later, joined with `\n` and trimmed |
| Entry.ParseBodyWithoutBlankLine | src/entry.rs:193-202 | with a title and no blank line, every line after the title is body |
| Entry.ParseSingleLine | src/entry.rs:179-204 | a single non-blank line is the trimmed title with an empty body |
| Entry.ParseTitleBlankBody | src/entry.rs:173-204 | a trimmed, non-empty title line, a blank line and a trimmed, non-empty body line split into exactly that title and body |
| Entry.ParseDocExample | src/entry.rs:166-170 | the documented example gives title `Fixed authentication bug` and the body after the blank line |
| Entry.ClockText | src/entry.rs:233 | `%H:%M` is five characters, two digits each side of `:`, reading back as the hour and the minute |
| Entry.FormatEntry | src/entry.rs:230-248 | the four cases exactly: `## HH:MM - title\n`; the header, a blank line, the body and `\n`; the body and `\n`; nothing |
| Entry.FormatEntryBlank | src/entry.rs:230-248 | a fragment is blank exactly when there is no title and the body is blank |
| Entry.AppendChangesIffNotBlank | src/entry.rs:273-283 | appending leaves the file (present or absent) unchanged exactly when the editor text is blank, and that is when the fragment is blank |
| Entry.AppendKeepsOldContent | src/entry.rs:277-279 | an existing file stays present, and its old content is a prefix of the new |
| Entry.AppendKeepsNewlineEnding | src/entry.rs:279 | a file that ends in `\n` (or is absent or empty) still does after an append |
| Entry.AppendExample | src/entry.rs:270-279 | appending the documented `Fixed bug` entry to an absent file at 09:05 gives `## 09:05 - Fixed bug`, a blank line, the body, and two newlines |
| Entry.LogDir.AppendToLog | src/entry.rs:273-283 | the directory afterwards is the old one with this path's file replaced by `Appended`; other paths unchanged |
| Entry.EditedIsEditorText | src/entry.rs:310-331 | after an edit the file holds exactly the edited text, or is absent when that text is blank; no blank file is left |
| Entry.EditActsOnlyOnChange | src/entry.rs:322-328 | the write and the removal happen only when they change the file; otherwise it stays as it was |
| Entry.LogDir.EditTodayLog | src/entry.rs:310-331 | returns the action the source takes and leaves the directory with this path's file replaced by `Edited` |
| Entry.StoreKeepsOtherPaths | src/entry.rs:278-279 | writing one day's file leaves every other path as it was |
| Summary.ParseWeekday | src/summary.rs:35-46 | a day is returned exactly when the lower-cased text is its full name or its three-letter abbreviation |
| Summary.ParseWeekdayIgnoresCase | src/summary.rs:36 | the answer depends only on the lower-cased text |
| Summary.ParseWeekdayOfNames | src/summary.rs:37-43 | either name of a day, in any case, gives that day |
| Summary.ParseWeekdayExamples | src/summary.rs:31-33 | `monday` is Monday, `tue` is Tuesday, `invalid` is nothing |
| Summary.ParseWeekdayCaseAndExtraLetters | src/summary.rs:36-44 | `Mon` is Monday; `mondayy` is nothing |
| Summary.AllowedWeekdaysMembers | src/summary.rs:84-88 | a weekday is allowed exactly when some configured entry names it |
| Summary.DefaultAllowsWorkWeek | src/config.rs:72-80 | the default `summary_days` allow Monday to Friday, in that order |
| Summary.EmptyConfigReportsNothing | src/config.rs:103-109 | with `summary_days` empty (the derived default) the summary reports no entries, whatever the logs hold |
| Summary.WeekdayOfBefore | src/summary.rs:98-99 | for `k` < 7, `k` days back the weekday index is `k` less, counted round the week |
| Summary.WeekdaysOfWeek | src/summary.rs:97-99 | any seven consecutive days take every weekday |
| Summary.WorkWeekHasFiveDays | src/summary.rs:97-103 | over any seven days a Monday-to-Friday list makes exactly five days eligible |
| Summary.LineTitle | src/summary.rs:203-214 | a line gives a title exactly when its trim is a `## ` line holding ` - `, or a `# ` or `### ` line; a `## ` title is the piece `split(" - ").nth(1)` gives: it starts right after the first ` - `, holds no ` - `, and is followed by the next ` - ` or the line's end; a `# `/`### ` title is the line with its leading `#`s removed, then trimmed |
| Summary.ExtractEntryTitles | src/summary.rs:200-218 | the loop returns the titles of the lines, in line order, at most one per line |
| Summary.TitlesOfAppend | src/summary.rs:203-215 | titles of consecutive runs of lines come one run after the other |
| Summary.NoHeadingsNoTitles | src/summary.rs:203-215 | lines none of which is a heading give no titles |
| Summary.SmallHeadingExample | src/summary.rs:212-213 | `### Notes` gives `Notes`, without its `#`s and the space |
| Summary.FirstShownLine | src/summary.rs:155-165 | the loop returns `FallbackLine`: nothing exactly when both of the first two lines are blank (or missing), otherwise the first non-blank one of them, trimmed |
| Summary.FallbackMissesLaterText | src/summary.rs:157 | a non-blank day whose first two lines are blank has no titles and no fallback line |
| Summary.CollectEntries | src/summary.rs:97-114 | the loop's eligible count, collected days and entry count are those of the walk `EligibleCount`/`Collected` defines |
| Summary.CollectedBounds | src/summary.rs:97-114 | entries do not outnumber eligible days, nor those the days walked |
| Summary.CollectedMembers | src/summary.rs:97-111 | a day is collected, with its content, exactly when it is among the days walked, its weekday is allowed and its file is not blank |
| Summary.CollectedDescending | src/summary.rs:97-110 | collected days lie in the walked window and strictly decrease: most recent first, each at most once |
| Summary.SummarizeLogs | src/summary.rs:77-167 | returns `SummaryOf`: no entries, or the two counts and one report per collected day, titles or fallback line |
| Summary.SummaryCounts | src/summary.rs:116-134 | no entries exactly when no walked day is allowed and non-blank; otherwise at least one eligible day (the ratio is defined), entries at most eligible days at most days, one report per entry |
| LogTitles.TitleBeforeDash | src/summary.rs:207 | the part of a title the summary shows is a prefix of it with no ` - `, followed in the title by ` - ` when it is not the whole title, and the whole title exactly when it has none |
| LogTitles.HeaderTitle | src/summary.rs:204-209 | the header `format_entry` writes for a title gives that title back, cut at its own first ` - ` |
| LogTitles.HeaderTitleRoundTrip | src/entry.rs:235-237 | a title without ` - ` comes back whole from its header |
| LogTitles.DashedTitleIsCut | src/summary.rs:207 | `## 10:00 - Deploy - staging` gives `Deploy` |
| LogTitles.FragmentTitles | src/entry.rs:230-248 | a titled fragment with the writer's newline lists its title, cut at its own first ` - `, first, then the titles of the body's lines |
| LogTitles.AppendedTitles | src/entry.rs:273-283 | appending a titled entry to a file ending in `\n` adds its title, cut at its own first ` - `, after the titles already there and before the body's own |
| LogTitles.ExtractTitlesDocExample | src/summary.rs:196-198 | the documented example gives `Meeting notes` and `Code review` |

## Left out

- Editor launching (`open_editor`, `open_editor_with_content`): the subprocess and the temporary file are not modelled. The text the editor returns is a parameter.
- Clock reads (`Local::now`): today's date and the time of day are parameters. `get_log_file_path` is `Paths.TodayPath` on that date.
- Paths.PreviousDayPath: models `get_previous_day_log_path` as the file of the calendar day before today. The source subtracts 24 hours from the local instant, which differs around daylight-saving changes. In the last hour of a 25-hour day (2024-11-03 23:30 EST minus 24 h is 00:30 EDT the same day) it names today's file. In the first hour after a 23-hour day (2024-03-11 00:30 minus 24 h is 2024-03-09 23:30) it names the day before yesterday. Time zones are not modelled, so `Paths.PreviousDayPathDiffers` and `Paths.PredecessorIsImmediate` hold for the calendar predecessor only, not for the source on those two hours.
- File-system errors: every `?` on a read, write, open or remove is left out. Each operation is modelled as if it succeeded.
- Whether `log_path.exists()`: a path is present in the map or not. A file that exists but cannot be read is not modelled.
- src/git.rs, src/display.rs and src/main.rs are not part of this model: they run `git`, colour the terminal, and dispatch the command line.
- src/config.rs is not part of this model beyond its default `summary_days` and the derived default's empty list. `summary_days` is passed in.
- The message `edit_today_log` prints after removing a file is not modelled.
- All printing in `summarize_logs` is not modelled: headers, colours, the `%Y-%m-%d (%A)` day line, and the messages. `SummarizeLogs` returns a `Report` instead.
- The consistency percentage is a float. The report keeps its two integers, `totalEntries` and `eligibleDays`.
- Summary.SummarizeLogs: its day numbers stand for chrono dates. The `YYYY-MM-DD` path of each day is not rebuilt, and `days` is a `nat` rather than a `u32`. The walk never leaves chrono's date range: the source panics at src/summary.rs:98 once `today - i` passes chrono's earliest date, `NaiveDate::MIN` (-262144-01-01), while the model walks any number of days and returns a report.
- Paths.FormatYear: years are unbounded integers. chrono's limit on the range of representable years is not enforced.
- Summary.ParseWeekday: `to_lowercase` is modelled on ASCII letters only. Unicode case mappings of other characters are not modelled.
- `writeln!` adding a newline after the fragment is modelled as string concatenation (`Entry.Appended`).
