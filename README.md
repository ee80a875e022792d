# Daily notes: a verified model of the note lifecycle

This project models the note lifecycle of the manda-kasaayam daily-journal
command-line tool. It keeps one Markdown note per day in a notes directory as
`YYYY-MM-DD.md`. Four groups of behaviour are modelled:

- **Check-in and separator.** Opening today's note writes a `[HH:MM]` check-in
  marker. It is appended, or it overwrites the last marker when nothing but
  whitespace follows that marker. After an editing session a `---` separator
  is appended when text was added below the last marker.
- **Carry-over.** A missing note for today is created, seeded with yesterday's
  unfinished `- [ ]` tasks under a link to yesterday's note. Any other missing
  note is created empty.
- **The `do` command.** It parses a note into tasks with ids `task-0`,
  `task-1`, …. Each task is labelled with its heading, or with `heading
  [HH:MM]` when a marker line came right before the heading, or with
  `General`. It toggles a task's checkbox back in the file. The toggle looks
  for the first task line with the task's text under the last heading's text,
  so it misses tasks filed under `General` or `heading [HH:MM]` and can flip a
  different task with the same text (see Findings).
- **The `see` command and the date helpers.** The command shows a day's note
  and allows editing only when no explicit date was given. It steps back to
  the latest earlier day that has a note, never before the oldest note in the
  directory, and it steps forward one day as long as that day is not after
  today. The helpers compute the next and previous day, the zero-padded
  `YYYY-MM-DD` form (the calendar date complete representation, extended
  format, of section 5.2.1.1 of ISO 8601:2004, for four-digit years), the
  `HH:MM` and `YYYY-MM-DD HH:MM:SS` stamps, and the note path
  `root/YYYY-MM-DD.md`.

Layout, one module per file:

| file | module | content |
|---|---|---|
| options.dfy | `Options` | `Option` |
| strings.dfy | `Strings` | JavaScript `\s`, `trim`, `split("\n")`/`join("\n")`, `includes`, `endsWith`, `substring`, `String(n)`, `padStart(2, "0")` |
| dates.dfy | `Dates` | calendar dates, day numbers, next and previous day, chronological order |
| config.dfy | `Config` | `validateDateFormat`, `formatNoteDate`, `formatTimestamp` |
| date_utils.dfy | `DateUtils` | `getNextDate`, `getYesterdayFromToday`, `isDateBeforeOrEqualToday` |
| file_utils.dfy | `FileUtils` | note file names and paths, `path.basename`/`path.dirname` |
| store.dfy | `Store` | class `FileStore`: the notes directory as a map from path to text |
| markers.dfy | `Markers` | the global scan of `/\[\d{2}:\d{2}\]/g` and `lastIndexOf` |
| timestamps.dfy | `Timestamps` | what `appendTimestampLink` and `postProcessAfterEdit` write, as functions of the text |
| carry_over.dfy | `CarryOver` | `extractIncompleteTasks` and the seed of today's note, as functions |
| note_service.dfy | `Notes` | class `NoteService`: the note service's methods over the store |
| tasks.dfy | `Tasks` | the three line patterns of the `do` command and the parse as a fold |
| toggle.dfy | `Toggle` | the toggle as a function, its round trip, and the header mismatch |
| commands.dfy | `Commands` | the `--yester`/`--date` choice of the day |
| do_command.dfy | `DoCmd` | class `DoCommand` and its parse and toggle loops |
| see_command.dfy | `SeeCmd` | class `SeeCommand`, the oldest note, the backward walk, the forward step |

The code that loops or updates state is modelled as such. Each of these
methods is proved against a function that specifies it, and the properties
are proved as lemmas about those functions:

- the parse loop, the toggle scan, the extraction loop, the seed-formatting
  loops and the backward walk are methods with loops;
- the note service and the two commands are classes over the file store.

The clock, the notes root and the directory listing are parameters.

## Model

| member | source | states |
|---|---|---|
| Notes.NoteService.EnsureNoteExists | src/domain/note.service.ts:20-35 | an existing note is left untouched; a missing one is written with the seed when its file name is today's and with "" otherwise, and no other file changes |
| Notes.NoteService.GenerateNoteWithIncompleteTasks | src/domain/note.service.ts:37-56 | returns "" when yesterday gives no bucket, else the formatted bucket text |
| Notes.NoteService.FormatCarriedTasks | src/domain/note.service.ts:46-53 | the nested loops build, per bucket, `[date](date.md)`, a blank line, each task on its own line and a blank line, in order |
| Notes.NoteService.CollectIncompleteTasksFromPreviousNotes | src/domain/note.service.ts:58-86 | the result is yesterday's bucket exactly as the specification function gives it (a missing or unreadable note gives nothing) |
| CarryOver.YesterdayBuckets | src/domain/note.service.ts:67-78 | at most one bucket, dated with yesterday's `YYYY-MM-DD`, and never with an empty task list |
| Notes.NoteService.ExtractIncompleteTasks | src/domain/note.service.ts:88-101 | the loop yields, in line order, `- [ ] ` plus the trimmed capture for each line matching `^\s*-\s*\[\s*\]\s*(.+)$` |
| CarryOver.IncompleteTasksShape | src/domain/note.service.ts:92-97 | never more tasks than lines, and every extracted task is `- [ ] ` followed by a trimmed text without line terminators |
| CarryOver.CarriedLineRematches | src/domain/note.service.ts:94-96 | a normalised task line matches the pattern again and captures its own text |
| CarryOver.IncompleteTasksFixpoint | src/domain/note.service.ts:88-101 | extracting from a list of extracted tasks gives the list back |
| CarryOver.IncompleteTasksAppend | src/domain/note.service.ts:92-98 | extraction distributes over concatenated line lists |
| CarryOver.ShapeMatches | src/domain/note.service.ts:94 | a line of the pattern's shape matches, and the capture is the trimmed text after `]` |
| CarryOver.MatchHasShape | src/domain/note.service.ts:94 | conversely, every matching line has the pattern's shape |
| CarryOver.CaptureShape | src/domain/note.service.ts:94-96 | the trimmed capture holds no line terminator and no whitespace at either end |
| CarryOver.LinkLineIsNoTask | src/domain/note.service.ts:48 | the `[date](date.md)` link line is not taken for a task |
| CarryOver.SeedLines | src/domain/note.service.ts:47-53 | the seed of one bucket splits into the link line, a blank line, the tasks and two blank lines |
| CarryOver.SeedRoundTrip | src/domain/note.service.ts:46-53 | extracting from a seed gives back exactly the carried tasks |
| CarryOver.SeedCarriesForward | src/domain/note.service.ts:37-86 | today's seed carries exactly yesterday's incomplete tasks, so tasks left unticked keep being carried day after day |
| CarryOver.TaskLinesJoin | src/domain/note.service.ts:49-51 | the tasks, each followed by a newline, are their join plus a final newline |
| Timestamps.GetCurrentTimeString | src/domain/note.service.ts:111-116 | two digits, a colon and two digits, which read back as the hour and the minute |
| Timestamps.TimestampLinkIsMarker | src/domain/note.service.ts:136-137 | the written `[HH:MM]` is seven characters long and is itself the one match of the marker pattern |
| Markers.MatchesFromExact | src/domain/note.service.ts:119-120 | the global scan finds every marker position and nothing else, in increasing order |
| Markers.MarkersDisjoint | src/domain/note.service.ts:119 | two markers never overlap |
| Markers.LastIndexOfLastMatch | src/domain/note.service.ts:126 | `lastIndexOf` of the last match's text finds the last match itself |
| Timestamps.LastMatchText | src/domain/note.service.ts:120-126 | there is a last match exactly when the scan finds a marker, and it is a marker text |
| Timestamps.LastMarkerPos | src/domain/note.service.ts:126-129 | the last marker's position holds a marker and no marker starts after it |
| Timestamps.LastMatchIndex | src/domain/note.service.ts:126 | the index the source computes is the last marker's position |
| Timestamps.HasContentAfterIff | src/domain/note.service.ts:118-133 | true exactly when there is no marker or something other than whitespace follows the last one |
| Notes.NoteService.AppendTimestampLink | src/domain/note.service.ts:135-180 | the note is written with the timestamped text of its old content ("" when missing), and no other file changes |
| Timestamps.TimestampOnEmpty | src/domain/note.service.ts:146-148 | an empty or missing note gets exactly the marker and a newline |
| Timestamps.TimestampAppends | src/domain/note.service.ts:149-155 | the text is kept, a newline is added only when missing, the marker line follows, and there is exactly one marker more, which is the last |
| Timestamps.TimestampReplaces | src/domain/note.service.ts:156-169 | the last marker is overwritten in place: same length, same text before and after, same marker positions |
| Timestamps.ReplaceFallbackUnreachable | src/domain/note.service.ts:170-176 | the "no timestamps found" fallback in the replacement branch can never run |
| Timestamps.TimestampEndsWithCheckIn | src/domain/note.service.ts:135-177 | after a check-in the last marker is the new one and only whitespace follows it |
| Timestamps.ReplaceWithSameMarker | src/domain/note.service.ts:161-169 | overwriting the last marker with its own text changes nothing |
| Timestamps.TimestampIdempotent | src/domain/note.service.ts:135-177 | two check-ins with the same time give the same text as one |
| Timestamps.AppendMarkerLineMatches | src/domain/note.service.ts:152-155 | the appended marker line adds exactly one marker at its own position |
| Markers.MatchesAfterBreak | src/domain/note.service.ts:152-155 | after a line break, the markers of the old text are kept and the new text's markers are shifted |
| Markers.MatchesNewlineAppended | src/domain/note.service.ts:152-153 | adding a trailing newline adds or removes no marker |
| Markers.ReplaceMarkerKeepsMarkers | src/domain/note.service.ts:166-169 | overwriting a marker with another marker leaves every marker position as it was |
| Timestamps.AddedBelowIff | src/domain/note.service.ts:182-222 | true exactly when both texts have the same non-zero marker count and the same last marker text, and the trimmed text after the last marker of `after` is longer than `before`'s trimmed text cut at the same offset |
| Notes.NoteService.PostProcessAfterEdit | src/domain/note.service.ts:224-244 | writes the separated text when there is one and otherwise changes no file |
| Timestamps.SeparatorShape | src/domain/note.service.ts:229-243 | a separator is written exactly when an addition is detected and the text has no `---`; the text is kept as a prefix and ends with `\n\n---\n\n` |
| Timestamps.WithSeparatorShape | src/domain/note.service.ts:236-239 | the written text is `after`, a newline when missing, and `\n---\n\n`, of the matching length |
| Timestamps.SeparatorOnce | src/domain/note.service.ts:234 | once written, the text contains `---`, so a second pass writes nothing |
| Timestamps.AppendedCheckInSuppressesSeparator | src/commands/manda.command.ts:16-32 | when the check-in appended a marker and the editing kept the marker count, the counts before and after differ and no separator is written |
| Commands.ChosenDate | src/commands/do.command.ts:26-33 | the explicit date when given, else the day before today with `--yester`, else today |
| DoCmd.DoCommand.Execute | src/commands/do.command.ts:24-66 | with `MANDA_DIR` unset or empty it fails and writes nothing; otherwise the view holds the parsed tasks of the note's old text, the `YYYY-MM-DD` title and the note path, and only a missing note is created |
| DoCmd.ParseTasksFromMarkdown | src/commands/do.command.ts:68-127 | the loop over lines, with its header, pending-timestamp and counter variables, computes exactly the parse |
| Tasks.Classify | src/commands/do.command.ts:77-100 | a line counts as a task exactly when the task pattern matches it, and then carries that match |
| Tasks.TaskLineIsOnlyTask | src/commands/do.command.ts:79-99 | a task line is neither a marker line nor a heading |
| Tasks.MatchTimestampLine | src/commands/do.command.ts:79 | matches exactly the lines that are one seven-character marker, capturing `HH:MM` |
| Tasks.ParseFollowsTaskLines | src/commands/do.command.ts:98-119 | one task per task line, in order, with that line's trimmed text, `completed` exactly when the box holds `x`, and the id `task-k` |
| Tasks.ParseNumbersTasks | src/commands/do.command.ts:114-119 | the counter equals the number of tasks, and the k-th task has id `task-k` |
| Tasks.TaskIdsDistinct | src/commands/do.command.ts:115 | the ids of the tasks are pairwise different |
| Tasks.TaskSource | src/commands/do.command.ts:99-119 | every task is the one its task line adds in the parse state reached at that line |
| Tasks.HeaderPersists | src/commands/do.command.ts:105-112 | lines without a heading or marker keep the header and label their tasks with it |
| Tasks.HeadingLabelsTasks | src/commands/do.command.ts:89-95 | a heading with no pending marker labels the tasks under it with its trimmed text |
| Tasks.MarkerLineResetsHeader | src/commands/do.command.ts:80-84 | after a marker line, tasks up to the next heading or marker line are filed under `General` |
| Tasks.MarkedHeadingLabelsTasks | src/commands/do.command.ts:80-93 | a marker line followed by a heading labels that heading's tasks `heading [HH:MM]` |
| DoCmd.MissingNoteShowsNoTasks | src/commands/do.command.ts:53-62 | a note that did not exist is shown with no tasks |
| DoCmd.TitleNamesNote | src/commands/do.command.ts:236-251 | the note path is `root/<title>.md`, and its base name and directory are the title file and the root |
| DoCmd.FindTask | src/commands/do.command.ts:172 | a found task is in the list and has the id; otherwise no task has it |
| DoCmd.FindParsedTask | src/commands/do.command.ts:172-173 | every parsed task is found by its own id |
| DoCmd.DoCommand.ToggleTaskInFile | src/commands/do.command.ts:163-203 | a missing note or an unknown id writes nothing; otherwise the note is written back with the toggled text |
| DoCmd.ToggleInLines | src/commands/do.command.ts:175-199 | the scan with its tracked header flips exactly the first line whose trimmed text and header equal the task's, or changes nothing |
| Toggle.FirstBoxIsCheckbox | src/commands/do.command.ts:195 | the first `[ ]`/`[x]` of a task line is its checkbox, so the replacement hits the checkbox |
| Toggle.CheckboxWriteMatches | src/commands/do.command.ts:186-195 | writing ` ` or `x` into the checkbox keeps the line a task line with the same box and text |
| Toggle.FlipMatches | src/commands/do.command.ts:194-195 | the flipped line is a task line with the same text and the other checkbox state |
| Toggle.FlipInvolution | src/commands/do.command.ts:194-195 | flipping twice gives the line back |
| Toggle.ScanStopsAt | src/commands/do.command.ts:193-196 | a scan that stops at the first target flips exactly that line |
| Toggle.ScanFindsNothing | src/commands/do.command.ts:176-202 | a scan that finds no target leaves the lines unchanged |
| Toggle.ToggleLinesTwice | src/commands/do.command.ts:175-199 | toggling the lines twice with the same headers restores them |
| Toggle.ToggleLinesRoundTrip | src/commands/do.command.ts:169-202 | splitting the joined toggled lines gives the toggled lines |
| Toggle.ToggledContentLines | src/commands/do.command.ts:168-202 | the first target line is flipped, keeping its text, and every other line is kept; with no target the text is written back unchanged |
| Toggle.ToggleTwiceRestores | src/commands/do.command.ts:163-203 | toggling the same task twice restores the note |
| Toggle.CurrentHeaderIsHeading | src/commands/do.command.ts:180-183 | the tracked header is "" or the text of a heading line |
| Toggle.NoHeadingNoTarget | src/commands/do.command.ts:189-193 | with no heading line carrying the task's header, no line is a target |
| Toggle.UnlabelledHeaderNeverToggles | src/commands/do.command.ts:175-193 | a task whose header is not a heading's text (`General`, `heading [HH:MM]`) is never found, and the note is written back unchanged |
| Toggle.SoleTaskParse | src/commands/do.command.ts:105-119 | a note of one task line parses to one task filed under `General` |
| Toggle.SoleTaskAsWritten | src/commands/do.command.ts:189-193 | toggling that task leaves the note unchanged |
| Toggle.SoleTaskFixed | src/commands/do.command.ts:193-195 | the corrected toggle flips its checkbox |
| Toggle.ParsedTaskIsFound | src/commands/do.command.ts:105-112 | with the parser's headers, every parsed task is found, at its own line or before it |
| Toggle.FixedToggleTwiceRestores | src/commands/do.command.ts:163-203 | the corrected toggle, applied twice, also restores the note |
| Tasks.TasksPrefix | src/commands/do.command.ts:75-123 | the tasks of the first lines of a note are the first tasks of the whole note |
| Tasks.TaskOfLine | src/commands/do.command.ts:99-119 | the task line at a given line adds the task numbered by the tasks before it, with that line's text and box and the header in force there |
| Tasks.EarlierTaskSource | src/commands/do.command.ts:99-119 | each task numbered before that one comes from a task line above it |
| Tasks.FlipCompleted | src/commands/do.command.ts:101-117 | the same tasks with one completion flag flipped and nothing else changed |
| Tasks.ParseAfterCheckboxChange | src/commands/do.command.ts:75-123 | changing one task line's checkbox changes only the flag of the task that line adds: same ids, texts, headers and other flags |
| Toggle.KindsAfterFlip | src/commands/do.command.ts:194-195 | a flipped line keeps its text, and only its checkbox state changes |
| Toggle.ReparseAfterFlip | src/commands/do.command.ts:68-127 | parsing again after a flip: the flipped line's task has the other flag and every other task is as it was |
| Toggle.FixedToggleReparse | src/commands/do.command.ts:163-203 | with the corrected toggle, toggle then parse again flips the flag of the first task with the toggled task's text and header, which is at or before the toggled task, and changes no other task |
| Toggle.RepeatedHeadingParse | src/commands/do.command.ts:79-119 | a marker line, a heading, a task line, the heading and the task line again give the same task twice, under `heading [HH:MM]` and then under `heading` |
| Toggle.RepeatedHeadingScan | src/commands/do.command.ts:175-193 | as written, the scan for a task under `heading` stops at the first task line, whose task is filed under `heading [HH:MM]` |
| Toggle.ToggleFlipsOtherTask | src/commands/do.command.ts:175-195 | as written, toggling the second task of that note flips the first task's flag and leaves the second's |
| Toggle.ToggleFlipsOtherTaskExample | src/commands/do.command.ts:163-203 | on `[09:00]`, `# H`, `- [ ] a`, `# H`, `- [ ] a`, toggling `task-1` ticks `task-0` and leaves `task-1` open |
| SeeCmd.SeeCommand.constructor | src/commands/see.command.ts:17-23 | editing starts out disallowed, as the undefined field gates |
| SeeCmd.SeeCommand.Execute | src/commands/see.command.ts:25-40 | editing is allowed exactly when no explicit date is given; with `MANDA_DIR` unset or empty it fails and writes nothing; otherwise the chosen day's note is shown and created when missing |
| SeeCmd.SeeCommand.DisplayNote | src/commands/see.command.ts:43-97 | with `MANDA_DIR` unset or empty it fails and writes nothing; otherwise the view is the note's old text, title and day, and only a missing note is created |
| SeeCmd.SeeCommand.OnEdit | src/commands/see.command.ts:70-79 | the editor gets the current day's note path exactly when editing is allowed |
| SeeCmd.SeeCommand.NavigateNext | src/commands/see.command.ts:62-68 | shows the next day's note, created when missing, exactly when that day is not after today, and otherwise does nothing; an empty root fails again in the display |
| SeeCmd.NextTarget | src/commands/see.command.ts:62-68 | there is a next day exactly when the current day is before today, and it is one day later |
| SeeCmd.NextStepsReachToday | src/commands/see.command.ts:62-68 | stepping forward from any day up to today reaches today in as many steps as days between them, and stops there |
| SeeCmd.SeeCommand.NavigatePrevious | src/commands/see.command.ts:55-60 | shows the previous note when there is one and otherwise does nothing; an empty root fails again in the display |
| SeeCmd.IndexOfFrom | src/commands/see.command.ts:184 | the first occurrence at or after the start, or none at all |
| SeeCmd.Normalize | src/commands/see.command.ts:186 | a parsed `YYYY-MM-DD` with month 1..12 and day 1..31 is the valid date that many days into the month, rolling past its end |
| SeeCmd.ValidatedHasNoDot | src/commands/see.command.ts:184-185 | a validated stem holds no `.` |
| SeeCmd.ListedEntryShape | src/commands/see.command.ts:176-185 | an entry that survives the filters is its stem followed by `.md` |
| SeeCmd.NoteFileIsListed | src/commands/see.command.ts:176-187 | a date's note file name is read back as that date |
| SeeCmd.ListingDatesMembers | src/commands/see.command.ts:183-187 | a date is among the listing's dates exactly when some entry names it |
| SeeCmd.EarliestDate | src/commands/see.command.ts:188-190 | none exactly for no dates; otherwise a member that is at or before every date |
| SeeCmd.FindOldestNoteIsOldest | src/commands/see.command.ts:172-194 | null exactly when the listing fails or no entry names a date; otherwise the date of an entry and at or before every entry's date |
| SeeCmd.OldestNoteBounds | src/commands/see.command.ts:172-194 | a listed note file means the oldest note is that day or earlier |
| SeeCmd.SeeCommand.FindPreviousValidNote | src/commands/see.command.ts:196-223 | the backward loop computes exactly the previous note, and terminates as the day number falls toward the oldest note |
| SeeCmd.LatestNoteFromIsLatest | src/commands/see.command.ts:212-222 | the walk returns a day between the oldest note and the start whose file exists with no file after it up to the start, or none when no day in that range has one |
| SeeCmd.PreviousValidNoteIsLatest | src/commands/see.command.ts:196-223 | the result is at or after the oldest note, before the current day, has its file, and no day strictly between has one; null means no oldest note or no file in the range |
| SeeCmd.NothingBeforeOldest | src/commands/see.command.ts:202-208 | when the day before the current one is before the oldest note, the result is null |
| DateUtils.GetNextDate | src/utils/dateUtils.ts:64-68 | a valid date exactly one day number later |
| DateUtils.GetYesterdayFromToday | src/utils/dateUtils.ts:40-45 | a valid date one day number earlier, whose next day is today |
| DateUtils.IsDateBeforeOrEqualToday | src/utils/dateUtils.ts:75-81 | true exactly when the day number is at most today's |
| DateUtils.TodayIsLastAllowed | src/utils/dateUtils.ts:75-81 | today passes the test and tomorrow does not |
| Config.FormatNoteDateParts | src/utils/dateUtils.ts:52-57 | the unpadded year, `-`, the two-digit month 1..12, `-`, and the two-digit day 1..31 |
| Config.FormatNoteDateValidates | src/config/index.ts:104-113 | a formatted date passes the validation pattern exactly when its year has four digits |
| Config.FormatNoteDateRoundTrip | src/config/index.ts:108-113 | for four-digit years, reading a formatted date back gives the date |
| Config.FormatNoteDateInjective | src/config/index.ts:108-113 | distinct dates with four-digit years format differently |
| Config.FormatTimestampParts | src/config/index.ts:115-124 | the note date, a space, and two-digit hour, minute and second separated by colons, which read back as the clock fields |
| FileUtils.NoteFileNameShape | src/domain/note.service.ts:7-13 | today's file name is the ten-character validated date followed by `.md`, with no `/` |
| FileUtils.NotePathShape | src/utils/fileUtils.ts:10-18 | the path is the root, `/` and the note's file name, and base name and directory split it back |
| FileUtils.NotePathInjective | src/utils/fileUtils.ts:10-18 | distinct dates with four-digit years have distinct note paths |
| FileUtils.YesterdayNotePathIsYesterdays | src/utils/fileUtils.ts:24-29 | yesterday's note path is the path of the day whose next day is today |
| FileUtils.PathJoinSplits | src/domain/note.service.ts:24-38 | `path.basename` and `path.dirname` recover the file name and directory of a joined path |
| Store.FileStore.Exists | src/services/file-system.service.ts:5-12 | true exactly when the path holds a file |
| Store.FileStore.Read | src/services/file-system.service.ts:14-16 | the file's text, or the error of a missing file |
| Store.FileStore.Write | src/services/file-system.service.ts:18-20 | the file is created or replaced, and nothing else changes |
| Dates.NextDay | src/utils/dateUtils.ts:65-66 | a valid date after the given one, rolling over month and year |
| Dates.NextDayIsSuccessor | src/utils/dateUtils.ts:65-66 | no valid date lies strictly between a day and the next |
| Dates.PrevDayIsPredecessor | src/commands/see.command.ts:219 | no valid date lies strictly between the previous day and a day |
| Dates.PrevNextInverse | src/utils/dateUtils.ts:40-45 | stepping forward then back, or back then forward, returns to the same day |
| Dates.YearLength | src/utils/dateUtils.ts:64-68 | a year has 366 days exactly when it is a leap year |
| Dates.BeforeIffDayNumber | src/commands/see.command.ts:206-213 | date comparison is the comparison of day numbers |
| Dates.DayNumberInjective | src/commands/see.command.ts:169 | distinct valid dates have distinct day numbers |
| Strings.TrimIsSlice | src/domain/note.service.ts:132 | `trim` keeps a slice of its input and cuts only whitespace, down to a non-space at either end |
| Strings.TrimEmptyIff | src/domain/note.service.ts:132 | `trim` gives "" exactly for whitespace-only text |
| Strings.TrimIdempotent | src/domain/note.service.ts:96 | trimming twice is trimming once |
| Strings.JoinSplit | src/commands/do.command.ts:169-202 | joining the split lines gives the text back |
| Strings.SplitJoin | src/commands/do.command.ts:169-202 | splitting joined lines without newlines gives the lines back |
| Strings.SplitAppend | src/domain/note.service.ts:89 | splitting distributes over a joining newline |
| Strings.NatToStringInjective | src/commands/do.command.ts:115 | distinct counters print differently |
| Strings.PadStart2TwoDigits | src/config/index.ts:110-111 | below 100 the padded form is two digits that read back as the number |

## Left out

- The terminal UI (the Markdown preview and the task list) is not modelled. `DoCmd.DoCommand.Execute` and the `see` display methods return what they would hand to it.
- The editor is not modelled, and neither is git. `SeeCmd.SeeCommand.OnEdit` returns the path the editor would be opened on.
- The `manda` command sequences calls to the editor, so it is not modelled as a method. `Timestamps.AppendedCheckInSuppressesSeparator` states what its order of snapshot, check-in and post-edit means.
- The ambient clock and environment are parameters: `today`, `now` and the notes root (`MANDA_DIR`). An unset root is `root: None`; the commands fail on it and on an empty root, both falsy in the source (`Commands.RootSet`). The fixed dates used when the environment marks a test run are not modelled.
- The directory listing behind `findOldestNote` is a parameter, `None` when listing fails.
- Recursive navigation is modelled as one step: `NavigatePrevious` and `NavigateNext` return the next view rather than re-entering the display loop. `NextStepsReachToday` covers repeated forward steps.
- `path.join` is modelled as `dir + "/" + name` for a root without a trailing slash; no normalisation of `.`, `..` or doubled slashes is modelled.
- `path.basename`/`path.dirname` are modelled for paths without a trailing slash.
- Exceptions are modelled as results. A failed read is `None`: it yields no carried tasks and makes the toggle write nothing. A read failure that is not a missing file cannot arise in the map-backed store.
- Directories are not entries of the store; `ensureNotesDirExists` is left out.
- Dates are calendar days. The time of day of a `Date` is dropped everywhere, which the source's comparisons at midnight allow.
- An explicit `--date` is taken as an already parsed calendar day. The source's `new Date(s + "T00:00:00")` on an arbitrary string, and an empty-string `--date` (falsy in the source, but still a "given" date in `allowEditNotes`), are not modelled.
- Text is a sequence of characters. CRLF line endings are not normalised: a task line ending in `\r` does not match the patterns, because `.` does not match `\r`.
- The task list's grouping of tasks by header relies on JavaScript object key order and is not modelled.
- `Dates.NextDay`: a year outside 1000..9999 formats with fewer or more than four digits. Such dates are valid in the model, and the properties that need the validation pattern require four-digit years.

## Findings

| source | as written | input that shows it | evidently intended | confidence | as-written member | corrected member |
|---|---|---|---|---|---|---|
| src/commands/do.command.ts:189-193 | the toggle compares the task's header with the last heading's text only; the parser files tasks under `General` when no heading is active and under `heading [HH:MM]` after a marker line | a note holding only `- [ ] a`: the parse gives one task with header `General`, and toggling it writes the note back unchanged | the toggle tracks the header as the parser does, so every listed task can be toggled | not executed | Toggle.SoleTaskAsWritten | Toggle.SoleTaskFixed |
| src/commands/do.command.ts:175-193 | as above: a header that is not a heading's text matches no line at all | a marker line `[09:00]`, a heading `# Work`, then `- [ ] a`: the task's header is `Work [09:00]`, and no line is found | as above | not executed | Toggle.UnlabelledHeaderNeverToggles | Toggle.ParsedTaskIsFound |
| src/commands/do.command.ts:180-195 | the scan finds the first task line with the task's text under a heading with the task's header text; a task filed earlier under `heading [HH:MM]` sits under the same heading text | `[09:00]`, `# H`, `- [ ] a`, `# H`, `- [ ] a`: the parse gives `task-0` (`a`, `H [09:00]`) and `task-1` (`a`, `H`); toggling `task-1` flips the third line, so `task-0` is ticked and `task-1` stays open | toggling a task changes that task's flag and no other task's | not executed | Toggle.ToggleFlipsOtherTaskExample | Toggle.FixedToggleReparse |
