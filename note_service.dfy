/**
 * The note service: it keeps the daily notes on a file store, creates the
 * day's note (seeded with yesterday's unfinished tasks), writes the check-in
 * marker and, after an editing session, the separator.  The clock is a
 * parameter: `today` and `now` are what `new Date()` reads.
 */
module Notes {
  import opened Options
  import opened Strings
  import opened Dates
  import opened Config
  import opened Markers
  import opened FileUtils
  import opened Store
  import opened Timestamps
  import opened CarryOver

  /** The text a path holds, or "" when there is no such file. */
  function ContentOrEmpty(files: map<string, string>, path: string): string {
    if path in files then files[path] else ""
  }

  /** What `ensureNoteExists` writes into a missing note. */
  function NewNoteContent(files: map<string, string>, notePath: string, today: Date): string
    requires Valid(today)
  {
    if Basename(notePath) == NoteFileName(today) then TodaySeed(files, notePath, today) else ""
  }

  class NoteService {
    const fs: FileStore

    constructor (fs: FileStore)
      ensures this.fs == fs
    {
      this.fs := fs;
    }

    /** `ensureNoteExists`: an existing note is left alone; a missing one is created, seeded only when it is today's. */
    method EnsureNoteExists(notePath: string, today: Date)
      requires Valid(today)
      modifies fs
      ensures notePath in old(fs.files) ==> fs.files == old(fs.files)
      ensures notePath !in old(fs.files) ==>
        fs.files == old(fs.files)[notePath := NewNoteContent(old(fs.files), notePath, today)]
    {
      var fileExists := fs.Exists(notePath);
      if !fileExists {
        var fileName := Basename(notePath);
        var todayFileName := NoteFileName(today);
        var content := "";
        if fileName == todayFileName {
          content := GenerateNoteWithIncompleteTasks(notePath, today);
        }
        fs.Write(notePath, content);
      }
    }

    /** `generateNoteWithIncompleteTasks`: one link line, the tasks and a blank line per bucket. */
    method GenerateNoteWithIncompleteTasks(todayNotePath: string, today: Date) returns (content: string)
      requires Valid(today)
      ensures content == TodaySeed(fs.files, todayNotePath, today)
    {
      var notesDir := Dirname(todayNotePath);
      var incompleteTasks := CollectIncompleteTasksFromPreviousNotes(notesDir, today);
      if |incompleteTasks| == 0 {
        return "";
      }
      content := FormatCarriedTasks(incompleteTasks);
    }

    /** The formatting loop of `generateNoteWithIncompleteTasks`: per bucket the link line, its tasks and a blank line. */
    method FormatCarriedTasks(incompleteTasks: seq<Bucket>) returns (content: string)
      ensures content == SeedContent(incompleteTasks)
    {
      content := "";
      for i := 0 to |incompleteTasks|
        invariant content == SeedContent(incompleteTasks[..i])
      {
        var b := incompleteTasks[i];
        var date, tasks := b.date, b.tasks;
        ghost var prefix := content;
        content := content + "[" + date + "](" + date + ".md)\n\n";
        ghost var head := content;
        for j := 0 to |tasks|
          invariant content == head + TaskLines(tasks[..j])
        {
          TaskLinesStep(tasks[..j], tasks[j]);
          assert tasks[..j + 1] == tasks[..j] + [tasks[j]];
          content := content + tasks[j] + "\n";
        }
        assert tasks[..|tasks|] == tasks;
        content := content + "\n";
        BucketAppended(prefix, b, TaskLines(tasks));
        SeedStep(incompleteTasks[..i], b);
        assert incompleteTasks[..i + 1] == incompleteTasks[..i] + [b];
      }
      assert incompleteTasks[..|incompleteTasks|] == incompleteTasks;
    }

    /** `collectIncompleteTasksFromPreviousNotes`: yesterday's note only; a read failure yields nothing. */
    method CollectIncompleteTasksFromPreviousNotes(notesDir: string, today: Date) returns (result: seq<Bucket>)
      requires Valid(today)
      ensures result == YesterdayBuckets(fs.files, notesDir, today)
    {
      var yesterday := PrevDay(today);
      var yesterdayNotePath := PathJoin(notesDir, NoteFileName(yesterday));
      result := [];
      var fileExists := fs.Exists(yesterdayNotePath);
      if fileExists {
        var content := fs.Read(yesterdayNotePath);
        if content.Some? {
          var incompleteTasks := ExtractIncompleteTasks(content.value);
          if |incompleteTasks| > 0 {
            result := [Bucket(FormatNoteDate(yesterday), incompleteTasks)];
          }
        }
      }
    }

    /** `extractIncompleteTasks`: each matching line of the note, normalised, in order. */
    method ExtractIncompleteTasks(content: string) returns (incompleteTasks: seq<string>)
      ensures incompleteTasks == IncompleteTasks(Split(content))
    {
      var lines := Split(content);
      incompleteTasks := [];
      for i := 0 to |lines|
        invariant incompleteTasks == IncompleteTasks(lines[..i])
      {
        var line := lines[i];
        assert lines[..i + 1] == lines[..i] + [line];
        ExtractStep(lines[..i], line);
        var taskMatch := MatchIncompleteTask(line);
        if taskMatch.Some? {
          incompleteTasks := incompleteTasks + ["- [ ] " + taskMatch.value];
        }
      }
      assert lines[..|lines|] == lines;
    }

    /** `appendTimestampLink`: writes the check-in marker for `now` into the note. */
    method AppendTimestampLink(notePath: string, now: TimeOfDay)
      requires ValidTime(now)
      modifies fs
      ensures fs.files == old(fs.files)[notePath :=
        TimestampedContent(ContentOrEmpty(old(fs.files), notePath), TimestampLink(now))]
    {
      var timestamp := GetCurrentTimeString(now);
      var timestampLink := "[" + timestamp + "]";
      var fileExists := fs.Exists(notePath);
      var content := "";
      if fileExists {
        var read := fs.Read(notePath);
        content := read.value;
      }
      ghost var original := content;
      if content == "" {
        content := timestampLink + "\n";
      } else if HasContentAfterLastTimestamp(content) {
        if !EndsWith(content, "\n") {
          content := content + "\n";
        }
        content := content + timestampLink + "\n";
      } else {
        var matches := LastMatchText(content);
        if matches.Some? {
          var lastTimestamp := matches.value;
          LastMatchIndex(content);
          var lastTimestampIndex := LastIndexOf(content, lastTimestamp);
          content := content[..lastTimestampIndex] + timestampLink + content[lastTimestampIndex + |lastTimestamp|..];
        } else {
          assert false;
        }
      }
      assert content == TimestampedContent(original, timestampLink);
      fs.Write(notePath, content);
    }

    /** `postProcessAfterEdit`: appends the separator when text was added below the last marker and none is present. */
    method PostProcessAfterEdit(notePath: string, beforeContent: string, afterContent: string)
      modifies fs
      ensures fs.files == match SeparatedContent(beforeContent, afterContent)
        case Some(updated) => old(fs.files)[notePath := updated]
        case None => old(fs.files)
    {
      if HasContentAddedBelowLastTimestamp(beforeContent, afterContent) {
        var updatedContent := afterContent;
        if !Contains(updatedContent, "---") {
          if !EndsWith(updatedContent, "\n") {
            updatedContent := updatedContent + "\n";
          }
          updatedContent := updatedContent + "\n---\n\n";
          fs.Write(notePath, updatedContent);
        }
      }
    }
  }
}
