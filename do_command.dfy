/**
 * The `do` command: it picks a day (an explicit date, yesterday, or today),
 * makes sure the day's note exists, parses its tasks for the task list, and
 * writes a task's checkbox back when the list toggles it.  The terminal UI is
 * not modelled; `Execute` returns what it would show.
 */
module DoCmd {
  import opened Options
  import opened Strings
  import opened Dates
  import opened Config
  import opened FileUtils
  import opened Store
  import opened Notes
  import opened Tasks
  import opened Toggle
  import opened Commands
  import DateUtils

  /** What the task list is given: the tasks, the title and the note's path. */
  datatype TaskView = TaskView(tasks: seq<Task>, title: string, notePath: string)

  /** `tasks.find(t => t.id === taskId)`. */
  function FindTask(tasks: seq<Task>, id: string): (r: Option<Task>)
    ensures r.Some? ==> r.value in tasks && r.value.id == id
    ensures r.None? ==> forall k :: 0 <= k < |tasks| ==> tasks[k].id != id
  {
    if tasks == [] then None
    else if tasks[0].id == id then Some(tasks[0])
    else
      var r := FindTask(tasks[1..], id);
      assert forall k :: 1 <= k < |tasks| ==> tasks[k] == tasks[1..][k - 1];
      r
  }

  /** Every task the parse yields can be looked up by its id, and the lookup gives that task. */
  lemma FindParsedTask(content: string, k: nat)
    requires k < |ParseTasks(content)|
    ensures FindTask(ParseTasks(content), TaskId(k)) == Some(ParseTasks(content)[k])
  {
    var tasks := ParseTasks(content);
    var r := FindTask(tasks, TaskId(k));
    ParseFollowsTaskLines(content);
    if r != Some(tasks[k]) {
      var j :| 0 <= j < |tasks| && tasks[j] == r.value;
      TaskIdsDistinct(content, j, k);
    }
  }

  /** The title and the note path name the same day: the path is `root/<title>.md`. */
  lemma TitleNamesNote(root: string, d: Date)
    requires Valid(d) && 1000 <= d.year <= 9999
    ensures GetNotePathForDate(root, d) == root + "/" + FormatNoteDate(d) + ".md"
    ensures Basename(GetNotePathForDate(root, d)) == FormatNoteDate(d) + ".md"
    ensures Dirname(GetNotePathForDate(root, d)) == root
  {
    NotePathShape(root, d);
  }

  /** A note that did not exist is shown with no tasks, whatever `ensureNoteExists` seeded into it. */
  lemma MissingNoteShowsNoTasks()
    ensures ParseTasks("") == []
  {
    assert Split("") == [""];
    assert Kinds([""]) == [Classify("")];
    assert [Classify("")][..0] == [];
    assert MatchTask("") == None;
  }

  /** `parseTasksFromMarkdown`: one pass over the lines with the header and timestamp variables. */
  method ParseTasksFromMarkdown(content: string) returns (tasks: seq<Task>)
    ensures tasks == ParseTasks(content)
  {
    tasks := [];
    var lines := Split(content);
    var currentHeader, pendingTimestamp, headerTimestamp := "", "", "";
    var taskId: nat := 0;
    ghost var kinds := Kinds(lines);
    for i := 0 to |lines|
      invariant ParseKinds(kinds[..i]) == ParseState(currentHeader, pendingTimestamp, headerTimestamp, taskId, tasks)
    {
      var line := lines[i];
      ghost var st := ParseState(currentHeader, pendingTimestamp, headerTimestamp, taskId, tasks);
      ParseKindsStep(lines, i);
      var timestampMatch := MatchTimestampLine(line);
      if timestampMatch.Some? {
        StepMarker(st, line);
        pendingTimestamp := timestampMatch.value;
        currentHeader := "";
        headerTimestamp := "";
        continue;
      }
      var headerMatch := MatchHeading(line);
      if headerMatch.Some? {
        StepHeading(st, line);
        currentHeader := headerMatch.value;
        headerTimestamp := pendingTimestamp;
        pendingTimestamp := "";
        continue;
      }
      var taskMatch := MatchTask(line);
      if taskMatch.None? {
        StepOther(st, line);
      } else {
        StepTask(st, line);
        var completed := taskMatch.value.checkbox == 'x';
        var header := "";
        if currentHeader != "" && headerTimestamp != "" {
          header := currentHeader + " [" + headerTimestamp + "]";
        } else if currentHeader != "" {
          header := currentHeader;
        } else {
          header := "General";
        }
        tasks := tasks + [Task(TaskId(taskId), taskMatch.value.text, completed, header)];
        taskId := taskId + 1;
        pendingTimestamp := "";
      }
    }
    assert kinds[..|lines|] == kinds;
  }

  /**
   * The scan inside `toggleTaskInFile`: walk the lines tracking the last
   * heading's text, and flip the checkbox of the first task line whose text
   * and tracked heading equal the task's text and header.
   */
  method ToggleInLines(lines: seq<string>, task: Task) returns (r: seq<string>)
    ensures r == ToggleLines(lines, ScanHeaders(lines), task)
  {
    ghost var items, hs := Items(lines), Headings(lines);
    var currentHeader := "";
    var i := 0;
    while i < |lines|
      invariant 0 <= i <= |lines|
      invariant currentHeader == HeaderBefore(hs, i)
      invariant NoTargetBefore(items, HeaderSeq(hs), task, i)
    {
      var line := lines[i];
      ScanLine(items, hs, task, i);
      var headerMatch := MatchHeading(line);
      assert headerMatch == hs[i];
      if headerMatch.Some? {
        currentHeader := headerMatch.value;
      }
      var taskMatch := MatchTask(line);
      assert taskMatch == items[i];
      if taskMatch.Some? {
        var lineHeader := currentHeader;
        var lineText := taskMatch.value.text;
        if lineText == task.text && lineHeader == task.header {
          var newCheckbox := if taskMatch.value.checkbox == 'x' then ' ' else 'x';
          r := lines[i := ReplaceFirstBox(line, newCheckbox)];
          ScanStopsAt(lines, ScanHeaders(lines), task, i);
          return;
        }
      }
      i := i + 1;
    }
    ScanFindsNothing(lines, ScanHeaders(lines), task);
    r := lines;
  }

  class DoCommand {
    const notes: NoteService
    const fs: FileStore

    constructor (notes: NoteService)
      ensures this.notes == notes && this.fs == notes.fs
    {
      this.notes := notes;
      this.fs := notes.fs;
    }

    /**
     * `execute` with `displayTasksWithTUI`: without a notes root it fails;
     * otherwise the chosen day's note is read, or created by
     * `ensureNoteExists` (and then shown with the empty content it started
     * from), and its tasks are handed to the task list.
     */
    method Execute(options: DayOptions, root: Option<string>, today: Date) returns (view: Option<TaskView>)
      requires Valid(today) && ValidOptions(options) && notes.fs == fs
      modifies fs
      ensures !RootSet(root) ==> view.None? && fs.files == old(fs.files)
      ensures RootSet(root) ==>
        var d := ChosenDate(options, today);
        var notePath := GetNotePathForDate(root.value, d);
        && view == Some(TaskView(ParseTasks(ContentOrEmpty(old(fs.files), notePath)), FormatNoteDate(d), notePath))
        && fs.files == if notePath in old(fs.files) then old(fs.files)
                       else old(fs.files)[notePath := NewNoteContent(old(fs.files), notePath, today)]
    {
      var currentDate: Date;
      if options.date.Some? {
        currentDate := options.date.value;
      } else if options.yester {
        currentDate := DateUtils.GetYesterdayFromToday(today);
      } else {
        currentDate := today;
      }
      if !RootSet(root) {
        return None;
      }
      var notePath := GetNotePathForDate(root.value, currentDate);
      var title := FormatNoteDate(currentDate);
      var fileExists := fs.Exists(notePath);
      var content := "";
      if fileExists {
        var read := fs.Read(notePath);
        content := read.value;
      } else {
        notes.EnsureNoteExists(notePath, today);
      }
      var tasks := ParseTasksFromMarkdown(content);
      view := Some(TaskView(tasks, title, notePath));
    }

    /**
     * `toggleTaskInFile`: a missing note is the read error and changes
     * nothing; an unknown id returns before writing; otherwise the note is
     * written back with the first line matching the task's text and header
     * flipped (or unchanged when none matches).
     */
    method ToggleTaskInFile(notePath: string, taskId: string, tasks: seq<Task>)
      modifies fs
      ensures notePath !in old(fs.files) || FindTask(tasks, taskId).None? ==> fs.files == old(fs.files)
      ensures notePath in old(fs.files) && FindTask(tasks, taskId).Some? ==>
        fs.files == old(fs.files)[notePath := ToggledContent(old(fs.files)[notePath], FindTask(tasks, taskId).value)]
    {
      var read := fs.Read(notePath);
      if read.None? {
        return;
      }
      var content := read.value;
      var lines := Split(content);
      var found := FindTask(tasks, taskId);
      if found.None? {
        return;
      }
      var task := found.value;
      lines := ToggleInLines(lines, task);
      fs.Write(notePath, Join(lines));
    }
  }
}
