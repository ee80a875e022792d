/**
 * Carrying unfinished work into a new day: which lines of yesterday's note
 * count as incomplete tasks, how each is normalised, and the text a new
 * daily note is seeded with.
 */
module CarryOver {
  import opened Options
  import opened Strings
  import opened Dates
  import opened Config
  import opened FileUtils

  /**
   * `line.match(/^\s*-\s*\[\s*\]\s*(.+)$/)`, giving the trimmed capture.  The
   * `\s*` runs before `-`, `[` and `]` can only stop at those characters, so
   * each is the longest run; `\s*(.+)$` is `RestMatches`, and whichever split
   * the engine settles on, the trimmed capture is the trimmed remainder.
   */
  function MatchIncompleteTask(line: string): Option<string> {
    match OpenBoxEnd(line)
    case Some(c) => if RestMatches(line[c + 1..], 0) then Some(Trim(line[c + 1..])) else None
    case None => None
  }

  /** Where `^\s*-\s*\[\s*\]` stops (the index of `]`), if it matches. */
  function OpenBoxEnd(line: string): (r: Option<nat>)
    ensures r.Some? ==> r.value < |line|
  {
    var a := SkipWhitespace(line, 0);
    if a < |line| && line[a] == '-' then
      var b := SkipWhitespace(line, a + 1);
      if b < |line| && line[b] == '[' then
        var c := SkipWhitespace(line, b + 1);
        if c < |line| && line[c] == ']' then Some(c) else None
      else None
    else None
  }

  /** The regular expression read literally: whitespace, `-`, whitespace, `[`, whitespace, `]`, then `\s*(.+)$`. */
  predicate OpenTaskShape(line: string, a: nat, b: nat, c: nat) {
    && a < b < c < |line|
    && AllWhitespace(line[..a]) && line[a] == '-'
    && AllWhitespace(line[a + 1..b]) && line[b] == '['
    && AllWhitespace(line[b + 1..c]) && line[c] == ']'
    && RestMatches(line[c + 1..], 0)
  }

  /** A line of the pattern's shape is matched, and the capture is the trimmed text after `]`. */
  lemma ShapeMatches(line: string, a: nat, b: nat, c: nat)
    requires OpenTaskShape(line, a, b, c)
    ensures MatchIncompleteTask(line) == Some(Trim(line[c + 1..]))
  {
    OpenBoxEndExact(line, a, b, c);
    MatchAfterBox(line, c);
  }

  lemma MatchAfterBox(line: string, c: nat)
    requires OpenBoxEnd(line) == Some(c) && RestMatches(line[c + 1..], 0)
    ensures MatchIncompleteTask(line) == Some(Trim(line[c + 1..]))
  {
  }

  lemma OpenBoxEndExact(line: string, a: nat, b: nat, c: nat)
    requires OpenTaskShape(line, a, b, c)
    ensures OpenBoxEnd(line) == Some(c)
  {
    assert line[..a] == line[0..a];
    SkipWhitespaceExact(line, 0, a);
    SkipWhitespaceExact(line, a + 1, b);
    SkipWhitespaceExact(line, b + 1, c);
  }

  /** Every matched line has the pattern's shape. */
  lemma MatchHasShape(line: string)
    requires MatchIncompleteTask(line).Some?
    ensures exists a, b, c :: OpenTaskShape(line, a, b, c)
  {
    var a := SkipWhitespace(line, 0);
    var b := SkipWhitespace(line, a + 1);
    var c := SkipWhitespace(line, b + 1);
    assert line[..a] == line[0..a];
    assert OpenTaskShape(line, a, b, c);
  }

  /** The capture `.+` cannot reach past a line terminator, and trimming leaves no whitespace at either end. */
  lemma CaptureShape(line: string)
    requires MatchIncompleteTask(line).Some?
    ensures var t := MatchIncompleteTask(line).value;
      NoLineTerminator(t) && Trim(t) == t && '\n' !in t
  {
    var c := OpenBoxEnd(line).value;
    var rest := line[c + 1..];
    var k :| 0 <= k < |rest| && AllWhitespace(rest[..k]) && NoLineTerminator(rest[k..]);
    TrimmedTailShape(rest, k);
  }

  /** Trimming text whose tail past some leading whitespace has no line terminator leaves none. */
  lemma TrimmedTailShape(rest: string, k: nat)
    requires k <= |rest| && AllWhitespace(rest[..k]) && NoLineTerminator(rest[k..])
    ensures NoLineTerminator(Trim(rest)) && Trim(Trim(rest)) == Trim(rest) && '\n' !in Trim(rest)
  {
    TrimDropWhitespacePrefix(rest, k);
    TrimKeepsNoLineTerminator(rest[k..]);
    TrimIdempotent(rest);
  }

  /** The normalised line pushed for a captured task. */
  function CarriedLine(text: string): string {
    "- [ ] " + text
  }

  /** What one line contributes to the extracted list. */
  function CarriedFrom(line: string): seq<string> {
    match MatchIncompleteTask(line)
    case Some(t) => [CarriedLine(t)]
    case None => []
  }

  /** `extractIncompleteTasks` over the lines of a note, in order. */
  function IncompleteTasks(lines: seq<string>): seq<string> {
    if lines == [] then []
    else IncompleteTasks(lines[..|lines| - 1]) + CarriedFrom(lines[|lines| - 1])
  }

  /** A carried line: `- [ ] ` and a trimmed single-line text. */
  predicate IsCarriedLine(t: string) {
    && |t| >= 6 && t[..6] == "- [ ] "
    && NoLineTerminator(t[6..]) && Trim(t[6..]) == t[6..]
  }

  /** Every line of the list is a carried line (stated from the end, as the list is built). */
  predicate AllCarried(tasks: seq<string>) {
    tasks == [] || (AllCarried(tasks[..|tasks| - 1]) && IsCarriedLine(tasks[|tasks| - 1]))
  }

  /** `AllCarried` says each element is a carried line, so none holds a newline. */
  lemma {:induction false} AllCarriedEach(tasks: seq<string>)
    requires AllCarried(tasks)
    ensures forall i :: 0 <= i < |tasks| ==> IsCarriedLine(tasks[i]) && '\n' !in tasks[i]
  {
    if tasks != [] {
      var init := tasks[..|tasks| - 1];
      AllCarriedEach(init);
      CarriedLineNoNewline(tasks[|tasks| - 1]);
      assert forall i :: 0 <= i < |init| ==> tasks[i] == init[i];
    }
  }

  lemma CarriedLineNoNewline(t: string)
    requires IsCarriedLine(t)
    ensures '\n' !in t
  {
    var tail := t[6..];
    assert '\n' !in tail;
    assert t == "- [ ] " + tail;
  }

  /** Every extracted line is in normal form, and there are never more of them than lines. */
  lemma {:induction false} IncompleteTasksShape(lines: seq<string>)
    ensures |IncompleteTasks(lines)| <= |lines|
    ensures AllCarried(IncompleteTasks(lines))
  {
    if lines != [] {
      var init := lines[..|lines| - 1];
      IncompleteTasksShape(init);
      var last := lines[|lines| - 1];
      var r := IncompleteTasks(lines);
      if MatchIncompleteTask(last).Some? {
        CaptureShape(last);
        var t := MatchIncompleteTask(last).value;
        assert CarriedLine(t)[6..] == t;
        assert r == IncompleteTasks(init) + [CarriedLine(t)];
        assert r[..|r| - 1] == IncompleteTasks(init);
      } else {
        assert r == IncompleteTasks(init);
      }
    }
  }

  /** A carried line is matched again and gives back its own text. */
  lemma CarriedLineRematches(t: string)
    requires NoLineTerminator(t) && Trim(t) == t
    ensures MatchIncompleteTask(CarriedLine(t)) == Some(t)
  {
    CarriedLineShape(t);
    ShapeMatches(CarriedLine(t), 0, 2, 4);
    TrimLeadingSpace(t);
  }

  lemma TrimLeadingSpace(t: string)
    ensures Trim(" " + t) == Trim(t)
  {
    var rest := " " + t;
    assert rest[..1] == " " && rest[1..] == t;
    TrimDropWhitespacePrefix(rest, 1);
  }

  lemma CarriedLineShape(t: string)
    requires NoLineTerminator(t)
    ensures OpenTaskShape(CarriedLine(t), 0, 2, 4) && CarriedLine(t)[5..] == " " + t
  {
    var line := CarriedLine(t);
    assert line[5..] == " " + t;
    CarriedRestMatches(t);
    assert line[..0] == [] && line[1..2] == " " && line[3..4] == " ";
  }

  lemma CarriedRestMatches(t: string)
    requires NoLineTerminator(t)
    ensures RestMatches(" " + t, 0)
  {
    var rest := " " + t;
    assert rest[..0] == [] && rest[0..] == rest;
    assert forall i :: 1 <= i < |rest| ==> rest[i] == t[i - 1];
  }

  /** A carried line contributes itself. */
  lemma CarriedFromCarried(x: string)
    requires IsCarriedLine(x)
    ensures CarriedFrom(x) == [x]
  {
    CarriedLineRematches(x[6..]);
    assert CarriedLine(x[6..]) == x;
  }

  /** Extracting from already extracted lines changes nothing. */
  lemma {:induction false} IncompleteTasksFixpoint(tasks: seq<string>)
    requires AllCarried(tasks)
    ensures IncompleteTasks(tasks) == tasks
  {
    if tasks != [] {
      var init, last := tasks[..|tasks| - 1], tasks[|tasks| - 1];
      assert init + [last] == tasks;
      IncompleteTasksFixpoint(init);
      FixpointStep(init, last);
    }
  }

  lemma FixpointStep(init: seq<string>, x: string)
    requires IncompleteTasks(init) == init && IsCarriedLine(x)
    ensures IncompleteTasks(init + [x]) == init + [x]
  {
    CarriedFromCarried(x);
    IncompleteTasksSnoc(init, x);
  }

  lemma IncompleteTasksSnoc(init: seq<string>, x: string)
    ensures IncompleteTasks(init + [x]) == IncompleteTasks(init) + CarriedFrom(x)
  {
    assert (init + [x])[..|init|] == init;
  }

  /** One more line: its normalised task, if it is one, follows the earlier ones. */
  lemma ExtractStep(done: seq<string>, line: string)
    ensures IncompleteTasks(done + [line]) == match MatchIncompleteTask(line)
      case Some(t) => IncompleteTasks(done) + ["- [ ] " + t]
      case None => IncompleteTasks(done)
  {
    IncompleteTasksSnoc(done, line);
  }

  // ------------------------------------------------------------ seed text

  /** A source date and the tasks carried from its note. */
  datatype Bucket = Bucket(date: string, tasks: seq<string>)

  /** Each task on its own line. */
  function TaskLines(tasks: seq<string>): string {
    if tasks == [] then "" else TaskLines(tasks[..|tasks| - 1]) + tasks[|tasks| - 1] + "\n"
  }

  /** `[date](date.md)`, a blank line, the tasks, and a blank line. */
  function BucketText(b: Bucket): string {
    LinkLine(b.date) + "\n\n" + TaskLines(b.tasks) + "\n"
  }

  lemma TaskLinesStep(tasks: seq<string>, t: string)
    ensures TaskLines(tasks + [t]) == TaskLines(tasks) + t + "\n"
  {
    assert (tasks + [t])[..|tasks|] == tasks;
  }

  /** The text `generateNoteWithIncompleteTasks` returns for the collected buckets. */
  function SeedContent(buckets: seq<Bucket>): string {
    if buckets == [] then "" else SeedContent(buckets[..|buckets| - 1]) + BucketText(buckets[|buckets| - 1])
  }

  lemma BucketAppended(prefix: string, b: Bucket, body: string)
    requires body == TaskLines(b.tasks)
    ensures prefix + "[" + b.date + "](" + b.date + ".md)\n\n" + body + "\n" == prefix + BucketText(b)
  {
  }

  lemma SeedStep(buckets: seq<Bucket>, b: Bucket)
    ensures SeedContent(buckets + [b]) == SeedContent(buckets) + BucketText(b)
  {
    assert (buckets + [b])[..|buckets|] == buckets;
  }

  /** `collectIncompleteTasksFromPreviousNotes`: only yesterday's note, one bucket when it has incomplete tasks. */
  function YesterdayBuckets(files: map<string, string>, notesDir: string, today: Date): (r: seq<Bucket>)
    requires Valid(today)
    ensures |r| <= 1
    ensures r != [] ==> r[0].date == FormatNoteDate(PrevDay(today)) && r[0].tasks != []
  {
    var yesterday := PrevDay(today);
    var path := PathJoin(notesDir, NoteFileName(yesterday));
    if path in files && IncompleteTasks(Split(files[path])) != [] then
      [Bucket(FormatNoteDate(yesterday), IncompleteTasks(Split(files[path])))]
    else []
  }

  /** The seed of today's note as `ensureNoteExists` writes it. */
  function TodaySeed(files: map<string, string>, notePath: string, today: Date): string
    requires Valid(today)
  {
    SeedContent(YesterdayBuckets(files, Dirname(notePath), today))
  }

  /** Lines joined with a trailing newline. */
  lemma {:induction false} TaskLinesJoin(tasks: seq<string>)
    requires tasks != []
    ensures TaskLines(tasks) == Join(tasks) + "\n"
  {
    if |tasks| == 1 {
    } else {
      var init := tasks[..|tasks| - 1];
      TaskLinesJoin(init);
      JoinSnoc(init, tasks[|tasks| - 1]);
      assert init + [tasks[|tasks| - 1]] == tasks;
    }
  }

  lemma {:induction false} JoinSnoc(lines: seq<string>, x: string)
    requires lines != []
    ensures Join(lines + [x]) == Join(lines) + "\n" + x
  {
    if |lines| == 1 {
      assert (lines + [x])[1..] == [x];
    } else {
      assert (lines + [x])[1..] == lines[1..] + [x];
      JoinSnoc(lines[1..], x);
    }
  }

  /**
   * The seed, read line by line: the link to yesterday's note, a blank line,
   * the carried tasks, and the two empty lines the trailing blank line leaves.
   */
  lemma SeedLines(date: string, tasks: seq<string>)
    requires tasks != [] && '\n' !in date
    requires forall i :: 0 <= i < |tasks| ==> '\n' !in tasks[i]
    ensures Split(SeedContent([Bucket(date, tasks)])) ==
      [LinkLine(date), ""] + tasks + ["", ""]
  {
    var head := LinkLine(date);
    LinkLineNoNewline(date);
    var body := Join(tasks);
    SeedText(date, tasks);
    var tail := "" + "\n" + "";
    var mid := body + "\n" + tail;
    var rest := "" + "\n" + mid;
    SplitAppend(head, rest);
    SplitAppend("", mid);
    SplitAppend(body, tail);
    SplitAppend("", "");
    SplitSingle(head);
    SplitJoin(tasks);
    assert Split(head + "\n" + rest) == [head] + ([""] + (tasks + ([""] + [""])));
  }

  /** The link to the source note. */
  function LinkLine(date: string): string {
    "[" + date + "](" + date + ".md)"
  }

  lemma LinkLineNoNewline(date: string)
    requires '\n' !in date
    ensures '\n' !in LinkLine(date)
  {
    assert LinkLine(date) == "[" + date + "](" + date + ".md)";
  }

  /** One bucket's seed spelled as the lines the split sees. */
  lemma SeedText(date: string, tasks: seq<string>)
    requires tasks != []
    ensures SeedContent([Bucket(date, tasks)]) ==
      LinkLine(date) + "\n" + ("" + "\n" + (Join(tasks) + "\n" + ("" + "\n" + "")))
  {
    TaskLinesJoin(tasks);
    assert [Bucket(date, tasks)][..0] == [];
  }

  /** The link line of a bucket is not a task line. */
  lemma LinkLineIsNoTask(date: string)
    ensures MatchIncompleteTask(LinkLine(date)) == None
  {
    var head := LinkLine(date);
    assert head[0] == '[';
    assert SkipWhitespace(head, 0) == 0;
  }

  /** Extraction from a seed built from carried lines gives back those lines. */
  lemma SeedRoundTrip(date: string, tasks: seq<string>)
    requires tasks != [] && '\n' !in date && AllCarried(tasks)
    ensures IncompleteTasks(Split(SeedContent([Bucket(date, tasks)]))) == tasks
  {
    AllCarriedEach(tasks);
    SeedLines(date, tasks);
    IncompleteTasksFixpoint(tasks);
    LinkLineIsNoTask(date);
    EmptyLineIsNoTask();
    ExtractBetweenBlankLines(LinkLine(date), tasks);
  }

  lemma EmptyLineIsNoTask()
    ensures MatchIncompleteTask("") == None
  {
  }

  /** Lines that are not tasks around a list of tasks add nothing to the extraction. */
  lemma ExtractBetweenBlankLines(head: string, tasks: seq<string>)
    requires MatchIncompleteTask(head) == None && IncompleteTasks(tasks) == tasks
    ensures IncompleteTasks([head, ""] + tasks + ["", ""]) == tasks
  {
    NoTasksIn([head, ""]);
    NoTasksIn(["", ""]);
    ExtractSandwich([head, ""], tasks, ["", ""]);
  }

  lemma ExtractSandwich(pre: seq<string>, mid: seq<string>, post: seq<string>)
    requires IncompleteTasks(pre) == [] && IncompleteTasks(post) == []
    ensures IncompleteTasks(pre + mid + post) == IncompleteTasks(mid)
  {
    IncompleteTasksAppend(pre + mid, post);
    IncompleteTasksAppend(pre, mid);
  }

  /** Two lines that are not tasks give no task. */
  lemma NoTasksIn(pair: seq<string>)
    requires |pair| == 2 && MatchIncompleteTask(pair[0]) == None && MatchIncompleteTask(pair[1]) == None
    ensures IncompleteTasks(pair) == []
  {
    IncompleteTasksSnoc([], pair[0]);
    IncompleteTasksSnoc([pair[0]], pair[1]);
    assert [] + [pair[0]] == [pair[0]] && [pair[0]] + [pair[1]] == pair;
  }

  /** A seeded note carries exactly the same incomplete tasks into the next day, unless they are ticked off. */
  lemma SeedCarriesForward(files: map<string, string>, notePath: string, today: Date)
    requires Valid(today)
    ensures var b := YesterdayBuckets(files, Dirname(notePath), today);
      IncompleteTasks(Split(TodaySeed(files, notePath, today))) == if b == [] then [] else b[0].tasks
  {
    var b := YesterdayBuckets(files, Dirname(notePath), today);
    if b != [] {
      var yesterday := PrevDay(today);
      FormatNoteDateParts(yesterday);
      NoNewlineInDate(yesterday);
      var lines := Split(files[PathJoin(Dirname(notePath), NoteFileName(yesterday))]);
      IncompleteTasksShape(lines);
      SeedRoundTrip(b[0].date, b[0].tasks);
    } else {
      assert Split("") == [""];
      assert IncompleteTasks([""]) == [] by { assert [""][..0] == []; }
    }
  }

  lemma NoNewlineInDate(d: Date)
    requires Valid(d)
    ensures '\n' !in FormatNoteDate(d)
  {
    var y := IntToString(d.year);
    var n := NatToString(if d.year < 0 then -d.year else d.year);
    assert forall i :: 0 <= i < |n| ==> IsDigit(n[i]);
    assert '\n' !in y by {
      if d.year < 0 { assert y == "-" + n; }
    }
    PadStart2TwoDigits(d.month);
    PadStart2TwoDigits(d.day);
    var m := PadStart2(d.month);
    var dd := PadStart2(d.day);
    assert '\n' !in m by { assert IsDigit(m[0]) && IsDigit(m[1]); }
    assert '\n' !in dd by { assert IsDigit(dd[0]) && IsDigit(dd[1]); }
    assert FormatNoteDate(d) == y + "-" + m + "-" + dd;
  }

  /** Extraction distributes over concatenated line lists. */
  lemma {:induction false} IncompleteTasksAppend(xs: seq<string>, ys: seq<string>)
    ensures IncompleteTasks(xs + ys) == IncompleteTasks(xs) + IncompleteTasks(ys)
    decreases |ys|
  {
    if ys != [] {
      IncompleteTasksAppend(xs, ys[..|ys| - 1]);
      assert (xs + ys)[..|xs + ys| - 1] == xs + ys[..|ys| - 1];
    } else {
      assert xs + ys == xs;
    }
  }
}
