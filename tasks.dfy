/**
 * Reading a note as a task list: the three line patterns (a check-in marker
 * line, a heading, a task item) and the left-to-right parse that labels each
 * task with its heading and, when a marker line came right before that
 * heading, the marker's time.
 */
module Tasks {
  import opened Options
  import opened Strings
  import opened Markers

  // --------------------------------------------------------- line patterns

  /** `^\[(\d{2}:\d{2})\]$`: the line is a single marker; the capture is `HH:MM`. */
  function MatchTimestampLine(line: string): (r: Option<string>)
    ensures r.Some? ==> |line| == MarkerLength && MarkerAt(line, 0) && r.value == line[1..6]
    ensures r.None? ==> !(|line| == MarkerLength && MarkerAt(line, 0))
  {
    if |line| == MarkerLength && MarkerAt(line, 0) then Some(line[1..6]) else None
  }

  /** The end of the run of `#` starting at `i`. */
  function SkipHashes(s: string, i: nat): (j: nat)
    requires i <= |s|
    ensures i <= j <= |s| && (j == |s| || s[j] != '#')
    ensures forall k :: i <= k < j ==> s[k] == '#'
    decreases |s| - i
  {
    if i < |s| && s[i] == '#' then SkipHashes(s, i + 1) else i
  }

  /**
   * `^#{1,6}\s+(.+)$` with the trimmed capture.  `\s+` cannot start at a `#`,
   * so `#{1,6}` must take the whole run of leading `#`, which must therefore
   * be one to six long.
   */
  function MatchHeading(line: string): Option<string> {
    var h := SkipHashes(line, 0);
    if 1 <= h <= 6 && RestMatches(line[h..], 1) then Some(Trim(line[h..])) else None
  }

  /** What a task line's pattern captures: the checkbox character and the trimmed text. */
  datatype TaskMatch = TaskMatch(checkbox: char, text: string)

  /** Where `^\s*-\s+\[[ x]\]` puts its `[`, if the line starts that way. */
  function TaskBox(line: string): (r: Option<nat>)
    ensures r.Some? ==>
      r.value + 3 <= |line| && line[r.value] == '[' &&
      (line[r.value + 1] == ' ' || line[r.value + 1] == 'x') && line[r.value + 2] == ']'
  {
    var a := SkipWhitespace(line, 0);
    if a < |line| && line[a] == '-' then
      var b := SkipWhitespace(line, a + 1);
      if a + 1 < b && b + 3 <= |line| && line[b] == '[' && (line[b + 1] == ' ' || line[b + 1] == 'x') && line[b + 2] == ']'
      then Some(b) else None
    else None
  }

  /** `^\s*-\s+\[([ x])\]\s+(.+)$`, giving the checkbox and the trimmed text. */
  function MatchTask(line: string): Option<TaskMatch> {
    match TaskBox(line)
    case Some(b) =>
      if RestMatches(line[b + 3..], 1) then Some(TaskMatch(line[b + 1], Trim(line[b + 3..]))) else None
    case None => None
  }

  /** A task line is neither a marker line nor a heading, so the parser's earlier checks never take it. */
  lemma TaskLineIsOnlyTask(line: string)
    ensures MatchTask(line).Some? ==> MatchTimestampLine(line) == None && MatchHeading(line) == None
  {
  }

  // ------------------------------------------------------------- the parse

  /** A task as the task list shows it. */
  datatype Task = Task(id: string, text: string, completed: bool, header: string)

  /** The parser's variables between lines. */
  datatype ParseState = ParseState(
    currentHeader: string, pendingTimestamp: string, headerTimestamp: string,
    taskId: nat, tasks: seq<Task>)

  const Start := ParseState("", "", "", 0, [])

  /** `task-${n}`. */
  function TaskId(n: nat): string {
    "task-" + NatToString(n)
  }

  /** Heading and time when both are known, the heading alone, or `General`. */
  function TaskHeader(currentHeader: string, headerTimestamp: string): string {
    if currentHeader != "" && headerTimestamp != "" then currentHeader + " [" + headerTimestamp + "]"
    else if currentHeader != "" then currentHeader
    else "General"
  }

  /** What the parse loop makes of one line; its three checks run in this order. */
  datatype LineKind = MarkerLine(time: string) | HeadingLine(title: string) | TaskLine(item: TaskMatch) | OtherLine

  /** The line's kind: a line counts as a task exactly when the task pattern matches it. */
  function Classify(line: string): (k: LineKind)
    ensures k.TaskLine? <==> MatchTask(line).Some?
    ensures k.TaskLine? ==> k.item == MatchTask(line).value
  {
    TaskLineIsOnlyTask(line);
    match MatchTimestampLine(line)
    case Some(ts) => MarkerLine(ts)
    case None =>
      match MatchHeading(line)
      case Some(h) => HeadingLine(h)
      case None =>
        match MatchTask(line)
        case Some(m) => TaskLine(m)
        case None => OtherLine
  }

  /** The task a task line adds in state `st`. */
  function NewTask(st: ParseState, m: TaskMatch): Task {
    Task(TaskId(st.taskId), m.text, m.checkbox == 'x', TaskHeader(st.currentHeader, st.headerTimestamp))
  }

  /** One pass of the loop of `parseTasksFromMarkdown`. */
  function Step(st: ParseState, kind: LineKind): ParseState {
    match kind
    case MarkerLine(ts) => st.(pendingTimestamp := ts, currentHeader := "", headerTimestamp := "")
    case HeadingLine(h) => st.(currentHeader := h, headerTimestamp := st.pendingTimestamp, pendingTimestamp := "")
    case TaskLine(m) => st.(tasks := st.tasks + [NewTask(st, m)], taskId := st.taskId + 1, pendingTimestamp := "")
    case OtherLine => st
  }

  function Kinds(lines: seq<string>): (r: seq<LineKind>)
    ensures |r| == |lines|
  {
    seq(|lines|, i requires 0 <= i < |lines| => Classify(lines[i]))
  }

  /** The parser's state after lines of these kinds. */
  function ParseKinds(kinds: seq<LineKind>): ParseState {
    if kinds == [] then Start else Step(ParseKinds(kinds[..|kinds| - 1]), kinds[|kinds| - 1])
  }

  /** `parseTasksFromMarkdown`. */
  function ParseTasks(content: string): seq<Task> {
    ParseKinds(Kinds(Split(content))).tasks
  }

  lemma KindsAppend(a: seq<string>, b: seq<string>)
    ensures Kinds(a + b) == Kinds(a) + Kinds(b)
  {
    forall i | 0 <= i < |a| + |b| ensures Kinds(a + b)[i] == (Kinds(a) + Kinds(b))[i] {
      if i < |a| {
        assert (a + b)[i] == a[i];
      } else {
        assert (a + b)[i] == b[i - |a|];
      }
    }
  }

  lemma KindsPrefix(lines: seq<string>, i: nat)
    requires i < |lines|
    ensures Kinds(lines[..i + 1]) == Kinds(lines[..i]) + [Classify(lines[i])]
  {
    assert lines[..i + 1] == lines[..i] + [lines[i]];
    KindsAppend(lines[..i], [lines[i]]);
  }

  lemma ParseKindsSnoc(init: seq<LineKind>, kind: LineKind)
    ensures ParseKinds(init + [kind]) == Step(ParseKinds(init), kind)
  {
    assert (init + [kind])[..|init|] == init;
  }

  // ---------------------------------------------------------- ids and count

  /** The task lines' captures, in order: the reference the parse is checked against. */
  function TaskMatches(lines: seq<string>): seq<TaskMatch> {
    if lines == [] then []
    else
      var init := TaskMatches(lines[..|lines| - 1]);
      match MatchTask(lines[|lines| - 1])
      case Some(m) => init + [m]
      case None => init
  }

  /** The items of the task lines among these kinds. */
  function KindItems(kinds: seq<LineKind>): seq<TaskMatch> {
    if kinds == [] then []
    else if kinds[|kinds| - 1].TaskLine? then KindItems(kinds[..|kinds| - 1]) + [kinds[|kinds| - 1].item]
    else KindItems(kinds[..|kinds| - 1])
  }

  lemma {:induction false} KindItemsAreTaskMatches(lines: seq<string>)
    ensures KindItems(Kinds(lines)) == TaskMatches(lines)
  {
    if lines != [] {
      var init := lines[..|lines| - 1];
      KindItemsAreTaskMatches(init);
      KindsPrefix(lines, |lines| - 1);
      assert lines[..|lines| - 1 + 1] == lines;
      KindItemsSnoc(Kinds(init), Classify(lines[|lines| - 1]));
    }
  }

  lemma KindItemsSnoc(kinds: seq<LineKind>, k: LineKind)
    ensures KindItems(kinds + [k]) == KindItems(kinds) + if k.TaskLine? then [k.item] else []
  {
    assert (kinds + [k])[..|kinds|] == kinds;
  }

  /** The counter and the task list grow together, and the k-th task of the list is `task-k`. */
  lemma {:induction false} ParseNumbersTasks(kinds: seq<LineKind>)
    ensures var st := ParseKinds(kinds);
      && st.taskId == |st.tasks| == |KindItems(kinds)|
      && forall k :: 0 <= k < |st.tasks| ==>
        && st.tasks[k].id == TaskId(k)
        && st.tasks[k].text == KindItems(kinds)[k].text
        && st.tasks[k].completed == (KindItems(kinds)[k].checkbox == 'x')
  {
    if kinds != [] {
      var init := kinds[..|kinds| - 1];
      ParseNumbersTasks(init);
    }
  }

  /**
   * The parse yields one task per task line, in order, with that line's text
   * and a completion flag that is set exactly when the box holds `x`; the
   * k-th task is `task-k`.
   */
  lemma ParseFollowsTaskLines(content: string)
    ensures var tasks := ParseTasks(content); var ms := TaskMatches(Split(content));
      && |tasks| == |ms|
      && forall k :: 0 <= k < |ms| ==>
        && tasks[k].id == TaskId(k)
        && tasks[k].text == ms[k].text
        && tasks[k].completed == (ms[k].checkbox == 'x')
  {
    ParseNumbersTasks(Kinds(Split(content)));
    KindItemsAreTaskMatches(Split(content));
  }

  /** Every task comes from a task line: the task that line adds in the state the parse had reached there. */
  lemma {:induction false} TaskSource(kinds: seq<LineKind>, k: nat) returns (l: nat)
    requires k < |ParseKinds(kinds).tasks|
    ensures l < |kinds| && kinds[l].TaskLine?
    ensures ParseKinds(kinds).tasks[k] == NewTask(ParseKinds(kinds[..l]), kinds[l].item)
  {
    var n := |kinds| - 1;
    var init := kinds[..n];
    var st := ParseKinds(init);
    if k < |st.tasks| {
      l := TaskSource(init, k);
      assert kinds[..l] == init[..l];
    } else {
      l := n;
    }
  }

  /** Task ids are pairwise different. */
  lemma TaskIdsDistinct(content: string, i: nat, j: nat)
    requires i < |ParseTasks(content)| && j < |ParseTasks(content)| && i != j
    ensures ParseTasks(content)[i].id != ParseTasks(content)[j].id
  {
    ParseNumbersTasks(Kinds(Split(content)));
    if TaskId(i) == TaskId(j) {
      assert TaskId(i)[5..] == NatToString(i);
      assert TaskId(j)[5..] == NatToString(j);
      NatToStringInjective(i, j);
    }
  }

  /** A shorter note's tasks are the first tasks of the longer note: a step only appends. */
  lemma {:induction false} TasksPrefix(kinds: seq<LineKind>, m: nat)
    requires m <= |kinds|
    ensures var pre := ParseKinds(kinds[..m]).tasks; var all := ParseKinds(kinds).tasks;
      |pre| <= |all| && all[..|pre|] == pre
  {
    if m == |kinds| {
      assert kinds[..m] == kinds;
    } else {
      var n := |kinds| - 1;
      TasksPrefix(kinds[..n], m);
      assert kinds[..n][..m] == kinds[..m];
    }
  }

  /** The task line at `l` adds the task numbered by the count of tasks before it. */
  lemma TaskOfLine(kinds: seq<LineKind>, l: nat)
    requires l < |kinds| && kinds[l].TaskLine?
    ensures var before := ParseKinds(kinds[..l]); var all := ParseKinds(kinds).tasks;
      |before.tasks| < |all| && all[|before.tasks|] == NewTask(before, kinds[l].item)
  {
    assert kinds[..l + 1] == kinds[..l] + [kinds[l]];
    ParseKindsSnoc(kinds[..l], kinds[l]);
    TasksPrefix(kinds, l + 1);
  }

  /** The tasks counted before line `l` come from task lines before it. */
  lemma EarlierTaskSource(kinds: seq<LineKind>, l: nat, j: nat) returns (src: nat)
    requires l <= |kinds| && j < |ParseKinds(kinds[..l]).tasks|
    ensures src < l && kinds[src].TaskLine? && j < |ParseKinds(kinds).tasks|
    ensures ParseKinds(kinds).tasks[j] == NewTask(ParseKinds(kinds[..src]), kinds[src].item)
  {
    src := TaskSource(kinds[..l], j);
    assert kinds[..l][..src] == kinds[..src];
    TasksPrefix(kinds, l);
  }

  /** The task list with the completion flag of task `j` flipped, and nothing else changed. */
  function FlipCompleted(tasks: seq<Task>, j: nat): (r: seq<Task>)
    requires j < |tasks|
    ensures |r| == |tasks| && r[j].completed != tasks[j].completed
    ensures r[j] == tasks[j].(completed := r[j].completed)
    ensures forall i :: 0 <= i < |tasks| && i != j ==> r[i] == tasks[i]
  {
    tasks[j := tasks[j].(completed := !tasks[j].completed)]
  }

  /** Two notes' kinds that differ only in the checkbox state of the task line at `l`. */
  predicate CheckboxChangedAt(a: seq<LineKind>, b: seq<LineKind>, l: nat) {
    && |a| == |b| && l < |a| && a[l].TaskLine? && b[l].TaskLine?
    && b[l].item.text == a[l].item.text
    && (b[l].item.checkbox == 'x') != (a[l].item.checkbox == 'x')
    && forall i :: 0 <= i < |a| && i != l ==> a[i] == b[i]
  }

  /** One more step keeps a flag flipped at an earlier task. */
  lemma StepKeepsFlip(st: ParseState, t: nat, kind: LineKind)
    requires t < |st.tasks|
    ensures Step(st.(tasks := FlipCompleted(st.tasks, t)), kind) == Step(st, kind).(tasks := FlipCompleted(Step(st, kind).tasks, t))
  {
    if kind.TaskLine? {
      var nt := NewTask(st, kind.item);
      assert FlipCompleted(st.tasks, t) + [nt] == FlipCompleted(st.tasks + [nt], t);
    }
  }

  /**
   * Changing the checkbox of one task line changes only the completion flag
   * of the task that line adds: the parse after the first `n` lines is the
   * same, with that one flag flipped.
   */
  lemma {:induction false} ParseAfterCheckboxChange(a: seq<LineKind>, b: seq<LineKind>, l: nat, n: nat)
    requires CheckboxChangedAt(a, b, l) && l < n <= |a|
    ensures var t := |ParseKinds(a[..l]).tasks|; var sa := ParseKinds(a[..n]);
      t < |sa.tasks| && ParseKinds(b[..n]) == sa.(tasks := FlipCompleted(sa.tasks, t))
    decreases n
  {
    if n == l + 1 {
      CheckboxChangedLine(a, b, l);
    } else {
      ParsePrefixStep(a, n);
      ParsePrefixStep(b, n);
      ParseAfterCheckboxChange(a, b, l, n - 1);
      StepKeepsFlip(ParseKinds(a[..n - 1]), |ParseKinds(a[..l]).tasks|, a[n - 1]);
    }
  }

  /** At the changed line itself: the task it adds differs in its flag alone. */
  lemma CheckboxChangedLine(a: seq<LineKind>, b: seq<LineKind>, l: nat)
    requires CheckboxChangedAt(a, b, l)
    ensures var t := |ParseKinds(a[..l]).tasks|; var sa := ParseKinds(a[..l + 1]);
      t < |sa.tasks| && ParseKinds(b[..l + 1]) == sa.(tasks := FlipCompleted(sa.tasks, t))
  {
    ParsePrefixStep(a, l + 1);
    ParsePrefixStep(b, l + 1);
    assert a[..l] == b[..l];
    var st := ParseKinds(a[..l]);
    assert FlipCompleted(st.tasks + [NewTask(st, a[l].item)], |st.tasks|) == st.tasks + [NewTask(st, b[l].item)];
  }

  /** The parse of the first `n` kinds is one step past the parse of the first `n - 1`. */
  lemma ParsePrefixStep(kinds: seq<LineKind>, n: nat)
    requires 0 < n <= |kinds|
    ensures ParseKinds(kinds[..n]) == Step(ParseKinds(kinds[..n - 1]), kinds[n - 1])
  {
    assert kinds[..n][..n - 1] == kinds[..n - 1];
  }

  // --------------------------------------------------------------- headers

  /** Only task lines and other lines: no heading, no marker line. */
  predicate Plain(kinds: seq<LineKind>) {
    forall i :: 0 <= i < |kinds| ==> kinds[i].TaskLine? || kinds[i].OtherLine?
  }

  /** No heading line and no marker line among these. */
  predicate NoHeadingOrMarker(lines: seq<string>) {
    forall i :: 0 <= i < |lines| ==> MatchHeading(lines[i]) == None && MatchTimestampLine(lines[i]) == None
  }

  lemma PlainKinds(lines: seq<string>)
    requires NoHeadingOrMarker(lines)
    ensures Plain(Kinds(lines))
  {
  }

  /** One more line of the note moves the parse by one step. */
  lemma ParseKindsStep(lines: seq<string>, i: nat)
    requires i < |lines|
    ensures ParseKinds(Kinds(lines)[..i + 1]) == Step(ParseKinds(Kinds(lines)[..i]), Classify(lines[i]))
  {
    var kinds := Kinds(lines);
    assert kinds[..i + 1] == kinds[..i] + [kinds[i]];
    ParseKindsSnoc(kinds[..i], kinds[i]);
  }

  /** Each branch of the loop body is one step of the parse. */
  lemma StepMarker(st: ParseState, line: string)
    requires MatchTimestampLine(line).Some?
    ensures Step(st, Classify(line)) == st.(pendingTimestamp := MatchTimestampLine(line).value, currentHeader := "", headerTimestamp := "")
  {
    ClassifyMarker(line);
  }

  lemma StepHeading(st: ParseState, line: string)
    requires MatchTimestampLine(line).None? && MatchHeading(line).Some?
    ensures Step(st, Classify(line)) == st.(currentHeader := MatchHeading(line).value, headerTimestamp := st.pendingTimestamp, pendingTimestamp := "")
  {
    ClassifyHeading(line);
  }

  lemma StepTask(st: ParseState, line: string)
    requires MatchTimestampLine(line).None? && MatchHeading(line).None? && MatchTask(line).Some?
    ensures Step(st, Classify(line)) == st.(tasks := st.tasks + [NewTask(st, MatchTask(line).value)], taskId := st.taskId + 1, pendingTimestamp := "")
  {
    ClassifyRest(line);
  }

  lemma StepOther(st: ParseState, line: string)
    requires MatchTimestampLine(line).None? && MatchHeading(line).None? && MatchTask(line).None?
    ensures Step(st, Classify(line)) == st
  {
    ClassifyRest(line);
  }

  /** A line that is neither a marker line nor a heading is a task line exactly when the task pattern matches. */
  lemma ClassifyRest(line: string)
    requires MatchTimestampLine(line) == None && MatchHeading(line) == None
    ensures Classify(line) == match MatchTask(line) case Some(m) => TaskLine(m) case None => OtherLine
  {
  }

  lemma ClassifyMarker(line: string)
    requires MatchTimestampLine(line).Some?
    ensures Classify(line) == MarkerLine(MatchTimestampLine(line).value)
  {
  }

  lemma ClassifyHeading(line: string)
    requires MatchHeading(line).Some?
    ensures Classify(line) == HeadingLine(MatchHeading(line).value)
  {
    assert line[0] == '#' by {
      assert SkipHashes(line, 0) >= 1;
    }
    assert MatchTimestampLine(line) == None;
  }

  /** Lines without a heading or marker keep the header in force and add tasks labelled with it. */
  lemma {:induction false} HeaderPersists(pre: seq<LineKind>, post: seq<LineKind>)
    requires Plain(post)
    ensures var before := ParseKinds(pre); var after := ParseKinds(pre + post);
      && after.currentHeader == before.currentHeader
      && after.headerTimestamp == before.headerTimestamp
      && |before.tasks| <= |after.tasks|
      && after.tasks[..|before.tasks|] == before.tasks
      && forall k :: |before.tasks| <= k < |after.tasks| ==>
        after.tasks[k].header == TaskHeader(before.currentHeader, before.headerTimestamp)
    decreases |post|
  {
    if post == [] {
      assert pre + post == pre;
    } else {
      var init, kind := post[..|post| - 1], post[|post| - 1];
      assert Plain(init) by {
        assert forall i :: 0 <= i < |init| ==> init[i] == post[i];
      }
      HeaderPersists(pre, init);
      assert pre + post == (pre + init) + [kind];
      ParseKindsSnoc(pre + init, kind);
    }
  }

  /**
   * A heading with no marker line pending before it labels the tasks under it
   * (up to the next heading or marker line) with its trimmed text alone.
   */
  lemma HeadingLabelsTasks(pre: seq<string>, heading: string, post: seq<string>)
    requires MatchHeading(heading).Some? && MatchHeading(heading).value != ""
    requires ParseKinds(Kinds(pre)).pendingTimestamp == ""
    requires NoHeadingOrMarker(post)
    ensures var first := |ParseKinds(Kinds(pre + [heading])).tasks|;
      var all := ParseKinds(Kinds(pre + [heading] + post)).tasks;
      forall k :: first <= k < |all| ==> all[k].header == MatchHeading(heading).value
  {
    KindsAppend(pre, [heading]);
    KindsAppend(pre + [heading], post);
    ClassifyHeading(heading);
    ParseKindsSnoc(Kinds(pre), Classify(heading));
    PlainKinds(post);
    HeaderPersists(Kinds(pre + [heading]), Kinds(post));
  }

  /** After a marker line, tasks up to the next heading or marker line are filed under `General`. */
  lemma MarkerLineResetsHeader(pre: seq<string>, marker: string, post: seq<string>)
    requires MatchTimestampLine(marker).Some?
    requires NoHeadingOrMarker(post)
    ensures var first := |ParseKinds(Kinds(pre + [marker])).tasks|;
      var all := ParseKinds(Kinds(pre + [marker] + post)).tasks;
      forall k :: first <= k < |all| ==> all[k].header == "General"
  {
    var kPre := Kinds(pre + [marker]);
    KindsAppend(pre, [marker]);
    KindsAppend(pre + [marker], post);
    ClassifyMarker(marker);
    ParseKindsSnoc(Kinds(pre), Classify(marker));
    PlainKinds(post);
    HeaderPersists(kPre, Kinds(post));
  }

  /**
   * A marker line directly followed by a heading labels the tasks under that
   * heading (up to the next heading or marker line) `heading [HH:MM]`.
   */
  lemma MarkedHeadingLabelsTasks(pre: seq<string>, marker: string, heading: string, post: seq<string>)
    requires MatchTimestampLine(marker).Some? && MatchHeading(heading).Some?
    requires MatchHeading(heading).value != ""
    requires NoHeadingOrMarker(post)
    ensures var tag := MatchHeading(heading).value + " [" + MatchTimestampLine(marker).value + "]";
      var first := |ParseKinds(Kinds(pre + [marker, heading])).tasks|;
      var all := ParseKinds(Kinds(pre + [marker, heading] + post)).tasks;
      forall k :: first <= k < |all| ==> all[k].header == tag
  {
    ClassifyMarker(marker);
    ClassifyHeading(heading);
    assert pre + [marker, heading] == (pre + [marker]) + [heading];
    KindsAppend(pre, [marker]);
    KindsAppend(pre + [marker], [heading]);
    KindsAppend(pre + [marker, heading], post);
    ParseKindsSnoc(Kinds(pre), Classify(marker));
    ParseKindsSnoc(Kinds(pre + [marker]), Classify(heading));
    PlainKinds(post);
    HeaderPersists(Kinds(pre + [marker, heading]), Kinds(post));
  }
}
