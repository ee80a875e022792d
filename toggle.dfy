/**
 * Toggling a task in its note: the note is scanned again, and the first task
 * line whose trimmed text and heading equal the task's has its first `[ ]` or
 * `[x]` flipped.  The scan is written against a per-line header sequence, so
 * that the same search serves the toggle as the program performs it (the
 * header is the last heading seen, nothing else) and the corrected toggle
 * (the header the parser gave the task).
 */
module Toggle {
  import opened Options
  import opened Strings
  import opened Tasks
  import Markers

  // ------------------------------------------------------ flipping one line

  /** `/\[[ x]\]/` matches at `k`. */
  predicate BoxAt(line: string, k: nat) {
    k + 3 <= |line| && line[k] == '[' && (line[k + 1] == ' ' || line[k + 1] == 'x') && line[k + 2] == ']'
  }

  /** The first match of `/\[[ x]\]/` at or after `from`. */
  function FirstBox(line: string, from: nat): (r: Option<nat>)
    ensures r.Some? ==> from <= r.value && BoxAt(line, r.value)
    decreases |line| - from
  {
    if from + 3 > |line| then None
    else if BoxAt(line, from) then Some(from)
    else FirstBox(line, from + 1)
  }

  /** `line.replace(/\[[ x]\]/, "[c]")`: only the first box changes. */
  function ReplaceFirstBox(line: string, c: char): string {
    match FirstBox(line, 0)
    case Some(k) => line[k + 1 := c]
    case None => line
  }

  /** The toggled checkbox character. */
  function Flipped(c: char): char {
    if c == 'x' then ' ' else 'x'
  }

  /** The line with its task's checkbox flipped. */
  function Flip(line: string): string
    requires MatchTask(line).Some?
  {
    ReplaceFirstBox(line, Flipped(MatchTask(line).value.checkbox))
  }

  lemma {:induction false} FirstBoxAfterNoBracket(line: string, from: nat, b: nat)
    requires from <= b && BoxAt(line, b)
    requires forall j :: from <= j < b ==> line[j] != '['
    ensures FirstBox(line, from) == Some(b)
    decreases b - from
  {
    if from < b {
      FirstBoxAfterNoBracket(line, from + 1, b);
    }
  }

  /** Nothing before a task's checkbox looks like a box, so `replace` hits the checkbox itself. */
  lemma FirstBoxIsCheckbox(line: string)
    requires MatchTask(line).Some?
    ensures FirstBox(line, 0) == TaskBox(line)
  {
    var a := SkipWhitespace(line, 0);
    var b := SkipWhitespace(line, a + 1);
    assert TaskBox(line) == Some(b);
    forall j | 0 <= j < b ensures line[j] != '[' {
      if j < a {
        assert line[0..a][j] == line[j];
      } else if a < j {
        assert line[a + 1..b][j - a - 1] == line[j];
      }
    }
    FirstBoxAfterNoBracket(line, 0, b);
  }

  /** Writing ` ` or `x` into a task line's checkbox keeps it a task line with the same box and text. */
  lemma CheckboxWriteMatches(line: string, c: char)
    requires MatchTask(line).Some? && (c == ' ' || c == 'x')
    ensures var other := line[TaskBox(line).value + 1 := c];
      TaskBox(other) == TaskBox(line) && MatchTask(other) == Some(TaskMatch(c, MatchTask(line).value.text))
  {
    var a := SkipWhitespace(line, 0);
    var b := SkipWhitespace(line, a + 1);
    assert TaskBox(line) == Some(b);
    var other := line[b + 1 := c];
    assert other[0..a] == line[0..a] && other[a + 1..b] == line[a + 1..b];
    SkipWhitespaceExact(other, 0, a);
    SkipWhitespaceExact(other, a + 1, b);
    assert TaskBox(other) == Some(b);
    assert other[b + 3..] == line[b + 3..];
  }

  /** Flipping writes the other checkbox state into the checkbox and changes nothing else. */
  lemma FlipIsCheckboxWrite(line: string)
    requires MatchTask(line).Some?
    ensures Flip(line) == line[TaskBox(line).value + 1 := Flipped(MatchTask(line).value.checkbox)]
  {
    FirstBoxIsCheckbox(line);
  }

  /** Flipping keeps the line a task line with the same text and the other checkbox state, and adds no newline. */
  lemma FlipMatches(line: string)
    requires MatchTask(line).Some?
    ensures MatchTask(Flip(line)) == Some(TaskMatch(Flipped(MatchTask(line).value.checkbox), MatchTask(line).value.text))
    ensures TaskBox(Flip(line)) == TaskBox(line)
    ensures '\n' !in line ==> '\n' !in Flip(line)
  {
    FlipIsCheckboxWrite(line);
    CheckboxWriteMatches(line, Flipped(MatchTask(line).value.checkbox));
  }

  /** Writing a checkbox character into a box leaves the first box where it was. */
  lemma {:induction false} FirstBoxAfterWrite(line: string, from: nat, k: nat, c: char)
    requires from <= k && FirstBox(line, from) == Some(k) && (c == ' ' || c == 'x')
    ensures FirstBox(line[k + 1 := c], from) == Some(k)
    decreases k - from
  {
    var w := line[k + 1 := c];
    if from < k {
      assert !BoxAt(w, from) by {
        assert line[from] == w[from];
        if from + 1 < k {
          assert line[from + 1] == w[from + 1] && line[from + 2] == w[from + 2];
        }
      }
      FirstBoxAfterWrite(line, from + 1, k, c);
    }
  }

  /** The captured checkbox is the character inside the task's box. */
  lemma CheckboxInBox(line: string)
    requires MatchTask(line).Some?
    ensures TaskBox(line).Some? && MatchTask(line).value.checkbox == line[TaskBox(line).value + 1]
  {
  }

  /** Flipping twice gives the line back. */
  lemma FlipInvolution(line: string)
    requires MatchTask(line).Some?
    ensures MatchTask(Flip(line)).Some? && Flip(Flip(line)) == line
  {
    var c := MatchTask(line).value.checkbox;
    FlipCheckbox(line);
    FirstBoxIsCheckbox(line);
    CheckboxInBox(line);
    ReplaceFirstBoxTwice(line, Flipped(c), c);
  }

  /** The flipped line's checkbox is the flipped checkbox. */
  lemma FlipCheckbox(line: string)
    requires MatchTask(line).Some?
    ensures MatchTask(Flip(line)).Some?
    ensures Flip(Flip(line)) == ReplaceFirstBox(Flip(line), MatchTask(line).value.checkbox)
  {
    FlipMatches(line);
  }

  /** Writing a checkbox state into the first box and then writing back the old one restores the line. */
  lemma ReplaceFirstBoxTwice(line: string, c: char, d: char)
    requires FirstBox(line, 0).Some? && (c == ' ' || c == 'x') && d == line[FirstBox(line, 0).value + 1]
    ensures ReplaceFirstBox(ReplaceFirstBox(line, c), d) == line
  {
    var k := FirstBox(line, 0).value;
    FirstBoxAfterWrite(line, 0, k, c);
    assert line[k + 1 := c][k + 1 := d] == line;
  }

  // ---------------------------------------------------- finding the target

  /** What the task pattern makes of each line. */
  function Items(lines: seq<string>): (r: seq<Option<TaskMatch>>)
    ensures |r| == |lines|
  {
    seq(|lines|, i requires 0 <= i < |lines| => MatchTask(lines[i]))
  }

  /** Line `i` is a task line with the task's text, and the header in force there is the task's. */
  predicate IsTarget(items: seq<Option<TaskMatch>>, headers: seq<string>, i: nat, task: Task)
    requires |headers| == |items| && i < |items|
  {
    items[i].Some? && items[i].value.text == task.text && headers[i] == task.header
  }

  /** The first target line at or after `from`. */
  function FirstTarget(items: seq<Option<TaskMatch>>, headers: seq<string>, task: Task, from: nat): (r: Option<nat>)
    requires |headers| == |items| && from <= |items|
    ensures r.Some? ==> from <= r.value < |items| && IsTarget(items, headers, r.value, task)
    ensures r.Some? ==> forall j :: from <= j < r.value ==> !IsTarget(items, headers, j, task)
    ensures r.None? ==> forall j :: from <= j < |items| ==> !IsTarget(items, headers, j, task)
    decreases |items| - from
  {
    if from == |items| then None
    else if IsTarget(items, headers, from, task) then Some(from)
    else FirstTarget(items, headers, task, from + 1)
  }

  /** No target among the first `i` lines (stated step by step, as a scan establishes it). */
  predicate NoTargetBefore(items: seq<Option<TaskMatch>>, headers: seq<string>, task: Task, i: nat)
    requires |headers| == |items| && i <= |items|
  {
    i == 0 || (NoTargetBefore(items, headers, task, i - 1) && !IsTarget(items, headers, i - 1, task))
  }

  lemma {:induction false} NoTargetBeforeMeans(items: seq<Option<TaskMatch>>, headers: seq<string>, task: Task, i: nat)
    requires |headers| == |items| && i <= |items|
    ensures NoTargetBefore(items, headers, task, i) <==> forall j :: 0 <= j < i ==> !IsTarget(items, headers, j, task)
  {
    if i > 0 {
      NoTargetBeforeMeans(items, headers, task, i - 1);
    }
  }

  /** A line that is not a task line, or whose text or header differs from the task's, extends a scan without targets. */
  lemma NoTargetStep(items: seq<Option<TaskMatch>>, headers: seq<string>, task: Task, i: nat, m: Option<TaskMatch>, h: string)
    requires |headers| == |items| && i < |items| && NoTargetBefore(items, headers, task, i)
    requires items[i] == m && headers[i] == h
    requires m.None? || m.value.text != task.text || h != task.header
    ensures NoTargetBefore(items, headers, task, i + 1)
  {
  }

  /** A target with no target before it is the first one. */
  lemma {:induction false} FirstTargetIs(items: seq<Option<TaskMatch>>, headers: seq<string>, task: Task, from: nat, i: nat)
    requires |headers| == |items| && from <= i < |items| && IsTarget(items, headers, i, task)
    requires forall j :: from <= j < i ==> !IsTarget(items, headers, j, task)
    ensures FirstTarget(items, headers, task, from) == Some(i)
    decreases i - from
  {
    if from < i {
      FirstTargetIs(items, headers, task, from + 1, i);
    }
  }

  /** Changing the first target's checkbox leaves it the first target. */
  lemma TargetSurvivesCheckbox(items: seq<Option<TaskMatch>>, headers: seq<string>, task: Task, i: nat, c: char)
    requires |headers| == |items| && FirstTarget(items, headers, task, 0) == Some(i)
    ensures FirstTarget(items[i := Some(TaskMatch(c, items[i].value.text))], headers, task, 0) == Some(i)
  {
    var items2 := items[i := Some(TaskMatch(c, items[i].value.text))];
    forall j | 0 <= j < i
      ensures !IsTarget(items2, headers, j, task)
    {
      assert items2[j] == items[j];
      assert !IsTarget(items, headers, j, task);
    }
    FirstTargetIs(items2, headers, task, 0, i);
  }

  /** The lines after the toggle: the first target flipped, everything else as it was. */
  function ToggleLines(lines: seq<string>, headers: seq<string>, task: Task): (r: seq<string>)
    requires |headers| == |lines|
    ensures |r| == |lines|
  {
    match FirstTarget(Items(lines), headers, task, 0)
    case Some(i) => lines[i := Flip(lines[i])]
    case None => lines
  }

  lemma ToggleLinesAt(lines: seq<string>, headers: seq<string>, task: Task, i: nat)
    requires |headers| == |lines| && FirstTarget(Items(lines), headers, task, 0) == Some(i)
    ensures ToggleLines(lines, headers, task) == lines[i := Flip(lines[i])]
  {
  }

  /** A left-to-right scan that stops at line `i`, the first target, toggles exactly what `ToggleLines` toggles. */
  lemma ScanStopsAt(lines: seq<string>, headers: seq<string>, task: Task, i: nat)
    requires |headers| == |lines| && i < |lines|
    requires NoTargetBefore(Items(lines), headers, task, i) && IsTarget(Items(lines), headers, i, task)
    ensures ToggleLines(lines, headers, task) == lines[i := Flip(lines[i])]
  {
    NoTargetBeforeMeans(Items(lines), headers, task, i);
    FirstTargetIs(Items(lines), headers, task, 0, i);
  }

  /** A scan that finds no target leaves the lines as they are. */
  lemma ScanFindsNothing(lines: seq<string>, headers: seq<string>, task: Task)
    requires |headers| == |lines| && NoTargetBefore(Items(lines), headers, task, |lines|)
    ensures ToggleLines(lines, headers, task) == lines
  {
    NoTargetBeforeMeans(Items(lines), headers, task, |lines|);
  }

  /** Flipping a task line changes only that line's item, to the other checkbox state. */
  lemma ItemsAfterFlip(lines: seq<string>, i: nat)
    requires i < |lines| && MatchTask(lines[i]).Some?
    ensures var m := MatchTask(lines[i]).value;
      Items(lines[i := Flip(lines[i])]) == Items(lines)[i := Some(TaskMatch(Flipped(m.checkbox), m.text))]
  {
    FlipMatches(lines[i]);
  }

  /** Toggling twice with the same headers restores the lines. */
  lemma ToggleLinesTwice(lines: seq<string>, headers: seq<string>, task: Task)
    requires |headers| == |lines|
    ensures ToggleLines(ToggleLines(lines, headers, task), headers, task) == lines
  {
    match FirstTarget(Items(lines), headers, task, 0)
    case None =>
    case Some(i) =>
      var line := lines[i];
      var f := Flip(line);
      var t := lines[i := f];
      ItemsAfterFlip(lines, i);
      FlipInvolution(line);
      var m := MatchTask(line).value;
      TargetSurvivesCheckbox(Items(lines), headers, task, i, Flipped(m.checkbox));
      ToggleLinesAt(lines, headers, task, i);
      ToggleLinesAt(t, headers, task, i);
      assert t[i] == f;
      assert t[i := line] == lines;
  }

  // --------------------------------------------------------------- headers

  /** What the heading pattern makes of each line. */
  function Headings(lines: seq<string>): (r: seq<Option<string>>)
    ensures |r| == |lines|
  {
    seq(|lines|, i requires 0 <= i < |lines| => MatchHeading(lines[i]))
  }

  /** The toggle loop's `currentHeader` after lines with these heading matches: the last heading's text, or "". */
  function CurrentHeader(hs: seq<Option<string>>): string {
    if hs == [] then ""
    else if hs[|hs| - 1].Some? then hs[|hs| - 1].value
    else CurrentHeader(hs[..|hs| - 1])
  }

  /** The header in force at each line, given the lines' heading matches. */
  function HeaderSeq(hs: seq<Option<string>>): (r: seq<string>)
    ensures |r| == |hs|
  {
    seq(|hs|, i requires 0 <= i < |hs| => CurrentHeader(hs[..i + 1]))
  }

  /** How the scan's `currentHeader` moves from one line to the next, and that it is the header in force on that line. */
  lemma CurrentHeaderStep(hs: seq<Option<string>>, i: nat)
    requires i < |hs|
    ensures CurrentHeader(hs[..i + 1]) == if hs[i].Some? then hs[i].value else CurrentHeader(hs[..i])
    ensures HeaderSeq(hs)[i] == CurrentHeader(hs[..i + 1])
  {
    var pre := hs[..i + 1];
    assert pre[|pre| - 1] == hs[i] && pre[..|pre| - 1] == hs[..i];
  }

  /** The header the toggle compares at each line; the heading check runs first, on the same line. */
  function ScanHeaders(lines: seq<string>): (r: seq<string>)
    ensures |r| == |lines|
  {
    HeaderSeq(Headings(lines))
  }

  /** The header the toggle's scan carries into line `i`: the one in force on the line before, or "" at the start. */
  function HeaderBefore(hs: seq<Option<string>>, i: nat): string
    requires i <= |hs|
  {
    if i == 0 then "" else HeaderSeq(hs)[i - 1]
  }

  /**
   * One line of the toggle's scan: the heading check moves the tracked header
   * to the header in force on the line, and a line that is not a target
   * extends the stretch without targets.
   */
  lemma ScanLine(items: seq<Option<TaskMatch>>, hs: seq<Option<string>>, task: Task, i: nat)
    requires |items| == |hs| && i < |hs| && NoTargetBefore(items, HeaderSeq(hs), task, i)
    ensures var next := if hs[i].Some? then hs[i].value else HeaderBefore(hs, i);
      && next == HeaderSeq(hs)[i]
      && (IsTarget(items, HeaderSeq(hs), i, task) <==>
          items[i].Some? && items[i].value.text == task.text && next == task.header)
      && (!IsTarget(items, HeaderSeq(hs), i, task) ==> NoTargetBefore(items, HeaderSeq(hs), task, i + 1))
  {
    CurrentHeaderStep(hs, i);
    if i > 0 {
      CurrentHeaderStep(hs, i - 1);
    } else {
      assert hs[..i] == [];
    }
  }

  /** The header a task gets in parse state `st`. */
  function StateHeader(st: ParseState): string {
    TaskHeader(st.currentHeader, st.headerTimestamp)
  }

  /** The header the parser gives a task on each line. */
  function KindHeaders(kinds: seq<LineKind>): (r: seq<string>)
    ensures |r| == |kinds|
  {
    seq(|kinds|, i requires 0 <= i < |kinds| => StateHeader(ParseKinds(kinds[..i])))
  }

  function ParsedHeaders(lines: seq<string>): (r: seq<string>)
    ensures |r| == |lines|
  {
    KindHeaders(Kinds(lines))
  }

  /** `toggleTaskInFile`'s new text, as the program computes it. */
  function ToggledContent(content: string, task: Task): string {
    var lines := Split(content);
    Join(ToggleLines(lines, ScanHeaders(lines), task))
  }

  /** The corrected toggle: the target's header is computed as the parser computes it. */
  function FixedToggledContent(content: string, task: Task): string {
    var lines := Split(content);
    Join(ToggleLines(lines, ParsedHeaders(lines), task))
  }

  // ------------------------------------------------- headers after a flip

  /** A flipped task line is still no heading, so the toggle's headers do not move. */
  lemma ScanHeadersAfterFlip(lines: seq<string>, i: nat)
    requires i < |lines| && MatchTask(lines[i]).Some?
    ensures ScanHeaders(lines[i := Flip(lines[i])]) == ScanHeaders(lines)
  {
    var t := lines[i := Flip(lines[i])];
    FlipMatches(lines[i]);
    TaskLineIsOnlyTask(lines[i]);
    TaskLineIsOnlyTask(t[i]);
    assert Headings(t) == Headings(lines);
  }

  /** Two kinds play the same part for the headers: equal, or both task lines. */
  predicate SameRole(a: LineKind, b: LineKind) {
    a == b || (a.TaskLine? && b.TaskLine?)
  }

  /** The parser's header variables after lines of the same roles agree. */
  lemma {:induction false} SameRolesSameHeaders(a: seq<LineKind>, b: seq<LineKind>)
    requires |a| == |b| && forall j :: 0 <= j < |a| ==> SameRole(a[j], b[j])
    ensures ParseKinds(a).currentHeader == ParseKinds(b).currentHeader
    ensures ParseKinds(a).pendingTimestamp == ParseKinds(b).pendingTimestamp
    ensures ParseKinds(a).headerTimestamp == ParseKinds(b).headerTimestamp
  {
    if a != [] {
      var n := |a| - 1;
      SameRolesSameHeaders(a[..n], b[..n]);
      assert SameRole(a[n], b[n]);
    }
  }

  lemma KindHeadersSameRoles(a: seq<LineKind>, b: seq<LineKind>)
    requires |a| == |b| && forall j :: 0 <= j < |a| ==> SameRole(a[j], b[j])
    ensures KindHeaders(a) == KindHeaders(b)
  {
    forall i | 0 <= i < |a|
      ensures KindHeaders(a)[i] == KindHeaders(b)[i]
    {
      SameRolesSameHeaders(a[..i], b[..i]);
    }
  }

  /** A flipped task line is still a task line, so the parser's headers do not move. */
  lemma ParsedHeadersAfterFlip(lines: seq<string>, i: nat)
    requires i < |lines| && MatchTask(lines[i]).Some?
    ensures ParsedHeaders(lines[i := Flip(lines[i])]) == ParsedHeaders(lines)
  {
    var t := lines[i := Flip(lines[i])];
    FlipMatches(lines[i]);
    var a, b := Kinds(t), Kinds(lines);
    forall j | 0 <= j < |a|
      ensures SameRole(a[j], b[j])
    {
      if j != i {
        assert t[j] == lines[j];
      }
    }
    KindHeadersSameRoles(a, b);
  }

  // -------------------------------------------------- the toggle on a note

  /** Splitting the toggled text gives the lines with the first target flipped, and nothing else changed. */
  lemma ToggleLinesRoundTrip(lines: seq<string>, headers: seq<string>, task: Task)
    requires |headers| == |lines| && |lines| >= 1
    requires forall j :: 0 <= j < |lines| ==> '\n' !in lines[j]
    ensures Split(Join(ToggleLines(lines, headers, task))) == ToggleLines(lines, headers, task)
  {
    var r := ToggleLines(lines, headers, task);
    var target := FirstTarget(Items(lines), headers, task, 0);
    if target.Some? {
      FlipMatches(lines[target.value]);
      assert forall j :: 0 <= j < |r| ==> '\n' !in r[j];
    }
    SplitJoin(r);
  }

  /**
   * The file after the toggle: when some task line has the task's text under
   * the task's header, the first such line is flipped and every other line is
   * kept; otherwise the text is written back unchanged.
   */
  lemma ToggledContentLines(content: string, task: Task)
    ensures var lines := Split(content);
      match FirstTarget(Items(lines), ScanHeaders(lines), task, 0)
      case Some(i) =>
        && Split(ToggledContent(content, task)) == lines[i := Flip(lines[i])]
        && MatchTask(lines[i]).Some?
        && MatchTask(Flip(lines[i])) == Some(TaskMatch(Flipped(MatchTask(lines[i]).value.checkbox), task.text))
      case None => ToggledContent(content, task) == content
  {
    var lines := Split(content);
    SplitNoNewline(content);
    ToggleLinesRoundTrip(lines, ScanHeaders(lines), task);
    JoinSplit(content);
    match FirstTarget(Items(lines), ScanHeaders(lines), task, 0)
    case None =>
    case Some(i) =>
      ToggleLinesAt(lines, ScanHeaders(lines), task, i);
      FlipMatches(lines[i]);
  }

  /** Toggling the same task twice restores the note. */
  lemma ToggleTwiceRestores(content: string, task: Task)
    ensures ToggledContent(ToggledContent(content, task), task) == content
  {
    var lines := Split(content);
    var headers := ScanHeaders(lines);
    var t := ToggleLines(lines, headers, task);
    SplitNoNewline(content);
    ToggleLinesRoundTrip(lines, headers, task);
    var target := FirstTarget(Items(lines), headers, task, 0);
    if target.Some? {
      ToggleLinesAt(lines, headers, task, target.value);
      ScanHeadersAfterFlip(lines, target.value);
    }
    ToggleLinesTwice(lines, headers, task);
    JoinSplit(content);
  }

  /** The corrected toggle, applied twice, also restores the note. */
  lemma FixedToggleTwiceRestores(content: string, task: Task)
    ensures FixedToggledContent(FixedToggledContent(content, task), task) == content
  {
    var lines := Split(content);
    var headers := ParsedHeaders(lines);
    var t := ToggleLines(lines, headers, task);
    SplitNoNewline(content);
    ToggleLinesRoundTrip(lines, headers, task);
    var target := FirstTarget(Items(lines), headers, task, 0);
    if target.Some? {
      ToggleLinesAt(lines, headers, task, target.value);
      ParsedHeadersAfterFlip(lines, target.value);
    }
    ToggleLinesTwice(lines, headers, task);
    JoinSplit(content);
  }

  // ---------------------------------------------- what the toggle can find

  /** The toggle's header is either "" or the text of some heading line. */
  lemma {:induction false} CurrentHeaderIsHeading(hs: seq<Option<string>>)
    ensures CurrentHeader(hs) != "" ==> Some(CurrentHeader(hs)) in hs
  {
    if hs != [] && hs[|hs| - 1].None? {
      CurrentHeaderIsHeading(hs[..|hs| - 1]);
    }
  }

  /** Without a heading line carrying the task's header, no line is a target. */
  lemma NoHeadingNoTarget(items: seq<Option<TaskMatch>>, hs: seq<Option<string>>, task: Task)
    requires |items| == |hs| && task.header != "" && Some(task.header) !in hs
    ensures FirstTarget(items, HeaderSeq(hs), task, 0).None?
  {
    var r := FirstTarget(items, HeaderSeq(hs), task, 0);
    if r.Some? {
      var i := r.value;
      CurrentHeaderIsHeading(hs[..i + 1]);
      assert false;
    }
  }

  /**
   * As written, a task whose header is not the text of any heading line of
   * the note (`General`, or `heading [HH:MM]`) is never found: the note is
   * written back unchanged.
   */
  lemma UnlabelledHeaderNeverToggles(content: string, task: Task)
    requires task.header != "" && Some(task.header) !in Headings(Split(content))
    ensures ToggledContent(content, task) == content
  {
    var lines := Split(content);
    NoHeadingNoTarget(Items(lines), Headings(lines), task);
    ToggledContentLines(content, task);
  }

  /** With the parser's headers, every task the parse yields is found, at its own line or before it. */
  lemma ParsedTaskIsFound(content: string, k: nat) returns (l: nat)
    requires k < |ParseTasks(content)|
    ensures var lines := Split(content); var r := FirstTarget(Items(lines), ParsedHeaders(lines), ParseTasks(content)[k], 0);
      && l < |lines| && MatchTask(lines[l]).Some?
      && r.Some? && r.value <= l
  {
    var lines := Split(content);
    var kinds := Kinds(lines);
    l := TaskSource(kinds, k);
    var task := ParseTasks(content)[k];
    assert kinds[l] == Classify(lines[l]);
    assert Items(lines)[l] == MatchTask(lines[l]);
    assert ParsedHeaders(lines)[l] == StateHeader(ParseKinds(kinds[..l]));
    assert IsTarget(Items(lines), ParsedHeaders(lines), l, task);
  }

  /** The task a note made of the single task line `line` parses to. */
  function SoleTask(line: string): Task
    requires MatchTask(line).Some?
  {
    var m := MatchTask(line).value;
    Task("task-0", m.text, m.checkbox == 'x', "General")
  }

  /** A note made of one task line (`- [ ] a`, say) parses to one task, filed under `General`. */
  lemma SoleTaskParse(line: string)
    requires '\n' !in line && MatchTask(line).Some?
    ensures ParseTasks(line) == [SoleTask(line)]
  {
    var m := MatchTask(line).value;
    SplitSingle(line);
    assert Kinds([line]) == [TaskLine(m)];
    assert [TaskLine(m)][..0] == [];
    assert ParseKinds([TaskLine(m)]) == Step(Start, TaskLine(m));
    assert NatToString(0) == "0";
    assert TaskId(0) == "task-0";
    assert TaskHeader("", "") == "General";
  }

  /** As written, toggling that task writes the note back unchanged. */
  lemma SoleTaskAsWritten(line: string)
    requires '\n' !in line && MatchTask(line).Some?
    ensures ToggledContent(line, SoleTask(line)) == line
  {
    SplitSingle(line);
    TaskLineIsOnlyTask(line);
    var hs: seq<Option<string>> := [None];
    assert Headings([line]) == hs;
    UnlabelledHeaderNeverToggles(line, SoleTask(line));
  }

  /** The corrected toggle flips its checkbox. */
  lemma SoleTaskFixed(line: string)
    requires '\n' !in line && MatchTask(line).Some?
    ensures FixedToggledContent(line, SoleTask(line)) == Flip(line)
  {
    var m := MatchTask(line).value;
    SplitSingle(line);
    assert Items([line]) == [Some(m)];
    assert Kinds([line]) == [TaskLine(m)];
    assert [TaskLine(m)][..0] == [];
    assert ParsedHeaders([line]) == ["General"];
    FirstTargetIs([Some(m)], ["General"], SoleTask(line), 0, 0);
  }

  // ----------------------------------------------- re-parsing after a toggle

  /** Flipping task line `i` changes that line's kind in its checkbox alone. */
  lemma KindsAfterFlip(lines: seq<string>, i: nat)
    requires i < |lines| && MatchTask(lines[i]).Some?
    ensures CheckboxChangedAt(Kinds(lines), Kinds(lines[i := Flip(lines[i])]), i)
  {
    var t := lines[i := Flip(lines[i])];
    FlipMatches(lines[i]);
    forall j | 0 <= j < |lines| && j != i
      ensures Kinds(lines)[j] == Kinds(t)[j]
    {
      assert t[j] == lines[j];
    }
  }

  /**
   * Parsing again after flipping task line `i`: the task that line adds,
   * numbered by the tasks before it, has its flag flipped, and no other task
   * changes.
   */
  lemma ReparseAfterFlip(lines: seq<string>, i: nat)
    requires i < |lines| && MatchTask(lines[i]).Some?
    ensures var kinds := Kinds(lines); var j := |ParseKinds(kinds[..i]).tasks|;
      && j < |ParseKinds(kinds).tasks|
      && ParseKinds(kinds).tasks[j] == NewTask(ParseKinds(kinds[..i]), MatchTask(lines[i]).value)
      && ParseKinds(Kinds(lines[i := Flip(lines[i])])).tasks == FlipCompleted(ParseKinds(kinds).tasks, j)
  {
    var a, b := Kinds(lines), Kinds(lines[i := Flip(lines[i])]);
    KindsAfterFlip(lines, i);
    TaskOfLine(a, i);
    ParseAfterCheckboxChange(a, b, i, |a|);
    assert a[..|a|] == a && b[..|b|] == b;
  }

  /**
   * Toggle with the corrected toggle, then parse again: the first task with
   * the toggled task's text and header (the task itself, when no earlier task
   * shares both) has its flag flipped, and every other task is as it was.
   */
  lemma FixedToggleReparse(content: string, k: nat) returns (j: nat)
    requires k < |ParseTasks(content)|
    ensures var tasks := ParseTasks(content);
      && j <= k && tasks[j].text == tasks[k].text && tasks[j].header == tasks[k].header
      && (forall e :: 0 <= e < j ==> tasks[e].text != tasks[k].text || tasks[e].header != tasks[k].header)
      && ParseTasks(FixedToggledContent(content, tasks[k])) == FlipCompleted(tasks, j)
  {
    var lines := Split(content);
    var kinds := Kinds(lines);
    var tasks := ParseTasks(content);
    var task := tasks[k];
    var headers := ParsedHeaders(lines);
    var own := ParsedTaskIsFound(content, k);
    var i := FirstTarget(Items(lines), headers, task, 0).value;
    assert Items(lines)[i] == MatchTask(lines[i]);
    ReparseAfterFlip(lines, i);
    j := |ParseKinds(kinds[..i]).tasks|;
    assert headers[i] == StateHeader(ParseKinds(kinds[..i]));
    forall e | 0 <= e < j
      ensures tasks[e].text != task.text || tasks[e].header != task.header
    {
      var src := EarlierTaskSource(kinds, i, e);
      assert Items(lines)[src] == MatchTask(lines[src]);
      assert headers[src] == StateHeader(ParseKinds(kinds[..src]));
      assert !IsTarget(Items(lines), headers, src, task);
    }
    SplitNoNewline(content);
    ToggleLinesRoundTrip(lines, headers, task);
    ToggleLinesAt(lines, headers, task, i);
  }

  /** The five-line note of the example below, as lines. */
  function RepeatedHeadingLines(marker: string, heading: string, line: string): seq<string> {
    [marker, heading, line, heading, line]
  }

  /** Its parse: the same task twice, first under `heading [HH:MM]`, then under `heading` alone. */
  lemma RepeatedHeadingParse(marker: string, heading: string, line: string)
    requires MatchTimestampLine(marker).Some? && MatchHeading(heading).Some? && MatchHeading(heading).value != ""
    requires MatchTask(line).Some?
    ensures var lines := RepeatedHeadingLines(marker, heading, line); var kinds := Kinds(lines);
      var h := MatchHeading(heading).value; var m := MatchTask(line).value;
      && ParseKinds(kinds[..2]).tasks == []
      && ParseKinds(kinds).tasks == [
           Task(TaskId(0), m.text, m.checkbox == 'x', h + " [" + MatchTimestampLine(marker).value + "]"),
           Task(TaskId(1), m.text, m.checkbox == 'x', h)]
  {
    var lines := RepeatedHeadingLines(marker, heading, line);
    var ts, h, m := MatchTimestampLine(marker).value, MatchHeading(heading).value, MatchTask(line).value;
    ClassifyMarker(marker);
    ClassifyHeading(heading);
    var kinds := Kinds(lines);
    assert kinds == [MarkerLine(ts), HeadingLine(h), TaskLine(m), HeadingLine(h), TaskLine(m)];
    assert kinds[..0] == [];
    ParsePrefixStep(kinds, 1);
    ParsePrefixStep(kinds, 2);
    ParsePrefixStep(kinds, 3);
    ParsePrefixStep(kinds, 4);
    ParsePrefixStep(kinds, 5);
    assert kinds[..5] == kinds;
  }

  /** Two lines that are not task lines, a heading on the second, then a task line with the task's text: the scan stops on the third. */
  lemma TargetAfterHeading(items: seq<Option<TaskMatch>>, hs: seq<Option<string>>, task: Task)
    requires |items| == |hs| >= 3
    requires items[0] == None && items[1] == None && items[2].Some? && items[2].value.text == task.text
    requires hs[1] == Some(task.header) && hs[2] == None
    ensures FirstTarget(items, HeaderSeq(hs), task, 0) == Some(2)
  {
    CurrentHeaderStep(hs, 1);
    CurrentHeaderStep(hs, 2);
    assert IsTarget(items, HeaderSeq(hs), 2, task);
    FirstTargetIs(items, HeaderSeq(hs), task, 0, 2);
  }

  /** Its scan as written: with `heading`'s text as the header, the first target is the first task line. */
  lemma RepeatedHeadingScan(marker: string, heading: string, line: string, task: Task)
    requires MatchTimestampLine(marker).Some? && MatchHeading(heading).Some?
    requires MatchTask(line).Some? && task.text == MatchTask(line).value.text && task.header == MatchHeading(heading).value
    ensures var lines := RepeatedHeadingLines(marker, heading, line);
      FirstTarget(Items(lines), ScanHeaders(lines), task, 0) == Some(2)
  {
    var lines := RepeatedHeadingLines(marker, heading, line);
    TaskLineIsOnlyTask(marker);
    TaskLineIsOnlyTask(heading);
    TaskLineIsOnlyTask(line);
    assert Items(lines)[0] == MatchTask(marker) && Items(lines)[1] == MatchTask(heading) && Items(lines)[2] == MatchTask(line);
    assert Headings(lines)[1] == MatchHeading(heading) && Headings(lines)[2] == MatchHeading(line);
    TargetAfterHeading(Items(lines), Headings(lines), task);
  }

  /**
   * As written, the toggle can flip a different task.  In a note made of a
   * marker line, a heading, a task line, the same heading and the same task
   * line again (`[09:00]`, `# H`, `- [ ] a`, `# H`, `- [ ] a`), the parse
   * files the first task under `H [09:00]` and the second under `H`.
   * Toggling the second task flips the first task's line, so on parsing
   * again the first task's flag has changed and the second's has not.
   */
  lemma ToggleFlipsOtherTask(marker: string, heading: string, line: string)
    requires MatchTimestampLine(marker).Some? && MatchHeading(heading).Some? && MatchHeading(heading).value != ""
    requires MatchTask(line).Some?
    requires '\n' !in marker && '\n' !in heading && '\n' !in line
    ensures var content := Join(RepeatedHeadingLines(marker, heading, line));
      var tasks := ParseTasks(content);
      && |tasks| == 2
      && tasks[0].text == tasks[1].text
      && tasks[0].header == MatchHeading(heading).value + " [" + MatchTimestampLine(marker).value + "]"
      && tasks[1].header == MatchHeading(heading).value
      && tasks[0].header != tasks[1].header
      && ParseTasks(ToggledContent(content, tasks[1])) == FlipCompleted(tasks, 0)
  {
    var lines := RepeatedHeadingLines(marker, heading, line);
    SplitJoin(lines);
    RepeatedHeadingParse(marker, heading, line);
    var tasks := ParseTasks(Join(lines));
    assert |tasks[0].header| > |tasks[1].header|;
    RepeatedHeadingScan(marker, heading, line, tasks[1]);
    ToggleLinesRoundTrip(lines, ScanHeaders(lines), tasks[1]);
    ToggleLinesAt(lines, ScanHeaders(lines), tasks[1], 2);
    ReparseAfterFlip(lines, 2);
  }

  /** A space and one visible character: the rest a heading or task pattern accepts, trimmed to the character. */
  lemma SpaceThenChar(c: char)
    requires !IsWhitespace(c) && !IsLineTerminator(c)
    ensures RestMatches([' ', c], 1) && Trim([' ', c]) == [c]
  {
    var s := [' ', c];
    assert s[..1] == [' '] && s[1..] == [c];
    assert IsWhitespace(s[0]);
    assert TrimStart(s) == TrimStart([c]) == [c];
    assert TrimEnd([c]) == [c];
  }

  /** `# c` is a heading titled `c`. */
  lemma HeadingOfChar(c: char)
    requires !IsWhitespace(c) && !IsLineTerminator(c) && c != '#'
    ensures MatchHeading(['#', ' ', c]) == Some([c])
  {
    var line := ['#', ' ', c];
    assert SkipHashes(line, 1) == 1;
    assert SkipHashes(line, 0) == 1;
    assert line[1..] == [' ', c];
    SpaceThenChar(c);
  }

  /** `- [ ] c` is an open task with text `c`. */
  lemma TaskOfChar(c: char)
    requires !IsWhitespace(c) && !IsLineTerminator(c)
    ensures MatchTask(['-', ' ', '[', ' ', ']', ' ', c]) == Some(TaskMatch(' ', [c]))
  {
    var line := ['-', ' ', '[', ' ', ']', ' ', c];
    assert SkipWhitespace(line, 0) == 0;
    assert SkipWhitespace(line, 2) == 2;
    assert SkipWhitespace(line, 1) == 2;
    assert TaskBox(line) == Some(2);
    assert line[5..] == [' ', c];
    SpaceThenChar(c);
  }

  /** `[09:00]` is a marker line for `09:00`. */
  lemma ExampleMarker()
    ensures MatchTimestampLine("[09:00]") == Some("09:00")
  {
    var m := "[09:00]";
    assert IsDigit(m[1]) && IsDigit(m[2]) && IsDigit(m[4]) && IsDigit(m[5]);
    assert Markers.MarkerAt(m, 0);
    assert m[1..6] == "09:00";
  }

  /** The five-line note's text. */
  lemma JoinRepeated(marker: string, heading: string, line: string)
    ensures Join(RepeatedHeadingLines(marker, heading, line)) ==
      marker + "\n" + (heading + "\n" + (line + "\n" + (heading + "\n" + line)))
  {
    var l2, l3, l4 := [heading, line], [line, heading, line], [heading, line, heading, line];
    assert l2[1..] == [line] && l3[1..] == l2 && l4[1..] == l3;
    assert RepeatedHeadingLines(marker, heading, line)[1..] == l4;
    assert Join(l2) == heading + "\n" + line;
    assert Join(l3) == line + "\n" + Join(l2);
    assert Join(l4) == heading + "\n" + Join(l3);
  }

  /** None of the five lines holds a newline when none of the three does. */
  lemma NoNewlineLines(marker: string, heading: string, line: string)
    requires '\n' !in marker && '\n' !in heading && '\n' !in line
    ensures var l := RepeatedHeadingLines(marker, heading, line); forall i :: 0 <= i < |l| ==> '\n' !in l[i]
  {
  }

  /** What the patterns make of the example's three lines. */
  lemma ExampleLines(marker: string, heading: string, line: string)
    requires marker == "[09:00]" && heading == "# H" && line == "- [ ] a"
    ensures MatchTimestampLine(marker) == Some("09:00")
    ensures MatchHeading(heading) == Some("H") && MatchTask(line) == Some(TaskMatch(' ', "a"))
    ensures '\n' !in marker && '\n' !in heading && '\n' !in line
  {
    ExampleMarker();
    HeadingOfChar('H');
    TaskOfChar('a');
    assert ['#', ' ', 'H'] == "# H" && ['-', ' ', '[', ' ', ']', ' ', 'a'] == "- [ ] a";
  }

  /** The example's text and headers, written out. */
  lemma ExampleText()
    ensures "[09:00]" + "\n" + ("# H" + "\n" + ("- [ ] a" + "\n" + ("# H" + "\n" + "- [ ] a"))) == "[09:00]\n# H\n- [ ] a\n# H\n- [ ] a"
    ensures "H" + " [" + "09:00" + "]" == "H [09:00]"
    ensures TaskId(0) == "task-0" && TaskId(1) == "task-1"
  {
    assert NatToString(0) == "0" && NatToString(1) == "1";
  }

  /** The parse of the five-line note and its text after the toggle, as the general lemmas give them. */
  lemma ExampleParse(marker: string, heading: string, line: string)
    requires marker == "[09:00]" && heading == "# H" && line == "- [ ] a"
    ensures var content := Join(RepeatedHeadingLines(marker, heading, line));
      var tasks := ParseTasks(content);
      && tasks == [Task(TaskId(0), "a", false, "H" + " [" + "09:00" + "]"), Task(TaskId(1), "a", false, "H")]
      && ParseTasks(ToggledContent(content, tasks[1])) == FlipCompleted(tasks, 0)
  {
    ExampleLines(marker, heading, line);
    NoNewlineLines(marker, heading, line);
    SplitJoin(RepeatedHeadingLines(marker, heading, line));
    RepeatedHeadingParse(marker, heading, line);
    ToggleFlipsOtherTask(marker, heading, line);
  }

  /**
   * The note `[09:00]`, `# H`, `- [ ] a`, `# H`, `- [ ] a`: toggling `task-1`
   * (`a` under `H`) ticks `task-0` (`a` under `H [09:00]`) and leaves
   * `task-1` open.
   */
  lemma ToggleFlipsOtherTaskExample(marker: string, heading: string, line: string)
    requires marker == "[09:00]" && heading == "# H" && line == "- [ ] a"
    ensures var content := Join(RepeatedHeadingLines(marker, heading, line));
      var tasks := ParseTasks(content);
      && content == "[09:00]\n# H\n- [ ] a\n# H\n- [ ] a"
      && tasks == [Task("task-0", "a", false, "H [09:00]"), Task("task-1", "a", false, "H")]
      && ParseTasks(ToggledContent(content, tasks[1])) == [Task("task-0", "a", true, "H [09:00]"), Task("task-1", "a", false, "H")]
  {
    JoinRepeated(marker, heading, line);
    ExampleText();
    ExampleParse(marker, heading, line);
  }
}
