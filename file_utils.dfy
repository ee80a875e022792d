/**
 * Note paths: `root/YYYY-MM-DD.md` for a date, and the `path` helpers the note
 * service uses to split a note path into its directory and file name.  The
 * notes root (the MANDA_DIR setting) is a parameter: a non-empty directory
 * path without a trailing slash.
 */
module FileUtils {
  import opened Strings
  import opened Dates
  import Config

  /** `${YYYY-MM-DD}.md`, the file name of a date's note (also `getTodayFileName`). */
  function NoteFileName(d: Date): string
    requires Valid(d)
  {
    Config.FormatNoteDate(d) + ".md"
  }

  /** `path.join(dir, name)` for a normalised directory and a plain file name. */
  function PathJoin(dir: string, name: string): string {
    dir + "/" + name
  }

  /** `getNotePathForDate`: `${root}/${YYYY-MM-DD}.md`. */
  function GetNotePathForDate(root: string, d: Date): string
    requires Valid(d)
  {
    PathJoin(root, NoteFileName(d))
  }

  /** `getYesterdayNotePath`, with today passed in. */
  function GetYesterdayNotePath(root: string, today: Date): string
    requires Valid(today)
  {
    GetNotePathForDate(root, PrevDay(today))
  }

  /** Yesterday's note path is the note path of the one day whose successor is today. */
  lemma YesterdayNotePathIsYesterdays(root: string, today: Date, d: Date)
    requires Valid(today) && Valid(d) && DayNumber(d) + 1 == DayNumber(today)
    ensures GetYesterdayNotePath(root, today) == GetNotePathForDate(root, d)
  {
    PrevDayNumber(today);
    DayNumberInjective(PrevDay(today), d);
  }

  /** The index of the last `/` in a path, or -1. */
  function LastSlash(p: string): (i: int)
    ensures -1 <= i < |p|
    ensures i >= 0 ==> p[i] == '/'
    ensures forall j :: i < j < |p| ==> p[j] != '/'
  {
    if |p| == 0 then -1
    else if p[|p| - 1] == '/' then |p| - 1
    else LastSlash(p[..|p| - 1])
  }

  /** `path.basename`: what follows the last `/`. */
  function Basename(p: string): string {
    var i := LastSlash(p);
    p[i + 1..]
  }

  /** `path.dirname`: what precedes the last `/` (`.` when there is none). */
  function Dirname(p: string): string {
    var i := LastSlash(p);
    if i < 0 then "." else p[..i]
  }

  /** Joining a directory with a plain name and splitting again gives both back. */
  lemma PathJoinSplits(dir: string, name: string)
    requires '/' !in name
    ensures Basename(PathJoin(dir, name)) == name
    ensures Dirname(PathJoin(dir, name)) == dir
  {
    var p := PathJoin(dir, name);
    var i := LastSlash(p);
    assert p[|dir|] == '/';
  }

  /** A note's file name is the ten-character date, then `.md`, with no `/` in it. */
  lemma NoteFileNameShape(d: Date)
    requires Valid(d) && 1000 <= d.year <= 9999
    ensures var n := NoteFileName(d);
      && |n| == 13 && n[..10] == Config.FormatNoteDate(d) && n[10..] == ".md"
      && Config.ValidateDateFormat(n[..10]) && EndsWith(n, ".md") && '/' !in n
  {
    Config.FormatNoteDateValidates(d);
    var n := NoteFileName(d);
    assert forall j :: 0 <= j < 10 ==> n[j] == Config.FormatNoteDate(d)[j];
    assert forall j :: 0 <= j < 10 ==> n[j] == '-' || IsDigit(n[j]);
  }

  /** The note path is the root, a slash, and the note's file name. */
  lemma NotePathShape(root: string, d: Date)
    requires Valid(d) && 1000 <= d.year <= 9999
    ensures var p := GetNotePathForDate(root, d);
      && p[..|root|] == root && p[|root|] == '/' && p[|root| + 1..] == NoteFileName(d)
      && Basename(p) == NoteFileName(d) && Dirname(p) == root
  {
    NoteFileNameShape(d);
    PathJoinSplits(root, NoteFileName(d));
  }

  /** Distinct dates with four-digit years have distinct note paths. */
  lemma NotePathInjective(root: string, a: Date, b: Date)
    requires Valid(a) && 1000 <= a.year <= 9999
    requires Valid(b) && 1000 <= b.year <= 9999
    requires GetNotePathForDate(root, a) == GetNotePathForDate(root, b)
    ensures a == b
  {
    NotePathShape(root, a);
    NotePathShape(root, b);
    NoteFileNameShape(a);
    NoteFileNameShape(b);
    assert NoteFileName(a) == NoteFileName(b);
    Config.FormatNoteDateInjective(a, b);
  }
}
