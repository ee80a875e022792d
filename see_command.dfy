/**
 * The `see` command: it shows one day's note, editable only when no explicit
 * date was given, and steps to the latest earlier day that has a note or to
 * the next day as long as that is not after today.  The listing of the notes
 * directory is a parameter (`None` when listing fails) and so is today's
 * date; the terminal preview is not modelled, each display returns what the
 * preview would be given.
 */
module SeeCmd {
  import opened Options
  import opened Strings
  import opened Dates
  import opened Config
  import opened FileUtils
  import opened Store
  import opened Notes
  import opened Commands
  import DateUtils

  // ------------------------------------------------- the oldest note on disk

  /** The first index at or after `from` where `pat` occurs, as `indexOf` finds it. */
  function IndexOfFrom(s: string, pat: string, from: nat): (r: Option<nat>)
    ensures r.Some? ==> from <= r.value && OccursAt(s, pat, r.value)
    ensures r.Some? ==> forall j :: from <= j < r.value ==> !OccursAt(s, pat, j)
    ensures r.None? ==> forall j :: from <= j ==> !OccursAt(s, pat, j)
    decreases |s| - from
  {
    if from + |pat| > |s| then None
    else if OccursAt(s, pat, from) then Some(from)
    else IndexOfFrom(s, pat, from + 1)
  }

  /** `file.replace('.md', '')`: only the first occurrence is removed. */
  function StripMd(file: string): string {
    match IndexOfFrom(file, ".md", 0)
    case None => file
    case Some(i) => file[..i] + file[i + 3..]
  }

  /**
   * `new Date(s + 'T00:00:00')` on a string of the validated shape, as V8
   * reads it: a month outside 1..12 or a day outside 1..31 is an invalid
   * date; a day past the month's end rolls over into the next month.
   */
  function Normalize(y: int, m: int, dd: int): (r: Date)
    requires 1 <= m <= 12 && 1 <= dd <= 31
    ensures Valid(r)
    ensures DayNumber(r) == DaysBeforeYear(y) + DaysBeforeMonth(y, m) + dd - 1
  {
    MonthLength(y, m);
    if dd <= DaysInMonth(y, m) then Date(y, m, dd)
    else Date(y, m + 1, dd - DaysInMonth(y, m))
  }

  /** The date one directory entry contributes to `findOldestNote`, if any. */
  function ListingDate(file: string): (r: Option<Date>)
    ensures r.Some? ==> Valid(r.value)
  {
    if !EndsWith(file, ".md") then None
    else
      var stem := StripMd(file);
      if !ValidateDateFormat(stem) then None
      else
        var p := ParseNoteDate(stem);
        if 1 <= p.month <= 12 && 1 <= p.day <= 31 then Some(Normalize(p.year, p.month, p.day))
        else None
  }

  /** The dates of a listing, in listing order. */
  function ListingDates(files: seq<string>): (ds: seq<Date>)
    ensures forall d :: d in ds ==> Valid(d)
  {
    if files == [] then []
    else
      var rest := ListingDates(files[1..]);
      match ListingDate(files[0])
      case None => rest
      case Some(d) => [d] + rest
  }

  /** The first date after sorting by time: the earliest one. */
  function EarliestDate(ds: seq<Date>): (r: Option<Date>)
    ensures r.None? <==> ds == []
    ensures r.Some? ==> r.value in ds && forall d :: d in ds ==> AtOrBefore(r.value, d)
  {
    if ds == [] then None
    else
      match EarliestDate(ds[1..])
      case None => Some(ds[0])
      case Some(e) =>
        assert forall d :: d in ds ==> d == ds[0] || d in ds[1..];
        BeforeTotal(ds[0], e);
        if Before(e, ds[0]) then Some(e) else Some(ds[0])
  }

  /** `findOldestNote`: the earliest date named by a `.md` entry, or null (also when listing fails). */
  function FindOldestNote(listing: Option<seq<string>>): (r: Option<Date>)
    ensures r.Some? ==> Valid(r.value)
  {
    match listing
    case None => None
    case Some(files) => EarliestDate(ListingDates(files))
  }

  /** No character of a validated `YYYY-MM-DD` string is a dot. */
  lemma ValidatedHasNoDot(s: string, k: nat)
    requires ValidateDateFormat(s) && k < |s|
    ensures s[k] != '.'
  {
    if k < 4 {
      assert s[..4][k] == s[k];
    } else if 5 <= k < 7 {
      assert s[5..7][k - 5] == s[k];
    } else if 8 <= k {
      assert s[8..][k - 8] == s[k];
    }
  }

  /**
   * An entry whose stripped name passes the pattern is exactly that name
   * followed by `.md`: a `.md` anywhere else would leave a dot behind.
   */
  lemma ListedEntryShape(file: string)
    requires EndsWith(file, ".md") && ValidateDateFormat(StripMd(file))
    ensures file == StripMd(file) + ".md"
  {
    var n := |file|;
    assert OccursAt(file, ".md", n - 3);
    var i := IndexOfFrom(file, ".md", 0).value;
    assert file == file[..i] + file[i..];
  }

  /** The note a date's file name stands for is read back as that date from a listing. */
  lemma NoteFileIsListed(d: Date)
    requires Valid(d) && 1000 <= d.year <= 9999
    ensures ListingDate(NoteFileName(d)) == Some(d)
  {
    var stem := FormatNoteDate(d);
    var file := NoteFileName(d);
    FormatNoteDateRoundTrip(d);
    assert |stem| == 10;
    assert file[..10] == stem;
    forall j | 0 <= j < 10 ensures !OccursAt(file, ".md", j) {
      ValidatedHasNoDot(stem, j);
      assert file[j..j + 3][0] == file[j] == stem[j];
    }
    assert OccursAt(file, ".md", 10);
    assert IndexOfFrom(file, ".md", 0) == Some(10);
    assert StripMd(file) == stem;
  }

  /** A listed date comes from an entry that names it; conversely every listed note's date is a candidate. */
  lemma {:induction false} ListingDatesMembers(files: seq<string>, d: Date)
    ensures d in ListingDates(files) <==> exists k :: 0 <= k < |files| && ListingDate(files[k]) == Some(d)
  {
    if files != [] {
      ListingDatesMembers(files[1..], d);
      if d in ListingDates(files[1..]) {
        var k :| 0 <= k < |files[1..]| && ListingDate(files[1..][k]) == Some(d);
        assert files[k + 1] == files[1..][k];
      }
      if exists k :: 0 <= k < |files| && ListingDate(files[k]) == Some(d) {
        var k :| 0 <= k < |files| && ListingDate(files[k]) == Some(d);
        if k > 0 {
          assert files[1..][k - 1] == files[k];
        }
      }
    }
  }

  /**
   * `findOldestNote` returns a date some entry names and no entry names an
   * earlier one; it is null exactly when listing failed or no entry names a date.
   */
  lemma FindOldestNoteIsOldest(listing: Option<seq<string>>)
    ensures var r := FindOldestNote(listing);
      && (r.None? <==> listing.None? || forall k :: 0 <= k < |listing.value| ==> ListingDate(listing.value[k]).None?)
      && (r.Some? ==> exists k :: 0 <= k < |listing.value| && ListingDate(listing.value[k]) == r)
      && (r.Some? ==> forall k, e :: 0 <= k < |listing.value| && ListingDate(listing.value[k]) == Some(e) ==> AtOrBefore(r.value, e))
  {
    var r := FindOldestNote(listing);
    if listing.Some? {
      var files := listing.value;
      var ds := ListingDates(files);
      if r.Some? {
        ListingDatesMembers(files, r.value);
        forall k, e | 0 <= k < |files| && ListingDate(files[k]) == Some(e) ensures AtOrBefore(r.value, e) {
          ListingDatesMembers(files, e);
        }
      } else {
        forall k | 0 <= k < |files| ensures ListingDate(files[k]).None? {
          if ListingDate(files[k]).Some? {
            ListingDatesMembers(files, ListingDate(files[k]).value);
          }
        }
      }
    }
  }

  /** A listed note file for a date means the oldest note is that date or earlier. */
  lemma OldestNoteBounds(files: seq<string>, d: Date)
    requires Valid(d) && 1000 <= d.year <= 9999 && NoteFileName(d) in files
    ensures FindOldestNote(Some(files)).Some?
    ensures AtOrBefore(FindOldestNote(Some(files)).value, d)
  {
    NoteFileIsListed(d);
    var k :| 0 <= k < |files| && files[k] == NoteFileName(d);
    ListingDatesMembers(files, d);
  }

  // ------------------------------------------------- the previous note

  /** The loop of `findPreviousValidNote`: the latest day from `check` back to `oldest` whose note exists. */
  function LatestNoteFrom(files: map<string, string>, root: string, oldest: Date, check: Date): (r: Option<Date>)
    requires Valid(oldest) && Valid(check)
    ensures r.Some? ==> Valid(r.value)
    decreases DayNumber(check) - DayNumber(oldest)
  {
    if Before(check, oldest) then None
    else if GetNotePathForDate(root, check) in files then Some(check)
    else
      PrevDayNumber(check);
      BeforeIffDayNumber(check, oldest);
      LatestNoteFrom(files, root, oldest, PrevDay(check))
  }

  /** `findPreviousValidNote`: start the day before `current`, never go before the oldest note. */
  function PreviousValidNote(files: map<string, string>, root: string, listing: Option<seq<string>>, current: Date): (r: Option<Date>)
    requires Valid(current)
    ensures r.Some? ==> Valid(r.value)
  {
    match FindOldestNote(listing)
    case None => None
    case Some(oldest) => LatestNoteFrom(files, root, oldest, PrevDay(current))
  }

  lemma {:induction false} LatestNoteFromIsLatest(files: map<string, string>, root: string, oldest: Date, check: Date)
    requires Valid(oldest) && Valid(check)
    ensures var r := LatestNoteFrom(files, root, oldest, check);
      && (r.Some? ==> Valid(r.value) && AtOrBefore(oldest, r.value) && AtOrBefore(r.value, check))
      && (r.Some? ==> GetNotePathForDate(root, r.value) in files)
      && (r.Some? ==> forall d :: Valid(d) && Before(r.value, d) && AtOrBefore(d, check) ==> GetNotePathForDate(root, d) !in files)
      && (r.None? ==> forall d :: Valid(d) && AtOrBefore(oldest, d) && AtOrBefore(d, check) ==> GetNotePathForDate(root, d) !in files)
    decreases DayNumber(check) - DayNumber(oldest)
  {
    BeforeTotal(check, oldest);
    if !Before(check, oldest) && GetNotePathForDate(root, check) !in files {
      var p := PrevDay(check);
      PrevDayNumber(check);
      BeforeIffDayNumber(check, oldest);
      LatestNoteFromIsLatest(files, root, oldest, p);
      forall d | Valid(d) && AtOrBefore(d, check) && d != check ensures AtOrBefore(d, p) {
        PrevDayIsPredecessor(check, d);
      }
      if Before(p, oldest) {
        forall d | Valid(d) && AtOrBefore(oldest, d) && AtOrBefore(d, check)
          ensures d == check
        {
          if d != check {
            PrevDayIsPredecessor(check, d);
            BeforeTotal(p, oldest);
          }
        }
      }
    } else if Before(check, oldest) {
      forall d | Valid(d) && AtOrBefore(oldest, d) && AtOrBefore(d, check) ensures false {
        BeforeTotal(check, oldest);
      }
    }
  }

  /**
   * The previous note is the latest day strictly before `current`, not before
   * the oldest note, whose note file exists; none exists in between.  It is
   * null exactly when the oldest note is unknown or no such day has a note.
   */
  lemma PreviousValidNoteIsLatest(files: map<string, string>, root: string, listing: Option<seq<string>>, current: Date)
    requires Valid(current)
    ensures var oldest := FindOldestNote(listing); var r := PreviousValidNote(files, root, listing, current);
      && (r.Some? ==> oldest.Some? && AtOrBefore(oldest.value, r.value) && Before(r.value, current))
      && (r.Some? ==> Valid(r.value) && GetNotePathForDate(root, r.value) in files)
      && (r.Some? ==> forall d :: Valid(d) && Before(r.value, d) && Before(d, current) ==> GetNotePathForDate(root, d) !in files)
      && (r.None? ==> oldest.None? || forall d :: Valid(d) && AtOrBefore(oldest.value, d) && Before(d, current) ==> GetNotePathForDate(root, d) !in files)
  {
    var oldest := FindOldestNote(listing);
    if oldest.Some? {
      var p := PrevDay(current);
      LatestNoteFromIsLatest(files, root, oldest.value, p);
      forall d | Valid(d) && Before(d, current) ensures AtOrBefore(d, p) {
        PrevDayIsPredecessor(current, d);
      }
      var r := PreviousValidNote(files, root, listing, current);
      if r.Some? {
        assert AtOrBefore(r.value, p);
        if r.value != p { BeforeTransitive(r.value, p, current); }
      }
    }
  }

  /** When the day before `current` is already before the oldest note there is no previous note. */
  lemma NothingBeforeOldest(files: map<string, string>, root: string, listing: Option<seq<string>>, current: Date)
    requires Valid(current) && FindOldestNote(listing).Some?
    requires !Before(FindOldestNote(listing).value, current)
    ensures PreviousValidNote(files, root, listing, current).None?
  {
    var oldest := FindOldestNote(listing).value;
    var p := PrevDay(current);
    BeforeTotal(oldest, current);
    if current != oldest {
      BeforeTransitive(p, current, oldest);
    }
  }

  // ------------------------------------------------- the next day

  /** `navigateNext`'s decision: the next calendar day, when it is not after today. */
  function NextTarget(current: Date, today: Date): (r: Option<Date>)
    requires Valid(current) && Valid(today)
    ensures r.Some? <==> DayNumber(current) < DayNumber(today)
    ensures r.Some? ==> Valid(r.value) && DayNumber(r.value) == DayNumber(current) + 1
  {
    var next := DateUtils.GetNextDate(current);
    if DateUtils.IsDateBeforeOrEqualToday(next, today) then Some(next) else None
  }

  /** Following `navigateNext` `k` times from a day. */
  function NextSteps(d: Date, today: Date, k: nat): Option<Date>
    requires Valid(d) && Valid(today)
    decreases k
  {
    if k == 0 then Some(d)
    else
      match NextTarget(d, today)
      case None => None
      case Some(n) => NextSteps(n, today, k - 1)
  }

  /**
   * From any day up to today, stepping forward visits every following day
   * and ends on today, from which it goes no further.
   */
  lemma {:induction false} NextStepsReachToday(d: Date, today: Date)
    requires Valid(d) && Valid(today) && AtOrBefore(d, today)
    ensures DayNumber(d) <= DayNumber(today)
    ensures NextSteps(d, today, (DayNumber(today) - DayNumber(d)) as nat) == Some(today)
    ensures NextTarget(today, today).None?
    decreases DayNumber(today) - DayNumber(d)
  {
    AtOrBeforeIffDayNumber(d, today);
    if DayNumber(d) == DayNumber(today) {
      DayNumberInjective(d, today);
    } else {
      var n := NextTarget(d, today).value;
      AtOrBeforeIffDayNumber(n, today);
      NextStepsReachToday(n, today);
    }
  }

  // ------------------------------------------------- the command

  /** What the preview is given: the note's text, its title and its day. */
  datatype NoteView = NoteView(content: string, title: string, date: Date)

  /** The view of a day's note: its text before any note was created for it, and its `YYYY-MM-DD` title. */
  function ShownNote(files: map<string, string>, root: string, d: Date): NoteView
    requires Valid(d)
  {
    NoteView(ContentOrEmpty(files, GetNotePathForDate(root, d)), FormatNoteDate(d), d)
  }

  /** The files after showing a day: a missing note is created by `ensureNoteExists`. */
  function AfterShow(files: map<string, string>, root: string, d: Date, today: Date): map<string, string>
    requires Valid(d) && Valid(today)
  {
    var notePath := GetNotePathForDate(root, d);
    if notePath in files then files else files[notePath := NewNoteContent(files, notePath, today)]
  }

  class SeeCommand {
    const notes: NoteService
    const fs: FileStore
    /** Set by `execute`; before that it is undefined, which gates like `false`. */
    var allowEditNotes: bool

    constructor (notes: NoteService)
      ensures this.notes == notes && this.fs == notes.fs && !allowEditNotes
    {
      this.notes := notes;
      this.fs := notes.fs;
      allowEditNotes := false;
    }

    /** `execute`: pick the day, allow editing only without an explicit date, and show the note. */
    method Execute(options: DayOptions, root: Option<string>, today: Date) returns (view: Option<NoteView>)
      requires Valid(today) && ValidOptions(options) && notes.fs == fs
      modifies this, fs
      ensures allowEditNotes <==> options.date.None?
      ensures !RootSet(root) ==> view.None? && fs.files == old(fs.files)
      ensures RootSet(root) ==>
        var d := ChosenDate(options, today);
        && view == Some(ShownNote(old(fs.files), root.value, d))
        && fs.files == AfterShow(old(fs.files), root.value, d, today)
    {
      var currentDate: Date;
      if options.date.Some? {
        currentDate := options.date.value;
      } else if options.yester {
        currentDate := DateUtils.GetYesterdayFromToday(today);
      } else {
        currentDate := today;
      }
      allowEditNotes := options.date.None?;
      view := DisplayNote(root, currentDate, today);
    }

    /**
     * `displayNoteWithNavigation`: without a notes root it fails; otherwise an
     * existing note is read and a missing one is created and shown empty.
     */
    method DisplayNote(root: Option<string>, currentDate: Date, today: Date) returns (view: Option<NoteView>)
      requires Valid(currentDate) && Valid(today) && notes.fs == fs
      modifies fs
      ensures !RootSet(root) ==> view.None? && fs.files == old(fs.files)
      ensures RootSet(root) ==>
        && view == Some(ShownNote(old(fs.files), root.value, currentDate))
        && fs.files == AfterShow(old(fs.files), root.value, currentDate, today)
    {
      if !RootSet(root) {
        return None;
      }
      var notePath := GetNotePathForDate(root.value, currentDate);
      var title := FormatNoteDate(currentDate);
      var fileExists := fs.Exists(notePath);
      var content := "";
      if fileExists {
        var read := fs.Read(notePath);
        content := read.value;
      } else {
        notes.EnsureNoteExists(notePath, today);
      }
      view := Some(NoteView(content, title, currentDate));
    }

    /** `findPreviousValidNote`: walk back one day at a time while not before the oldest note. */
    method FindPreviousValidNote(root: string, listing: Option<seq<string>>, currentDate: Date) returns (r: Option<Date>)
      requires Valid(currentDate)
      ensures r == PreviousValidNote(fs.files, root, listing, currentDate)
    {
      var oldestNote := FindOldestNote(listing);
      if oldestNote.None? {
        return None;
      }
      var oldest := oldestNote.value;
      var checkDate := PrevDay(currentDate);
      if Before(checkDate, oldest) {
        return None;
      }
      while !Before(checkDate, oldest)
        invariant Valid(checkDate)
        invariant LatestNoteFrom(fs.files, root, oldest, checkDate) == PreviousValidNote(fs.files, root, listing, currentDate)
        decreases DayNumber(checkDate) - DayNumber(oldest)
      {
        BeforeIffDayNumber(checkDate, oldest);
        var notePath := GetNotePathForDate(root, checkDate);
        var fileExists := fs.Exists(notePath);
        if fileExists {
          return Some(checkDate);
        }
        PrevDayNumber(checkDate);
        checkDate := PrevDay(checkDate);
      }
      return None;
    }

    /** `navigatePrevious`: show the previous note when there is one, else do nothing; the display fails again on an empty root. */
    method NavigatePrevious(root: string, listing: Option<seq<string>>, currentDate: Date, today: Date)
      returns (view: Option<NoteView>)
      requires Valid(currentDate) && Valid(today) && notes.fs == fs
      modifies fs
      ensures root == "" ==> view.None? && fs.files == old(fs.files)
      ensures root != "" ==> var prev := PreviousValidNote(old(fs.files), root, listing, currentDate);
        && (prev.None? ==> view.None? && fs.files == old(fs.files))
        && (prev.Some? ==> view == Some(ShownNote(old(fs.files), root, prev.value))
                           && fs.files == AfterShow(old(fs.files), root, prev.value, today))
    {
      var previousDate := FindPreviousValidNote(root, listing, currentDate);
      view := None;
      if previousDate.Some? {
        PreviousValidNoteIsLatest(fs.files, root, listing, currentDate);
        view := DisplayNote(Some(root), previousDate.value, today);
      }
    }

    /** `navigateNext`: show the next day, creating its note if needed, unless it is after today; the display fails again on an empty root. */
    method NavigateNext(root: string, currentDate: Date, today: Date) returns (view: Option<NoteView>)
      requires Valid(currentDate) && Valid(today) && notes.fs == fs
      modifies fs
      ensures root == "" ==> view.None? && fs.files == old(fs.files)
      ensures root != "" ==> var next := NextTarget(currentDate, today);
        && (next.None? ==> view.None? && fs.files == old(fs.files))
        && (next.Some? ==> view == Some(ShownNote(old(fs.files), root, next.value))
                           && fs.files == AfterShow(old(fs.files), root, next.value, today))
    {
      var nextDate := DateUtils.GetNextDate(currentDate);
      view := None;
      if DateUtils.IsDateBeforeOrEqualToday(nextDate, today) {
        view := DisplayNote(Some(root), nextDate, today);
      }
    }

    /** `onEdit`: the path handed to the editor, or nothing when editing is not allowed. */
    method OnEdit(root: string, currentDate: Date) returns (editorPath: Option<string>)
      requires Valid(currentDate)
      ensures editorPath.Some? <==> allowEditNotes
      ensures editorPath.Some? ==> editorPath.value == GetNotePathForDate(root, currentDate)
    {
      if allowEditNotes {
        editorPath := Some(GetNotePathForDate(root, currentDate));
      } else {
        editorPath := None;
      }
    }
  }
}
