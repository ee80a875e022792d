/**
 * The date helpers of the configuration module: the `YYYY-MM-DD` validation
 * pattern, the note-date formatter and the `YYYY-MM-DD HH:mm:ss` timestamp.
 */
module Config {
  import opened Strings
  import opened Dates

  /** `^\d{4}-\d{2}-\d{2}$`: shape only, no range check on month or day. */
  predicate ValidateDateFormat(s: string) {
    && |s| == 10
    && AllDigits(s[..4]) && s[4] == '-'
    && AllDigits(s[5..7]) && s[7] == '-'
    && AllDigits(s[8..])
  }

  /** `${getFullYear()}-${pad2(getMonth() + 1)}-${pad2(getDate())}`. */
  function FormatNoteDate(d: Date): string
    requires Valid(d)
  {
    IntToString(d.year) + "-" + PadStart2(d.month) + "-" + PadStart2(d.day)
  }

  /** `formatNoteDate(d) + " " + HH:mm:ss`, each clock part padded to two digits. */
  function FormatTimestamp(d: Date, t: TimeOfDay): string
    requires Valid(d) && ValidTime(t)
  {
    FormatNoteDate(d) + " " + PadStart2(t.hour) + ":" + PadStart2(t.minute) + ":" + PadStart2(t.second)
  }

  /** The year, month and day a string of the validated shape spells. */
  function ParseNoteDate(s: string): Date
    requires ValidateDateFormat(s)
  {
    Date(DigitsValue(s[..4]), DigitsValue(s[5..7]), DigitsValue(s[8..]))
  }

  lemma TwoDigitsValue(s: string)
    requires |s| == 2 && AllDigits(s)
    ensures DigitsValue(s) == 10 * DigitValue(s[0]) + DigitValue(s[1])
  {
    var h := s[..1];
    assert h[..|h| - 1] == [];
    assert DigitsValue(h) == DigitValue(s[0]);
    assert s[..|s| - 1] == h;
  }

  /** The pieces of a formatted date: the year text, then two-digit month and day. */
  lemma FormatNoteDateParts(d: Date)
    requires Valid(d)
    ensures var r := FormatNoteDate(d); var n := |IntToString(d.year)|;
      && |r| == n + 6
      && r[..n] == IntToString(d.year) && r[n] == '-' && r[n + 3] == '-'
      && r[n + 1..n + 3] == PadStart2(d.month) && r[n + 4..] == PadStart2(d.day)
      && AllDigits(r[n + 1..n + 3]) && 1 <= DigitsValue(r[n + 1..n + 3]) <= 12
      && AllDigits(r[n + 4..]) && 1 <= DigitsValue(r[n + 4..]) <= 31
  {
    PadStart2TwoDigits(d.month);
    PadStart2TwoDigits(d.day);
    TwoDigitsValue(PadStart2(d.month));
    TwoDigitsValue(PadStart2(d.day));
  }

  /** A formatted date passes the validation pattern exactly when its year has four digits. */
  lemma FormatNoteDateValidates(d: Date)
    requires Valid(d)
    ensures ValidateDateFormat(FormatNoteDate(d)) <==> 1000 <= d.year <= 9999
  {
    FormatNoteDateParts(d);
    var r := FormatNoteDate(d);
    if d.year < 0 {
      assert r[0] == '-';
      assert !IsDigit(r[..4][0]);
    } else {
      NatToStringLength(d.year, 4);
      assert Pow10(3) == 1000 && Pow10(4) == 10000;
      if 1000 <= d.year <= 9999 {
        assert r[..4] == IntToString(d.year);
        assert r[5..7] == PadStart2(d.month);
        assert r[8..] == PadStart2(d.day);
      }
    }
  }

  /** Reading a four-digit-year formatted date back gives the date. */
  lemma FormatNoteDateRoundTrip(d: Date)
    requires Valid(d) && 1000 <= d.year <= 9999
    ensures ValidateDateFormat(FormatNoteDate(d))
    ensures ParseNoteDate(FormatNoteDate(d)) == d
  {
    FormatNoteDateValidates(d);
    FormatNoteDateParts(d);
    NatToStringLength(d.year, 4);
    assert Pow10(3) == 1000 && Pow10(4) == 10000;
    var r := FormatNoteDate(d);
    assert r[..4] == NatToString(d.year);
    NatToStringValue(d.year);
    PadStart2TwoDigits(d.month);
    PadStart2TwoDigits(d.day);
    TwoDigitsValue(PadStart2(d.month));
    TwoDigitsValue(PadStart2(d.day));
  }

  /** Distinct dates with four-digit years format differently. */
  lemma FormatNoteDateInjective(a: Date, b: Date)
    requires Valid(a) && 1000 <= a.year <= 9999
    requires Valid(b) && 1000 <= b.year <= 9999
    requires FormatNoteDate(a) == FormatNoteDate(b)
    ensures a == b
  {
    FormatNoteDateRoundTrip(a);
    FormatNoteDateRoundTrip(b);
  }

  /** The timestamp is the note date, a space, and three two-digit clock fields that read back. */
  lemma FormatTimestampParts(d: Date, t: TimeOfDay)
    requires Valid(d) && ValidTime(t)
    ensures var r := FormatTimestamp(d, t); var n := |FormatNoteDate(d)|;
      && |r| == n + 9
      && r[..n] == FormatNoteDate(d) && r[n] == ' ' && r[n + 3] == ':' && r[n + 6] == ':'
      && AllDigits(r[n + 1..n + 3]) && DigitsValue(r[n + 1..n + 3]) == t.hour
      && AllDigits(r[n + 4..n + 6]) && DigitsValue(r[n + 4..n + 6]) == t.minute
      && AllDigits(r[n + 7..]) && DigitsValue(r[n + 7..]) == t.second
  {
    var r := FormatTimestamp(d, t);
    var n := |FormatNoteDate(d)|;
    PadStart2TwoDigits(t.hour);
    PadStart2TwoDigits(t.minute);
    PadStart2TwoDigits(t.second);
    TwoDigitsValue(PadStart2(t.hour));
    TwoDigitsValue(PadStart2(t.minute));
    TwoDigitsValue(PadStart2(t.second));
    assert r[n + 1..n + 3] == PadStart2(t.hour);
    assert r[n + 4..n + 6] == PadStart2(t.minute);
    assert r[n + 7..] == PadStart2(t.second);
  }
}
