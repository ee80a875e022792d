/**
 * The shared date helpers: the next day, yesterday relative to an injected
 * "today", and the day-granularity "not after today" test.  `formatDateForTitle`
 * computes exactly `Config.FormatNoteDate`.
 */
module DateUtils {
  import opened Dates

  /** `getNextDate`: a fresh date exactly one calendar day later. */
  function GetNextDate(d: Date): (r: Date)
    requires Valid(d)
    ensures Valid(r) && DayNumber(r) == DayNumber(d) + 1
  {
    NextDayNumber(d);
    NextDay(d)
  }

  /** `getYesterdayFromToday`, with today passed in: one calendar day earlier. */
  function GetYesterdayFromToday(today: Date): (r: Date)
    requires Valid(today)
    ensures Valid(r) && DayNumber(r) == DayNumber(today) - 1
    ensures GetNextDate(r) == today
  {
    PrevDayNumber(today);
    PrevNextInverse(today);
    PrevDay(today)
  }

  /** `isDateBeforeOrEqualToday`: both sides cut to midnight, so only the calendar day counts. */
  function IsDateBeforeOrEqualToday(d: Date, today: Date): (r: bool)
    requires Valid(d) && Valid(today)
    ensures r <==> DayNumber(d) <= DayNumber(today)
  {
    AtOrBeforeIffDayNumber(d, today);
    AtOrBefore(d, today)
  }

  /** Today passes the test and tomorrow does not. */
  lemma TodayIsLastAllowed(today: Date)
    requires Valid(today)
    ensures IsDateBeforeOrEqualToday(today, today)
    ensures !IsDateBeforeOrEqualToday(GetNextDate(today), today)
  {
  }
}
