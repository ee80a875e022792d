/**
 * What the `do` and `see` commands share before they touch a note: their
 * options and the day those options pick.  Both commands read the clock the
 * same way; here today's date is a parameter.
 */
module Commands {
  import opened Options
  import opened Dates
  import DateUtils

  /** `--yester` and `--date`; an explicit date is taken as an already parsed calendar day. */
  datatype DayOptions = DayOptions(yester: bool, date: Option<Date>)

  predicate ValidOptions(options: DayOptions) {
    options.date.Some? ==> Valid(options.date.value)
  }

  /** `MANDA_DIR` as the commands test it: unset and empty are both falsy, and both fail. */
  predicate RootSet(root: Option<string>) {
    root.Some? && root.value != ""
  }

  /** The day `execute` picks: the explicit date, else yesterday when asked, else today. */
  function ChosenDate(options: DayOptions, today: Date): (d: Date)
    requires Valid(today) && ValidOptions(options)
    ensures Valid(d)
    ensures options.date.Some? ==> d == options.date.value
    ensures options.date.None? && options.yester ==> DayNumber(d) == DayNumber(today) - 1
    ensures options.date.None? && !options.yester ==> d == today
  {
    if options.date.Some? then options.date.value
    else if options.yester then DateUtils.GetYesterdayFromToday(today)
    else today
  }
}
