/**
 * The original client-style bot (honkbot.py): the `on_message` dispatcher,
 * the `!insult` and `!join` argument handling, and the `!eamuse`
 * maintenance report computed from the third Monday of the UTC month.
 *
 * "Now" is an instant passed in (seconds since the epoch, UTC), and
 * America/New_York is EST or EDT, chosen by the caller.
 */
module HonkbotClient {
  import opened Wrappers
  import opened Text
  import opened Calendar

  /** `command_list`, as listed by `!help`. */
  const CommandList: seq<string> := ["!join", "!image", "!youtube", "!ranatalus", "!eamuse", "!help", "!insult"]

  const CommandsText := "Commands are: " + Join(CommandList, ", ")

  // ---------------------------------------------------------------------
  // The maintenance schedule.
  // ---------------------------------------------------------------------

  /** An `eamuse_maintenance` entry: its begin and end as "HH:MM". */
  datatype Window = Window(begin: string, end: string)

  const NormalWindow := Window("20:00", "22:00")
  const ExtendedWindow := Window("17:00", "22:00")
  const UsWindow := Window("12:00", "17:00")

  /** `int(t.split(":")[0])`; `None` stands for the `ValueError` of a malformed entry. */
  function HourOf(t: string): Option<nat> {
    ParseInt(Split(t, ':')[0])
  }

  /** The hour of an entry written "HH:00" is HH. */
  lemma HourOfClock(h: nat)
    requires h < 100
    ensures HourOf(Pad2(h) + ":00") == Some(h)
  {
    var t := Pad2(h) + ":00";
    assert t == Pad2(h) + [':'] + "00";
    SplitAfterPiece(Pad2(h), ':', "00");
    ParsePad2(h);
  }

  /** The hours of the three configured windows. */
  lemma ScheduleHours()
    ensures HourOf(NormalWindow.begin) == Some(20) && HourOf(NormalWindow.end) == Some(22)
    ensures HourOf(ExtendedWindow.begin) == Some(17) && HourOf(ExtendedWindow.end) == Some(22)
    ensures HourOf(UsWindow.begin) == Some(12) && HourOf(UsWindow.end) == Some(17)
  {
    assert Pad2(20) + ":00" == "20:00";
    assert Pad2(22) + ":00" == "22:00";
    assert Pad2(17) + ":00" == "17:00";
    assert Pad2(12) + ":00" == "12:00";
    HourOfClock(20);
    HourOfClock(22);
    HourOfClock(17);
    HourOfClock(12);
  }

  // ---------------------------------------------------------------------
  // The third Monday of the month.
  // ---------------------------------------------------------------------

  /** `(0 - bom) % 7 + 1`: the day of the first Monday when the 1st falls on weekday `bom`. */
  function FirstMonday(bom: int): (day: int)
    requires 0 <= bom < 7
    ensures 1 <= day <= 7
    ensures (bom + day - 1) % 7 == 0
  {
    (0 - bom) % 7 + 1
  }

  /** `range(start, stop, step)` for a positive step: start, start + step, ... while below stop. */
  function Range(start: int, stop: int, step: int): (r: seq<int>)
    requires step > 0
    ensures |r| == 0 <==> start >= stop
    ensures forall k :: 0 <= k < |r| ==> r[k] == start + k * step && r[k] < stop
    ensures |r| > 0 ==> r[|r| - 1] + step >= stop
    decreases stop - start
  {
    if start >= stop then [] else [start] + Range(start + step, stop, step)
  }

  /** The day `FirstMonday` gives is a Monday of that month, and the first one. */
  lemma FirstMondayIsMonday(y: int, m: int)
    requires 1 <= m <= 12
    ensures var day := FirstMonday(MonthRange(y, m).0);
      DateWeekday(Date(y, m, day)) == 0 && IsNthWeekday(Date(y, m, day), 1)
  {
    var bom := MonthRange(y, m).0;
    var day := FirstMonday(bom);
    DaysWithinMonth(y, m, day);
    NthWeekdayIff(Date(y, m, day), 1);
  }

  /** `d` is the third Monday of its month. */
  predicate IsThirdMonday(d: Date) {
    DateWeekday(d) == 0 && IsNthWeekday(d, 3)
  }

  /** In a month of at least 28 days the Mondays from `first` have a third, `first + 14`. */
  lemma MondaysHaveThird(first: int, days: int)
    requires 1 <= first <= 7 && 28 <= days
    ensures |Range(first, days + 1, 7)| >= 3
    ensures Range(first, days + 1, 7)[2] == first + 14
  {
    var r := Range(first, days + 1, 7);
    assert r[0] == first;
  }

  /** The Monday two weeks after the first Monday is the third Monday, in a month of 28 days or more. */
  lemma FirstMondayPlusTwoWeeks(y: int, m: int)
    requires 1 <= m <= 12
    ensures 28 <= MonthRange(y, m).1
    ensures IsThirdMonday(Date(y, m, FirstMonday(MonthRange(y, m).0) + 14))
  {
    var first := FirstMonday(MonthRange(y, m).0);
    DaysWithinMonth(y, m, first);
    DaysWithinMonth(y, m, first + 14);
    NthWeekdayIff(Date(y, m, first + 14), 3);
  }

  /**
   * `range(first_monday, days + 1, 7)[2]` with `bom, days = monthrange(y, m)`:
   * the list always has a third element, `first_monday + 14`, which is a day
   * from 15 to 21 and the month's third Monday.
   */
  function ThirdMonday(y: int, m: int): (day: int)
    requires 1 <= m <= 12
    ensures day == FirstMonday(MonthRange(y, m).0) + 14
    ensures 15 <= day <= 21 && IsThirdMonday(Date(y, m, day))
  {
    var (bom, days) := MonthRange(y, m);
    FirstMondayPlusTwoWeeks(y, m);
    MondaysHaveThird(FirstMonday(bom), days);
    Range(FirstMonday(bom), days + 1, 7)[2]
  }

  /** Two days from 15 to 21 of one month on the same weekday are the same day. */
  lemma OneWeekdayPerWeek(y: int, m: int, a: int, b: int)
    requires 15 <= a <= 21 && 15 <= b <= 21
    requires DateWeekday(Date(y, m, a)) == DateWeekday(Date(y, m, b))
    ensures a == b
  {
    SameWeekdayInMonth(y, m, b, a);
  }

  /** A date is the day `ThirdMonday` picks exactly when it is the third Monday of its month. */
  lemma ThirdMondayIff(d: Date)
    requires ValidDate(d)
    ensures d.day == ThirdMonday(d.year, d.month) <==> IsThirdMonday(d)
  {
    var third := ThirdMonday(d.year, d.month);
    NthWeekdayIff(d, 3);
    assert d == Date(d.year, d.month, d.day);
    if IsThirdMonday(d) {
      OneWeekdayPerWeek(d.year, d.month, d.day, third);
    }
  }

  // ---------------------------------------------------------------------
  // Window membership.
  // ---------------------------------------------------------------------

  /**
   * `t.replace(hour=h, minute=0)` on a clock `offset` seconds east of UTC:
   * the same local date and second, the hour set to `h` and the minute to 0.
   */
  function ReplaceHour(t: int, offset: int, h: int): (r: int)
    requires 0 <= h < 24
    ensures LocalDay(r, offset) == LocalDay(t, offset)
    ensures LocalSecondOfDay(r, offset) == h * SecondsPerHour + LocalSecondOfDay(t, offset) % SecondsPerMinute
  {
    var s := LocalSecondOfDay(t, offset);
    var r := t - s + h * SecondsPerHour + s % SecondsPerMinute;
    assert r + offset == LocalDay(t, offset) * SecondsPerDay + (h * SecondsPerHour + s % SecondsPerMinute);
    r
  }

  /** Minute `m` of the day lies from the start of hour `b` to the start of hour `e`, both included. */
  predicate MinuteIn(m: int, b: int, e: int) {
    60 * b <= m <= 60 * e
  }

  /** `begin_time <= now <= end_time`, both bounds on the clock at `offset`. */
  predicate InWindow(now: int, offset: int, b: int, e: int)
    requires 0 <= b < 24 && 0 <= e < 24
  {
    ReplaceHour(now, offset, b) <= now <= ReplaceHour(now, offset, e)
  }

  /**
   * Because the seconds are kept, a window is active from hh:00:00 of its
   * first hour through hh:00:59 of its last: membership is by minute.
   */
  lemma InWindowByMinute(now: int, offset: int, b: int, e: int)
    requires 0 <= b < 24 && 0 <= e < 24
    ensures InWindow(now, offset, b, e) <==> MinuteIn(LocalMinuteOfDay(now, offset), b, e)
  {
    var s := LocalSecondOfDay(now, offset);
    LocalSplit(now, offset);
    LocalSplit(ReplaceHour(now, offset, b), offset);
    LocalSplit(ReplaceHour(now, offset, e), offset);
    assert s == 60 * (s / 60) + s % 60;
  }

  /** The last second of the end hour's first minute is still inside; the next one is not. */
  lemma WindowEndsAfterFirstMinute(day: int, offset: int, b: int, e: int)
    requires 0 <= b <= e < 24
    ensures InWindow(day * SecondsPerDay + e * SecondsPerHour + 59 - offset, offset, b, e)
    ensures !InWindow(day * SecondsPerDay + e * SecondsPerHour + 60 - offset, offset, b, e)
  {
    LocalClock(day, e * SecondsPerHour + 59, offset);
    LocalClock(day, e * SecondsPerHour + 60, offset);
    InWindowByMinute(day * SecondsPerDay + e * SecondsPerHour + 59 - offset, offset, b, e);
    InWindowByMinute(day * SecondsPerDay + e * SecondsPerHour + 60 - offset, offset, b, e);
  }

  // ---------------------------------------------------------------------
  // The report.
  // ---------------------------------------------------------------------

  /** `strftime("%H:%M")` of instant `t` on the clock at `offset`. */
  function ClockText(t: int, offset: int): string {
    Pad2(LocalHour(t, offset)) + ":" + Pad2(LocalMinuteOfDay(t, offset) % 60)
  }

  function Mark(active: bool): string {
    if active then ":x:" else ":white_check_mark:"
  }

  const NoDdrLine := "DDR: :white_check_mark: - no maintenance today"
  const NoOtherLine := "Other: :white_check_mark: - no maintenance today"

  function DdrLine(active: bool, w: Window): string {
    "DDR: " + Mark(active) + " - " + w.begin + "-" + w.end
  }

  function OtherLine(active: bool, hours: string): string {
    "Other: " + Mark(active) + " - " + hours
  }

  /** UTC hour `h` shown in Eastern time as "HH:00". */
  function EasternClock(h: int, eastern: Eastern): string
    requires 0 <= h < 24
  {
    Pad2((h + eastern.Hours()) % 24) + ":00"
  }

  /**
   * What `!eamuse` reports for DDR, stated directly: on the third Monday of
   * the UTC month the US window, active on whole minutes from 12:00 to 17:00
   * Eastern; on any other day no maintenance.
   */
  function DdrStatus(thirdMonday: bool, now: int, eastern: Eastern): string {
    if thirdMonday then
      DdrLine(MinuteIn(LocalMinuteOfDay(now, eastern.Offset()), 12, 17), UsWindow)
    else NoDdrLine
  }

  /**
   * What `!eamuse` reports for the other games: on the third Monday of the
   * UTC month the extended window 17-22 UTC; otherwise none on a Friday or
   * Saturday in New York, and the normal window 20-22 UTC on other days. A
   * window is active on whole minutes from its first hour to its last.
   */
  function OtherStatus(thirdMonday: bool, now: int, eastern: Eastern): string {
    var utcMinute := LocalMinuteOfDay(now, 0);
    if thirdMonday then
      OtherLine(MinuteIn(utcMinute, 17, 22), EasternClock(17, eastern) + "-" + EasternClock(22, eastern))
    else if LocalWeekday(now, eastern.Offset()) in {4, 5} then NoOtherLine
    else OtherLine(MinuteIn(utcMinute, 20, 22), EasternClock(20, eastern) + "-" + EasternClock(22, eastern))
  }

  /** A UTC hour on today's date, shown on the Eastern clock. */
  lemma ClockOfUtcHour(now: int, h: int, eastern: Eastern)
    requires 0 <= h < 24
    ensures ClockText(ReplaceHour(now, 0, h), eastern.Offset()) == EasternClock(h, eastern)
  {
    var r := ReplaceHour(now, 0, h);
    var s := LocalSecondOfDay(now, 0) % SecondsPerMinute;
    var k := eastern.Hours();
    var day := LocalDay(now, 0);
    LocalSplit(now, 0);
    assert r == day * SecondsPerDay + h * SecondsPerHour + s;
    var hh := (h + k) % 24;
    if h + k >= 0 {
      assert hh == h + k;
      assert r == day * SecondsPerDay + hh * SecondsPerHour + s - k * SecondsPerHour;
      ClockOnTheHour(day, hh, s, eastern.Offset());
    } else {
      assert hh == h + k + 24;
      assert r == (day - 1) * SecondsPerDay + hh * SecondsPerHour + s - k * SecondsPerHour;
      ClockOnTheHour(day - 1, hh, s, eastern.Offset());
    }
  }

  /** Within the first minute of hour `hh`, the clock shows "hh:00". */
  lemma ClockOnTheHour(day: int, hh: int, s: int, offset: int)
    requires 0 <= hh < 24 && 0 <= s < 60
    ensures ClockText(day * SecondsPerDay + hh * SecondsPerHour + s - offset, offset) == Pad2(hh) + ":00"
  {
    LocalClock(day, hh * SecondsPerHour + s, offset);
    var t := day * SecondsPerDay + hh * SecondsPerHour + s - offset;
    assert LocalSecondOfDay(t, offset) == hh * SecondsPerHour + s;
    assert LocalMinuteOfDay(t, offset) == 60 * hh;
    assert Pad2(0) == "00";
  }

  /** An entry whose both ends parse as hours of the day. */
  predicate WellFormed(w: Window) {
    HourOf(w.begin).Some? && HourOf(w.begin).value < 24
    && HourOf(w.end).Some? && HourOf(w.end).value < 24
  }

  /** The "DDR" line for window `w`, on the Eastern wall clock. */
  method DdrReport(now: int, eastern: Eastern, w: Window) returns (line: string)
    requires WellFormed(w)
    ensures var (b, e) := (HourOf(w.begin).value, HourOf(w.end).value);
      line == DdrLine(MinuteIn(LocalMinuteOfDay(now, eastern.Offset()), b, e), w)
  {
    var b := HourOf(w.begin).value;
    var e := HourOf(w.end).value;
    var beginTime := ReplaceHour(now, eastern.Offset(), b);
    var endTime := ReplaceHour(now, eastern.Offset(), e);
    InWindowByMinute(now, eastern.Offset(), b, e);
    line := DdrLine(beginTime <= now <= endTime, w);
  }

  /** The "Other" line for window `w`, whose hours are UTC, shown on the Eastern clock. */
  method OtherReport(now: int, eastern: Eastern, w: Window) returns (line: string)
    requires WellFormed(w)
    ensures var (b, e) := (HourOf(w.begin).value, HourOf(w.end).value);
      line == OtherLine(MinuteIn(LocalMinuteOfDay(now, 0), b, e),
                        EasternClock(b, eastern) + "-" + EasternClock(e, eastern))
  {
    var b := HourOf(w.begin).value;
    var e := HourOf(w.end).value;
    var beginTime := ReplaceHour(now, 0, b);
    var endTime := ReplaceHour(now, 0, e);
    InWindowByMinute(now, 0, b, e);
    ClockOfUtcHour(now, b, eastern);
    ClockOfUtcHour(now, e, eastern);
    var shown := ClockText(beginTime, eastern.Offset()) + "-" + ClockText(endTime, eastern.Offset());
    line := OtherLine(beginTime <= now <= endTime, shown);
  }

  /** `today.day == third_monday`, computed as the bot does. */
  method CompareThirdMonday(today: Date) returns (b: bool)
    requires ValidDate(today)
    ensures b <==> IsThirdMonday(today)
  {
    var thirdMonday := ThirdMonday(today.year, today.month);
    ThirdMondayIff(today);
    b := today.day == thirdMonday;
  }

  /**
   * The first half of `get_eamuse_maintenance`: the `maint` table of the
   * windows in force on today's UTC date.
   */
  method ChooseWindows(now: int) returns (maint: map<string, Option<Window>>)
    ensures maint.Keys == {"ddr", "other"}
    ensures maint["ddr"] == if IsThirdMonday(LocalDate(now, 0)) then Some(UsWindow) else None
    ensures maint["other"] == Some(if IsThirdMonday(LocalDate(now, 0)) then ExtendedWindow else NormalWindow)
  {
    maint := map[];
    var today := LocalDate(now, 0);
    var thirdMondayToday := CompareThirdMonday(today);
    if thirdMondayToday {
      maint := maint["ddr" := Some(UsWindow)];
      maint := maint["other" := Some(ExtendedWindow)];
    } else {
      maint := maint["ddr" := None];
      maint := maint["other" := Some(NormalWindow)];
    }
  }

  /** The table `maint` can hold: the third-Monday windows or the ordinary ones. */
  predicate ValidMaint(maint: map<string, Option<Window>>) {
    maint.Keys == {"ddr", "other"}
    && ((maint["ddr"] == Some(UsWindow) && maint["other"] == Some(ExtendedWindow))
        || (maint["ddr"] == None && maint["other"] == Some(NormalWindow)))
  }

  /** The second half of `get_eamuse_maintenance`: the lines sent for the table `maint`. */
  method ReportWindows(now: int, eastern: Eastern, maint: map<string, Option<Window>>) returns (messages: seq<string>)
    requires ValidMaint(maint)
    ensures messages == [DdrStatus(maint["ddr"].Some?, now, eastern), OtherStatus(maint["ddr"].Some?, now, eastern)]
  {
    if maint["ddr"].Some? {
      messages := ReportThirdMonday(now, eastern, maint["ddr"].value, maint["other"].value);
    } else {
      messages := ReportOrdinaryDay(now, eastern, maint["other"].value);
    }
  }

  /** The lines sent when `maint` holds a DDR window: it and the other window, in that order. */
  method ReportThirdMonday(now: int, eastern: Eastern, ddr: Window, other: Window) returns (messages: seq<string>)
    requires ddr == UsWindow && other == ExtendedWindow
    ensures messages == [DdrStatus(true, now, eastern), OtherStatus(true, now, eastern)]
  {
    messages := [];
    var ddrLine := UsReport(now, eastern, ddr);
    messages := messages + [ddrLine];
    var otherLine := ExtendedReport(now, eastern, other);
    messages := messages + [otherLine];
  }

  /** The DDR line for the third-Monday window. */
  method UsReport(now: int, eastern: Eastern, ddr: Window) returns (line: string)
    requires ddr == UsWindow
    ensures line == DdrStatus(true, now, eastern)
  {
    ScheduleHours();
    line := DdrReport(now, eastern, ddr);
  }

  /** The other games' line for the extended window. */
  method ExtendedReport(now: int, eastern: Eastern, other: Window) returns (line: string)
    requires other == ExtendedWindow
    ensures line == OtherStatus(true, now, eastern)
  {
    ScheduleHours();
    line := OtherReport(now, eastern, other);
  }

  /** The lines sent when `maint` holds no DDR window: none for DDR, then the Friday/Saturday rule. */
  method ReportOrdinaryDay(now: int, eastern: Eastern, other: Window) returns (messages: seq<string>)
    requires other == NormalWindow
    ensures messages == [DdrStatus(false, now, eastern), OtherStatus(false, now, eastern)]
  {
    messages := [NoDdrLine];
    var otherLine := OrdinaryReport(now, eastern, other);
    messages := messages + [otherLine];
  }

  /** The other games' line on an ordinary day: none on a Friday or Saturday in New York. */
  method OrdinaryReport(now: int, eastern: Eastern, other: Window) returns (line: string)
    requires other == NormalWindow
    ensures line == OtherStatus(false, now, eastern)
  {
    if LocalWeekday(now, eastern.Offset()) in {4, 5} {
      line := NoOtherLine;
    } else {
      ScheduleHours();
      line := OtherReport(now, eastern, other);
    }
  }

  /** `get_eamuse_maintenance`: the two lines it sends, in order. */
  method GetEamuseMaintenance(now: int, eastern: Eastern) returns (messages: seq<string>)
    ensures var thirdMonday := IsThirdMonday(LocalDate(now, 0));
      messages == [DdrStatus(thirdMonday, now, eastern), OtherStatus(thirdMonday, now, eastern)]
  {
    var maint := ChooseWindows(now);
    messages := ReportWindows(now, eastern, maint);
  }

  // ---------------------------------------------------------------------
  // Message dispatch.
  // ---------------------------------------------------------------------

  /** A message as `on_message` sees it; `fromSelf` when the bot itself wrote it. */
  datatype Message = Message(content: string, authorName: string, fromSelf: bool)

  /** The commands `on_message` tests for, each by its prefix. */
  datatype Command = TestCmd | JoinCmd | HelpCmd | YoutubeCmd | ImageCmd | InsultCmd | RanatalusCmd | RecordCmd | EamuseCmd

  function Prefix(c: Command): string {
    match c
    case TestCmd => "!test"
    case JoinCmd => "!join"
    case HelpCmd => "!help"
    case YoutubeCmd => "!youtube"
    case ImageCmd => "!image"
    case InsultCmd => "!insult"
    case RanatalusCmd => "!ranatalus"
    case RecordCmd => "!record"
    case EamuseCmd => "!eamuse"
  }

  /** The `if`/`elif` chain of `on_message`: the first command whose prefix the text starts with. */
  function CommandOf(content: string): Option<Command> {
    if StartsWith(content, "!test") then Some(TestCmd)
    else if StartsWith(content, "!join") then Some(JoinCmd)
    else if StartsWith(content, "!help") then Some(HelpCmd)
    else if StartsWith(content, "!youtube") then Some(YoutubeCmd)
    else if StartsWith(content, "!image") then Some(ImageCmd)
    else if StartsWith(content, "!insult") then Some(InsultCmd)
    else if StartsWith(content, "!ranatalus") then Some(RanatalusCmd)
    else if StartsWith(content, "!record") then Some(RecordCmd)
    else if StartsWith(content, "!eamuse") then Some(EamuseCmd)
    else None
  }

  /** The command named by the first three characters of a prefix, which tell the prefixes apart. */
  function CommandOfHead(h: string): Option<Command> {
    if h == "!te" then Some(TestCmd)
    else if h == "!jo" then Some(JoinCmd)
    else if h == "!he" then Some(HelpCmd)
    else if h == "!yo" then Some(YoutubeCmd)
    else if h == "!im" then Some(ImageCmd)
    else if h == "!in" then Some(InsultCmd)
    else if h == "!ra" then Some(RanatalusCmd)
    else if h == "!re" then Some(RecordCmd)
    else if h == "!ea" then Some(EamuseCmd)
    else None
  }

  /** Every prefix is at least three characters long and its first three name its command. */
  lemma PrefixHead(c: Command)
    ensures |Prefix(c)| >= 3 && CommandOfHead(Prefix(c)[..3]) == Some(c)
  {
    match c
    case TestCmd => assert Prefix(c)[..3] == "!te";
    case JoinCmd => assert Prefix(c)[..3] == "!jo";
    case HelpCmd => assert Prefix(c)[..3] == "!he";
    case YoutubeCmd => assert Prefix(c)[..3] == "!yo";
    case ImageCmd => assert Prefix(c)[..3] == "!im";
    case InsultCmd => assert Prefix(c)[..3] == "!in";
    case RanatalusCmd => assert Prefix(c)[..3] == "!ra";
    case RecordCmd => assert Prefix(c)[..3] == "!re";
    case EamuseCmd => assert Prefix(c)[..3] == "!ea";
  }

  /** No text starts with the prefixes of two different commands. */
  lemma PrefixesExclusive(content: string, c: Command, d: Command)
    requires StartsWith(content, Prefix(c)) && StartsWith(content, Prefix(d))
    ensures c == d
  {
    PrefixHead(c);
    PrefixHead(d);
    assert Prefix(c)[..3] == content[..3] == Prefix(d)[..3];
  }

  /** What `CommandOf` picks is a command whose prefix the text starts with. */
  lemma CommandOfMatches(content: string)
    ensures CommandOf(content).Some? ==> StartsWith(content, Prefix(CommandOf(content).value))
  {
  }

  /**
   * The order of the chain does not matter: the text names a command exactly
   * when it starts with that command's prefix, and names none when it starts
   * with no prefix.
   */
  lemma CommandOfIff(content: string, c: Command)
    ensures CommandOf(content) == Some(c) <==> StartsWith(content, Prefix(c))
    ensures CommandOf(content) == None <==> forall d: Command :: !StartsWith(content, Prefix(d))
  {
    CommandOfMatches(content);
    if StartsWith(content, Prefix(c)) && CommandOf(content).Some? {
      PrefixesExclusive(content, c, CommandOf(content).value);
    }
    if CommandOf(content).Some? {
      assert StartsWith(content, Prefix(CommandOf(content).value));
    } else {
      forall d: Command ensures !StartsWith(content, Prefix(d)) {
        match d
        case TestCmd =>
        case JoinCmd =>
        case HelpCmd =>
        case YoutubeCmd =>
        case ImageCmd =>
        case InsultCmd =>
        case RanatalusCmd =>
        case RecordCmd =>
        case EamuseCmd =>
      }
    }
  }

  /** What `on_message` does with a message. */
  datatype Reply =
    | NoReply
      /** Sent to the author directly. */
    | ToAuthor(text: string)
      /** Sent to the channel, in order. */
    | ToChannel(lines: seq<string>)
      /** `get_insult(message, name)`: an insult fetched over HTTP, about `name`. */
    | Insult(name: string)
      /** `!youtube`, `!image` and `!record`: searches of web services. */
    | Search(command: Command)

  /** `message.content.lower().split(" ")[1]`, if the lowered text has a second piece. */
  function InsultTarget(content: string): Option<string> {
    var words := Split(Lower(content), ' ');
    if |words| > 1 then Some(words[1]) else None
  }

  /**
   * There is someone to insult exactly when the text holds a space; the name
   * is the lowered text's piece between its first space and the next one or
   * the end.
   */
  lemma InsultTargetIff(content: string)
    ensures InsultTarget(content).Some? <==> ' ' in content
    ensures InsultTarget(content).Some? ==>
      var name := InsultTarget(content).value;
      ' ' !in name
      && exists first, rest :: Lower(content) == first + " " + name + rest
                               && ' ' !in first && (rest == [] || rest[0] == ' ')
  {
    var lowered := Lower(content);
    OccurrencesIn(lowered, ' ');
    LowerSpaces(content);
    if ' ' in content {
      SplitPiecesFree(lowered, ' ', 0);
      SplitPiecesFree(lowered, ' ', 1);
      SplitShape(lowered, ' ');
    }
  }

  /** `allowed_roles` of `set_channel_role`. */
  const AllowedRoles: seq<string> := ["OH", "MI", "KY", "PA", "IN", "NY"]

  const JoinUsage := "Usage: !join [" + Join(AllowedRoles, ", ") + "]"
  const JoinAllowed := "Allowed roles are: " + Join(AllowedRoles, ", ")

  /**
   * The checks of `set_channel_role`: exactly two space-separated pieces, the
   * second one of the allowed roles, spelled exactly. `Ok` carries the role.
   */
  function ChannelRole(content: string): Result<string, string> {
    var words := Split(content, ' ');
    if |words| != 2 then Err(JoinUsage)
    else if words[1] !in AllowedRoles then Err(JoinAllowed)
    else Ok(words[1])
  }

  /** The usage message answers exactly the texts without exactly one space. */
  lemma ChannelRoleUsage(content: string)
    ensures ChannelRole(content) == Err(JoinUsage) <==> Occurrences(content, ' ') != 1
  {
    if Occurrences(content, ' ') == 1 {
      JoinAllowedNotUsage();
    }
  }

  /** The two error messages differ. */
  lemma JoinAllowedNotUsage()
    ensures JoinAllowed != JoinUsage
  {
    assert JoinAllowed[0] == 'A' && JoinUsage[0] == 'U';
  }

  /** By `ChannelRole`, a role is granted for `word + " " + role` and nothing else. */
  lemma ChannelRoleIff(content: string, role: string)
    ensures ChannelRole(content) == Ok(role) <==>
      role in AllowedRoles && exists word :: ' ' !in word && content == word + " " + role
  {
    if ChannelRole(content) == Ok(role) {
      var words := Split(content, ' ');
      SplitShape(content, ' ');
      SplitPiecesFree(content, ' ', 0);
      assert content == words[0] + " " + role;
    }
    if role in AllowedRoles && exists word :: ' ' !in word && content == word + " " + role {
      var word :| ' ' !in word && content == word + " " + role;
      RolesHaveNoSpace(role);
      SplitAfterPiece(word, ' ', role);
      SplitFree(role, ' ');
      assert Split(content, ' ') == [word, role];
    }
  }

  /** No allowed role holds a space. */
  lemma RolesHaveNoSpace(role: string)
    requires role in AllowedRoles
    ensures ' ' !in role
  {
  }

  /** The message `set_channel_role` sends for a text from `author`. */
  function JoinReply(content: string, author: string): string {
    match ChannelRole(content)
    case Ok(role) => "Adding " + author + " to " + role
    case Err(text) => text
  }

  /** The two lines `!eamuse` sends at `now`. */
  function EamuseLines(now: int, eastern: Eastern): seq<string> {
    var thirdMonday := IsThirdMonday(LocalDate(now, 0));
    [DdrStatus(thirdMonday, now, eastern), OtherStatus(thirdMonday, now, eastern)]
  }

  /** What each command does. */
  function Handle(c: Command, m: Message, now: int, eastern: Eastern): Reply {
    match c
    case TestCmd => ToAuthor("test")
    case JoinCmd => ToChannel([JoinReply(m.content, m.authorName)])
    case HelpCmd => ToChannel([CommandsText])
    case YoutubeCmd => Search(YoutubeCmd)
    case ImageCmd => Search(ImageCmd)
    case InsultCmd =>
      (match InsultTarget(m.content)
       case Some(name) => Insult(name)
       case None => ToChannel(["No one to insult :("]))
    case RanatalusCmd => Insult("ranatalus")
    case RecordCmd => Search(RecordCmd)
    case EamuseCmd => ToChannel(EamuseLines(now, eastern))
  }

  /**
   * `on_message`: a command prefix first; then "honk" anywhere, in any case,
   * from someone other than the bot; then the command list for any other
   * text that starts with "!".
   */
  function OnMessage(m: Message, now: int, eastern: Eastern): Reply {
    match CommandOf(m.content)
    case Some(c) => Handle(c, m, now, eastern)
    case None =>
      if Contains(Lower(m.content), "honk") && !m.fromSelf then
        ToChannel([if Contains(m.authorName, "Skeeter") then "beep" else "HONK!"])
      else if StartsWith(m.content, "!") then ToChannel([CommandsText])
      else NoReply
  }

  /** The bot answers every text that starts with "!", and otherwise only a honk from someone else. */
  lemma OnMessageAnswers(m: Message, now: int, eastern: Eastern)
    ensures OnMessage(m, now, eastern) == NoReply <==>
      !StartsWith(m.content, "!") && !(Contains(Lower(m.content), "honk") && !m.fromSelf)
  {
    if CommandOf(m.content).Some? {
      CommandOfMatches(m.content);
      var c := CommandOf(m.content).value;
      assert Prefix(c)[0] == '!';
    }
  }

  /** The bot never honks at its own messages. */
  lemma NoSelfHonk(m: Message, now: int, eastern: Eastern)
    requires m.fromSelf
    ensures OnMessage(m, now, eastern) != ToChannel(["HONK!"])
    ensures OnMessage(m, now, eastern) != ToChannel(["beep"])
  {
  }
}
