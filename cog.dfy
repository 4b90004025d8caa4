/**
 * The slash-command cog of the bot (bots/honkbot.py): the e-amusement
 * maintenance calculator behind `/eamuse` and the role lookup behind
 * `/join` and `/leave`.
 *
 * "Now" is an instant passed in (seconds since the epoch, UTC); Japan is
 * UTC+9 and America/New_York is EST or EDT, chosen by the caller. The
 * weekday of the server's local clock (`datetime.today()`) is a parameter.
 */
module HonkbotCog {
  import opened Wrappers
  import opened Text
  import opened Calendar

  /** The roles a member may join or leave, in their canonical spelling. */
  const CustomRoles: seq<string> := [
    "AKR", "CIN", "CLE", "COL", "DAY", "TOL", "MI", "KY", "PA", "IN", "NY", "CA", "Canada", "EX-OH"
  ]

  // The fixed texts of the replies.
  const UsGames := "US Servers (DDR White, IIDX " + "Lightning)"
  const JpGames := "JP Servers (DDR Gold, IIDX " + "Classic, All Other)"
  const WebsiteDown := "Login to e-amusement website " + "unavailable during this time."
  const CardDown := "e-amusement card cannot be " + "used during this time."
  const NoMaintenance := ": **No maintenance today.**"
  const ExtendedIntro := "**Extended Maintenance today. " + "All games and e-amusement " + "websites under maintenance " + "from "
  const JapanIntro := "**Japanese game servers under " + "maintenance from "
  const WebsiteIntro := "**Website under maintenance " + "from "

  // ---------------------------------------------------------------------
  // Role lookup.
  // ---------------------------------------------------------------------

  /** The first role whose lower-case form is that of `input`. */
  function FindRole(roles: seq<string>, input: string): (r: Option<string>)
    ensures r.Some? ==> r.value in roles && Lower(r.value) == Lower(input)
    ensures r.None? <==> forall k :: 0 <= k < |roles| ==> Lower(roles[k]) != Lower(input)
    decreases |roles|
  {
    if |roles| == 0 then None
    else if Lower(input) == Lower(roles[0]) then Some(roles[0])
    else FindRole(roles[1..], input)
  }

  /**
   * `get_role_from_input`: the canonical name of the role the member typed,
   * in any case, or the list of allowed roles.
   */
  function GetRoleFromInput(input: string): (r: Result<string, string>)
    ensures r.Ok? <==> exists k :: 0 <= k < |CustomRoles| && Lower(CustomRoles[k]) == Lower(input)
    ensures r.Ok? ==> r.value in CustomRoles && Lower(r.value) == Lower(input)
    ensures r.Err? ==> r.error == "Allowed roles are: " + Join(CustomRoles, ", ")
  {
    match FindRole(CustomRoles, input)
    case Some(role) => Ok(role)
    case None => Err("Allowed roles are: " + Join(CustomRoles, ", "))
  }

  /** No two allowed roles differ only in case. */
  lemma CustomRolesCaseDistinct()
    ensures forall i, j :: 0 <= i < j < |CustomRoles| ==> Lower(CustomRoles[i]) != Lower(CustomRoles[j])
  {
    var lowered := ["akr", "cin", "cle", "col", "day", "tol", "mi", "ky", "pa", "in", "ny", "ca", "canada", "ex-oh"];
    forall k | 0 <= k < |CustomRoles|
      ensures Lower(CustomRoles[k]) == lowered[k]
    {
    }
  }

  /** Typing an allowed role in any case gives that role, spelled as configured. */
  lemma RoleLookupCanonical(input: string, k: int)
    requires 0 <= k < |CustomRoles| && Lower(input) == Lower(CustomRoles[k])
    ensures GetRoleFromInput(input) == Ok(CustomRoles[k])
  {
    CustomRolesCaseDistinct();
    var r := GetRoleFromInput(input);
    assert r.Ok?;
    var j :| 0 <= j < |CustomRoles| && CustomRoles[j] == r.value;
    assert Lower(CustomRoles[j]) == Lower(CustomRoles[k]);
  }

  // ---------------------------------------------------------------------
  // Maintenance windows.
  // ---------------------------------------------------------------------

  datatype Timing = Daily | Extended

  /** `eamuse_maintenance`: (begin hour, end hour) of each window, in UTC. */
  function MaintenanceHours(t: Timing): (int, int) {
    match t
    case Daily => (20, 22)
    case Extended => (17, 22)
  }

  /** Each window starts before it ends; both end together; the extended one starts earlier. */
  lemma ScheduleShape()
    ensures forall t: Timing :: MaintenanceHours(t).0 < MaintenanceHours(t).1
    ensures MaintenanceHours(Daily).1 == MaintenanceHours(Extended).1
    ensures MaintenanceHours(Extended).0 < MaintenanceHours(Daily).0
  {
  }

  /** The hour on the 12-hour clock that `strftime("%I")` shows for hour `h` of the day. */
  function Hour12(h: int): (r: nat)
    requires 0 <= h < 24
    ensures 1 <= r <= 12 && r % 12 == h % 12
  {
    if h % 12 == 0 then 12 else h % 12
  }

  /** An instant on the hour `h` of UTC day `day` is at hour `h + k` in a zone `k` hours east. */
  lemma LocalHourOfHour(day: int, h: int, k: int)
    requires 0 <= h + k < 24
    ensures LocalHour(day * SecondsPerDay + h * SecondsPerHour, k * SecondsPerHour) == h + k
  {
    var s := (h + k) * SecondsPerHour;
    LocalClock(day, s, k * SecondsPerHour);
    assert day * SecondsPerDay + s - k * SecondsPerHour == day * SecondsPerDay + h * SecondsPerHour;
    assert s / SecondsPerHour == h + k;
  }

  /**
   * `get_display_time`: the window's hours on today's UTC date, shown in
   * Eastern time on the 12-hour clock without a leading zero, as
   * "{begin}PM-{end}PM ET".
   */
  function GetDisplayTime(timing: Timing, now: int, eastern: Eastern): (r: string)
    ensures var (b, e) := MaintenanceHours(timing);
      r == Decimal(Hour12(b + eastern.Hours())) + "PM-" + Decimal(Hour12(e + eastern.Hours())) + "PM ET"
  {
    var today := LocalDay(now, 0);
    var (b, e) := MaintenanceHours(timing);
    var beginInstant := today * SecondsPerDay + b * SecondsPerHour;
    var endInstant := today * SecondsPerDay + e * SecondsPerHour;
    var beginHour := LocalHour(beginInstant, eastern.Offset());
    var endHour := LocalHour(endInstant, eastern.Offset());
    LocalHourOfHour(today, b, eastern.Hours());
    LocalHourOfHour(today, e, eastern.Hours());
    StripPad2(Hour12(beginHour));
    StripPad2(Hour12(endHour));
    LStrip(Pad2(Hour12(beginHour)), '0') + "PM-" + LStrip(Pad2(Hour12(endHour)), '0') + "PM ET"
  }

  /** The daily window `/eamuse` shows in summer. */
  lemma DailySummerDisplay(now: int)
    ensures GetDisplayTime(Daily, now, EDT) == "4PM-6PM ET"
  {
    assert Decimal(Hour12(16)) == "4" && Decimal(Hour12(18)) == "6";
  }

  /** The extended window `/eamuse` shows in summer. */
  lemma ExtendedSummerDisplay(now: int)
    ensures GetDisplayTime(Extended, now, EDT) == "1PM-6PM ET"
  {
    assert Decimal(Hour12(13)) == "1" && Decimal(Hour12(18)) == "6";
  }

  /** The daily window `/eamuse` shows in winter. */
  lemma DailyWinterDisplay(now: int)
    ensures GetDisplayTime(Daily, now, EST) == "3PM-5PM ET"
  {
    assert Decimal(Hour12(15)) == "3" && Decimal(Hour12(17)) == "5";
  }

  /** The extended window `/eamuse` shows in winter: noon is 12, not 0. */
  lemma ExtendedWinterDisplay(now: int)
    ensures GetDisplayTime(Extended, now, EST) == "12PM-5PM ET"
  {
    assert Hour12(12) == 12;
    assert Decimal(12) == Decimal(1) + [Digit(2)] == "12";
    assert Decimal(Hour12(17)) == "5";
  }

  // ---------------------------------------------------------------------
  // The extended-maintenance day.
  // ---------------------------------------------------------------------

  /**
   * `is_extended_maintenance_time`: it is Monday in New York, and Japan's
   * today or tomorrow is a Tuesday between the 15th and the 21st.
   */
  function IsExtendedMaintenanceTime(now: int, eastern: Eastern): bool {
    var todayInJapan := LocalDay(now, JapanOffset);
    var tomorrowInJapan := LocalDay(now + SecondsPerDay, JapanOffset);
    var todayInEastern := LocalDay(now, eastern.Offset());
    Weekday(todayInEastern) == 0
    && ((Weekday(todayInJapan) == 1 && 15 <= CivilFromDays(todayInJapan).day <= 21)
        || (Weekday(tomorrowInJapan) == 1 && 15 <= CivilFromDays(tomorrowInJapan).day <= 21))
  }

  /** `d` is the third Tuesday of its month, counting Tuesdays from the 1st. */
  predicate IsThirdTuesday(d: Date) {
    DateWeekday(d) == 1 && IsNthWeekday(d, 3)
  }

  lemma ThirdTuesdayOfDay(z: int)
    ensures IsThirdTuesday(CivilFromDays(z)) <==> Weekday(z) == 1 && 15 <= CivilFromDays(z).day <= 21
  {
    CivilWeekday(z);
    NthWeekdayIff(CivilFromDays(z), 3);
  }

  /** Whatever the date in Japan, it is never the extended day unless it is Monday in New York. */
  lemma NotMondayNotExtended(now: int, eastern: Eastern)
    requires LocalWeekday(now, eastern.Offset()) != 0
    ensures !IsExtendedMaintenanceTime(now, eastern)
  {
  }

  /** The extended day is a New York Monday on which Japan's today or tomorrow is its third Tuesday. */
  lemma ExtendedIffThirdTuesday(now: int, eastern: Eastern)
    ensures IsExtendedMaintenanceTime(now, eastern) <==>
      LocalWeekday(now, eastern.Offset()) == 0
      && (IsThirdTuesday(LocalDate(now, JapanOffset)) || IsThirdTuesday(LocalDate(now + SecondsPerDay, JapanOffset)))
  {
    ThirdTuesdayOfDay(LocalDay(now, JapanOffset));
    ThirdTuesdayOfDay(LocalDay(now + SecondsPerDay, JapanOffset));
  }

  /** Japan is 13 or 14 hours ahead of New York: its date is New York's or the next. */
  lemma JapanDayAhead(now: int, eastern: Eastern)
    ensures LocalDay(now, JapanOffset) - LocalDay(now, eastern.Offset()) in {0, 1}
  {
  }

  /**
   * Both Japanese days the rule looks at come down to one: the extended day
   * is exactly the New York Monday whose next calendar day is the third
   * Tuesday of its month.
   */
  lemma ExtendedIsMondayBeforeThirdTuesday(now: int, eastern: Eastern)
    ensures IsExtendedMaintenanceTime(now, eastern) <==>
      LocalWeekday(now, eastern.Offset()) == 0
      && IsThirdTuesday(CivilFromDays(LocalDay(now, eastern.Offset()) + 1))
  {
    JapanDayAhead(now, eastern);
    ExtendedByDays(now, eastern);
    MondayBeforeByDays(now, eastern);
    JapanDaysCollapse(LocalDay(now, eastern.Offset()), LocalDay(now, JapanOffset), InThirdWeek);
  }

  /** Day number `z` falls from the 15th to the 21st of its month. */
  predicate InThirdWeek(z: int) {
    15 <= CivilFromDays(z).day <= 21
  }

  /** `is_extended_maintenance_time` as a test of the two day numbers. */
  lemma ExtendedByDays(now: int, eastern: Eastern)
    ensures IsExtendedMaintenanceTime(now, eastern) ==
      var e := LocalDay(now, eastern.Offset());
      var j := LocalDay(now, JapanOffset);
      ((Weekday(e) == 0 && Weekday(j) == 1 && InThirdWeek(j))
       || (Weekday(e) == 0 && Weekday(j + 1) == 1 && InThirdWeek(j + 1)))
  {
    var j := LocalDay(now, JapanOffset);
    NextLocalDay(now, JapanOffset);
  }

  /** The right-hand side of the collapse as a test of New York's day number. */
  lemma MondayBeforeByDays(now: int, eastern: Eastern)
    ensures (LocalWeekday(now, eastern.Offset()) == 0
             && IsThirdTuesday(CivilFromDays(LocalDay(now, eastern.Offset()) + 1))) ==
      var e := LocalDay(now, eastern.Offset());
      (Weekday(e) == 0 && Weekday(e + 1) == 1 && InThirdWeek(e + 1))
  {
    ThirdTuesdayOfDay(LocalDay(now, eastern.Offset()) + 1);
  }

  /**
   * With Japan's date `j` equal to New York's `e` or the next, the two-day
   * test is a test of `e + 1`, whatever the test `third` asks of the day.
   */
  lemma JapanDaysCollapse(e: int, j: int, third: int -> bool)
    requires j == e || j == e + 1
    ensures ((Weekday(e) == 0 && Weekday(j) == 1 && third(j))
             || (Weekday(e) == 0 && Weekday(j + 1) == 1 && third(j + 1)))
            == (Weekday(e) == 0 && Weekday(e + 1) == 1 && third(e + 1))
  {
    WeekdayNext(e);
    WeekdayNext(e + 1);
  }

  /** A New York Monday that is the third Tuesday in Japan is the extended day. */
  lemma JapanTuesdayExtended(now: int, eastern: Eastern)
    requires LocalWeekday(now, eastern.Offset()) == 0
    requires IsThirdTuesday(LocalDate(now, JapanOffset))
    ensures IsExtendedMaintenanceTime(now, eastern)
  {
    ExtendedIffThirdTuesday(now, eastern);
  }

  /** So is a New York Monday that is still Monday in Japan, when Japan's tomorrow is the third Tuesday. */
  lemma JapanMondayExtended(now: int, eastern: Eastern)
    requires LocalWeekday(now, eastern.Offset()) == 0
    requires LocalWeekday(now, JapanOffset) == 0
    requires IsThirdTuesday(LocalDate(now + SecondsPerDay, JapanOffset))
    ensures IsExtendedMaintenanceTime(now, eastern)
  {
    ExtendedIffThirdTuesday(now, eastern);
  }

  /** A New York Monday that is a Tuesday in Japan other than the third is not the extended day. */
  lemma OtherJapanTuesdayNotExtended(now: int, eastern: Eastern)
    requires LocalWeekday(now, JapanOffset) == 1
    requires !IsNthWeekday(LocalDate(now, JapanOffset), 3)
    ensures !IsExtendedMaintenanceTime(now, eastern)
  {
    var j := LocalDay(now, JapanOffset);
    ThirdTuesdayOfDay(j);
    WeekdayNext(j);
    assert LocalDay(now + SecondsPerDay, JapanOffset) == j + 1;
  }

  // ---------------------------------------------------------------------
  // The reply of /eamuse.
  // ---------------------------------------------------------------------

  function ExtendedLine(hours: string): string {
    ExtendedIntro + hours + ". " + WebsiteDown + " " + CardDown + "**"
  }

  function UsLine(): string {
    UsGames + NoMaintenance
  }

  function JapanDownLine(hours: string): string {
    JpGames + ": " + JapanIntro + hours + " today. " + CardDown + "**"
  }

  function JapanUpLine(): string {
    JpGames + NoMaintenance
  }

  function WebsiteLine(hours: string): string {
    WebsiteIntro + hours + " daily. " + WebsiteDown + "**"
  }

  /** The Japanese servers are down on the daily window from Sunday to Thursday. */
  predicate JapanServersDown(weekday: int) {
    weekday in [6, 0, 1, 2, 3]
  }

  /** Each line of the reply is one line when the hours shown are. */
  lemma LinesAreSingle(hours: string)
    requires '\n' !in hours
    ensures '\n' !in ExtendedLine(hours)
    ensures '\n' !in UsLine() && '\n' !in JapanUpLine()
    ensures '\n' !in JapanDownLine(hours) && '\n' !in WebsiteLine(hours)
  {
    UsGamesOneLine();
    JpGamesOneLine();
    WebsiteDownOneLine();
    CardDownOneLine();
    NoMaintenanceOneLine();
    ExtendedIntroOneLine();
    JapanIntroOneLine();
    WebsiteIntroOneLine();
  }

  // The fixed texts hold no line break.

  lemma UsGamesOneLine()
    ensures '\n' !in UsGames
  {
  }

  lemma JpGamesOneLine()
    ensures '\n' !in JpGames
  {
  }

  lemma WebsiteDownOneLine()
    ensures '\n' !in WebsiteDown
  {
  }

  lemma CardDownOneLine()
    ensures '\n' !in CardDown
  {
  }

  lemma NoMaintenanceOneLine()
    ensures '\n' !in NoMaintenance
  {
  }

  lemma ExtendedIntroOneLine()
    ensures '\n' !in ExtendedIntro
  {
  }

  lemma JapanIntroOneLine()
    ensures '\n' !in JapanIntro
  {
  }

  lemma WebsiteIntroOneLine()
    ensures '\n' !in WebsiteIntro
  {
  }

  /** The reply of `/eamuse`; `serverWeekday` is the weekday of the server's own clock. */
  function Eamuse(now: int, eastern: Eastern, serverWeekday: int): (text: string)
    ensures IsExtendedMaintenanceTime(now, eastern) ==>
      Split(text, '\n') == [ExtendedLine(GetDisplayTime(Extended, now, eastern))]
    ensures !IsExtendedMaintenanceTime(now, eastern) ==>
      Split(text, '\n') == [
        UsLine(),
        if JapanServersDown(serverWeekday) then JapanDownLine(GetDisplayTime(Daily, now, eastern)) else JapanUpLine(),
        WebsiteLine(GetDisplayTime(Daily, now, eastern))]
  {
    var extendedHours := GetDisplayTime(Extended, now, eastern);
    var dailyHours := GetDisplayTime(Daily, now, eastern);
    if IsExtendedMaintenanceTime(now, eastern) then
      DisplayTimeOneLine(Extended, now, eastern);
      LinesAreSingle(extendedHours);
      SplitFree(ExtendedLine(extendedHours), '\n');
      ExtendedLine(extendedHours)
    else
      DisplayTimeOneLine(Daily, now, eastern);
      LinesAreSingle(dailyHours);
      var ddrMessage := UsLine();
      var websiteMessage := WebsiteLine(dailyHours);
      var otherMessage := if JapanServersDown(serverWeekday) then JapanDownLine(dailyHours) else JapanUpLine();
      ThreeLines(ddrMessage, otherMessage, websiteMessage);
      ddrMessage + "\n" + otherMessage + "\n" + websiteMessage
  }

  /** Three one-line messages joined by newlines split back into themselves. */
  lemma ThreeLines(a: string, b: string, c: string)
    requires '\n' !in a && '\n' !in b && '\n' !in c
    ensures Split(a + "\n" + b + "\n" + c, '\n') == [a, b, c]
  {
    SplitFree(c, '\n');
    SplitAfterPiece(b, '\n', c);
    SplitAfterPiece(a, '\n', b + "\n" + c);
    assert a + "\n" + b + "\n" + c == a + "\n" + (b + "\n" + c);
  }

  lemma DisplayTimeOneLine(timing: Timing, now: int, eastern: Eastern)
    ensures '\n' !in GetDisplayTime(timing, now, eastern)
  {
    var (b, e) := MaintenanceHours(timing);
    var x := Decimal(Hour12(b + eastern.Hours()));
    var y := Decimal(Hour12(e + eastern.Hours()));
    assert '\n' !in x && '\n' !in y by {
      assert forall i :: 0 <= i < |x| ==> IsDigit(x[i]);
      assert forall i :: 0 <= i < |y| ==> IsDigit(y[i]);
    }
  }
}
