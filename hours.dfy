/** One operating-hours entry of a bakery location: the weekday code it is
    stored under, optional opening and closing times, the "Closed?" flag, and
    its one-line rendering. */
module Hours {
  import opened Python

  const MicrosPerMinute: int := 60_000_000
  const MicrosPerHour: int := 60 * MicrosPerMinute
  const MicrosPerDay: int := 24 * MicrosPerHour

  /** A naive time of day, as microseconds since midnight. */
  type Time = t: int | 0 <= t < MicrosPerDay

  /** The time 'hour:minute:00.000000'. */
  function Clock(hour: nat, minute: nat): Time
    requires hour < 24 && minute < 60
  {
    hour * MicrosPerHour + minute * MicrosPerMinute
  }

  /** The weekday code choices an editor picks from, with their labels. */
  const DayChoices: seq<(string, string)> := [
    ("MON", "Monday"),
    ("TUES", "Tuesday"),
    ("WED", "Wednesday"),
    ("THUR", "Thursday"),
    ("FRI", "Friday"),
    ("SAT", "Saturday"),
    ("SUN", "Sunday")
  ]

  /** The day stored when none is chosen: not one of the choice codes, and
      longer than the column's four characters. */
  const DefaultDay: string := "MONDAY"
  const DayMaxLength: nat := 4

  /** The codes of DayChoices. */
  function ChoiceCodes(): set<string> {
    set p | p in DayChoices :: p.0
  }

  lemma ChoiceCodesListed()
    ensures ChoiceCodes() == {"MON", "TUES", "WED", "THUR", "FRI", "SAT", "SUN"}
  {
    assert DayChoices[0].0 == "MON" && DayChoices[1].0 == "TUES" && DayChoices[2].0 == "WED";
    assert DayChoices[3].0 == "THUR" && DayChoices[4].0 == "FRI" && DayChoices[5].0 == "SAT";
    assert DayChoices[6].0 == "SUN";
  }

  /** A stored row. day is free text: the choices are only offered by the
      editing form. */
  datatype OperatingHours = OperatingHours(
    day: string,
    openingTime: Option<Time>,
    closingTime: Option<Time>,
    closed: bool)

  /** The minute of the day a time falls in. */
  function MinuteOfDay(t: Time): int {
    t / MicrosPerMinute
  }

  function DigitChar(d: int): char
    requires 0 <= d < 10
  {
    ('0' as int + d) as char
  }

  function DigitValue(ch: char): int {
    ch as int - '0' as int
  }

  predicate IsDigit(ch: char) {
    '0' <= ch <= '9'
  }

  /** A zero-padded two-digit decimal. */
  function TwoDigits(n: int): (r: string)
    requires 0 <= n < 100
    ensures |r| == 2 && IsDigit(r[0]) && IsDigit(r[1])
    ensures 10 * DigitValue(r[0]) + DigitValue(r[1]) == n
  {
    [DigitChar(n / 10), DigitChar(n % 10)]
  }

  lemma HourAndMinute(t: Time)
    ensures 0 <= t / MicrosPerHour < 24
    ensures 60 * (t / MicrosPerHour) + (t / MicrosPerMinute) % 60 == t / MicrosPerMinute
  {
    var m := t / MicrosPerMinute;
    var r := t % MicrosPerMinute;
    assert t == MicrosPerMinute * m + r;
    var q := m / 60;
    assert m == 60 * q + m % 60;
    assert t == MicrosPerHour * q + (MicrosPerMinute * (m % 60) + r);
    assert 0 <= MicrosPerMinute * (m % 60) + r < MicrosPerHour;
  }

  /** Reads "HH:MM" back as a minute of the day; None for any other text. */
  function ParseHHMM(s: string): Option<int> {
    if |s| == 5 && IsDigit(s[0]) && IsDigit(s[1]) && s[2] == ':' && IsDigit(s[3]) && IsDigit(s[4]) then
      var h, m := 10 * DigitValue(s[0]) + DigitValue(s[1]), 10 * DigitValue(s[3]) + DigitValue(s[4]);
      if h < 24 && m < 60 then Some(60 * h + m) else None
    else None
  }

  /** Distinct "HH:MM" texts read back as distinct minutes of the day. */
  lemma ParseHHMMInjective(a: string, b: string)
    requires ParseHHMM(a).Some? && ParseHHMM(a) == ParseHHMM(b)
    ensures a == b
  {
    var ha, ma := 10 * DigitValue(a[0]) + DigitValue(a[1]), 10 * DigitValue(a[3]) + DigitValue(a[4]);
    var hb, mb := 10 * DigitValue(b[0]) + DigitValue(b[1]), 10 * DigitValue(b[3]) + DigitValue(b[4]);
    assert 60 * (ha - hb) == mb - ma;
    assert ha == hb && ma == mb;
    assert a[0] == b[0] && a[1] == b[1] && a[3] == b[3] && a[4] == b[4];
    assert forall i | 0 <= i < 5 :: a[i] == b[i];
  }

  /** time.strftime('%H:%M'): the text reads back as the minute of the day
      the time falls in (seconds and microseconds are dropped). */
  function FormatHHMM(t: Time): (r: string)
    ensures |r| == 5 && r[2] == ':'
    ensures ParseHHMM(r) == Some(MinuteOfDay(t))
  {
    HourAndMinute(t);
    TwoDigits(t / MicrosPerHour) + ":" + TwoDigits((t / MicrosPerMinute) % 60)
  }

  /** The text shown for a time field: "HH:MM" of the time, or "--". */
  function TimeText(t: Option<Time>): string {
    if t.Some? then FormatHHMM(t.value) else "--"
  }

  function MinutesOf(t: Option<Time>): Option<int> {
    if t.Some? then Some(MinuteOfDay(t.value)) else None
  }

  /** Reads back a time field: "--" is None, "HH:MM" a minute of the day. */
  function ParseTimeText(s: string): Option<Option<int>> {
    if s == "--" then Some(None)
    else match ParseHHMM(s)
      case Some(m) => Some(Some(m))
      case None => None
  }

  /** A time field's reading determines its text. */
  lemma ParseTimeTextInjective(a: string, b: string)
    requires ParseTimeText(a).Some? && ParseTimeText(a) == ParseTimeText(b)
    ensures a == b
  {
    if a != "--" && b != "--" {
      ParseHHMMInjective(a, b);
    }
  }

  lemma TimeTextRoundTrip(t: Option<Time>)
    ensures ParseTimeText(TimeText(t)) == Some(MinutesOf(t))
  {
    if t.Some? {
      var s := FormatHHMM(t.value);
      assert s != "--" by { assert |s| == 5; }
    }
  }

  /** Reads a rendering "<day>: <open> - <close> <tz>" back into the minutes
      of its two time fields, for a known day code and time-zone label. */
  function ParseDisplay(s: string, day: string, timeZone: string): Option<(Option<int>, Option<int>)> {
    var lo, hi := |day| + 2, |s| - |timeZone| - 1;
    if lo <= hi && s[..lo] == day + ": " && s[hi..] == " " + timeZone then
      var mid := s[lo..hi];
      var w := if |mid| >= 2 && mid[..2] == "--" then 2 else 5;
      if w + 3 <= |mid| && mid[w..w + 3] == " - " then
        match (ParseTimeText(mid[..w]), ParseTimeText(mid[w + 3..]))
        case (Some(o), Some(c)) => Some((o, c))
        case _ => None
      else None
    else None
  }

  /** The rendering's frame around its two fields. */
  lemma DisplaySlices(day: string, mid: string, timeZone: string)
    ensures var s := day + ": " + mid + " " + timeZone;
      var lo, hi := |day| + 2, |s| - |timeZone| - 1;
      && lo <= hi && s[..lo] == day + ": " && s[hi..] == " " + timeZone && s[lo..hi] == mid
  {
  }

  /** The two fields and the " - " between them. */
  lemma FieldSlices(a: string, b: string)
    ensures var mid := a + " - " + b;
      && |a| + 3 <= |mid| && mid[..|a|] == a && mid[|a|..|a| + 3] == " - " && mid[|a| + 3..] == b
      && (|a| >= 2 ==> mid[..2] == a[..2])
  {
  }

  /** A time field's text is "--", or five characters not starting with "--". */
  lemma TimeTextWidth(t: Option<Time>)
    ensures var a := TimeText(t); a == "--" || (|a| == 5 && a[..2] != "--")
  {
    if t.Some? {
      var a := FormatHHMM(t.value);
      assert IsDigit(a[0]);
      assert a[..2][0] == a[0];
    }
  }

  lemma DisplayAssoc(day: string, a: string, b: string, timeZone: string)
    ensures day + ": " + a + " - " + b + " " + timeZone == day + ": " + (a + " - " + b) + " " + timeZone
  {
  }

  /** Splitting a rendering at the known day and time zone gives its fields. */
  lemma ParseDisplayOf(day: string, open: Option<Time>, close: Option<Time>, timeZone: string)
    ensures ParseDisplay(day + ": " + TimeText(open) + " - " + TimeText(close) + " " + timeZone, day, timeZone)
         == Some((MinutesOf(open), MinutesOf(close)))
  {
    var a, b := TimeText(open), TimeText(close);
    var mid := a + " - " + b;
    DisplayAssoc(day, a, b, timeZone);
    DisplaySlices(day, mid, timeZone);
    FieldSlices(a, b);
    TimeTextWidth(open);
    TimeTextRoundTrip(open);
    TimeTextRoundTrip(close);
  }

  /** A text ParseDisplay accepts is "<day>: <a> - <b> <tz>" for the two
      field texts it reads. */
  lemma ParseDisplayFields(s: string, day: string, timeZone: string) returns (a: string, b: string)
    requires ParseDisplay(s, day, timeZone).Some?
    ensures s == day + ": " + a + " - " + b + " " + timeZone
    ensures ParseTimeText(a).Some? && ParseTimeText(b).Some?
    ensures ParseDisplay(s, day, timeZone) == Some((ParseTimeText(a).value, ParseTimeText(b).value))
  {
    var lo, hi := |day| + 2, |s| - |timeZone| - 1;
    var mid := s[lo..hi];
    var w := if |mid| >= 2 && mid[..2] == "--" then 2 else 5;
    a, b := mid[..w], mid[w + 3..];
    FrameJoin(s, day, timeZone);
    FieldsJoin(mid, w);
    DisplayAssoc(day, a, b, timeZone);
  }

  lemma FrameJoin(s: string, day: string, timeZone: string)
    requires |day| + 2 <= |s| - |timeZone| - 1
    requires s[..|day| + 2] == day + ": " && s[|s| - |timeZone| - 1..] == " " + timeZone
    ensures s == day + ": " + s[|day| + 2..|s| - |timeZone| - 1] + " " + timeZone
  {
    var lo, hi := |day| + 2, |s| - |timeZone| - 1;
    assert s == s[..lo] + s[lo..hi] + s[hi..];
  }

  lemma FieldsJoin(mid: string, w: nat)
    requires w + 3 <= |mid| && mid[w..w + 3] == " - "
    ensures mid == mid[..w] + " - " + mid[w + 3..]
  {
    assert mid == mid[..w] + mid[w..w + 3] + mid[w + 3..];
  }

  /** For a known day and time zone, the reading of a rendering determines
      the rendering: two texts that read back alike are equal. */
  lemma ParseDisplayInjective(s1: string, s2: string, day: string, timeZone: string)
    requires ParseDisplay(s1, day, timeZone).Some?
    requires ParseDisplay(s1, day, timeZone) == ParseDisplay(s2, day, timeZone)
    ensures s1 == s2
  {
    var a1, b1 := ParseDisplayFields(s1, day, timeZone);
    var a2, b2 := ParseDisplayFields(s2, day, timeZone);
    ParseTimeTextInjective(a1, a2);
    ParseTimeTextInjective(b1, b2);
  }

  /** OperatingHours.__str__ with the settings' time-zone label as a
      parameter. The closing field is the opening time's "HH:MM" whenever a
      closing time is set, so a row with a closing time and no opening time
      raises AttributeError. */
  function OperatingHoursStr(e: OperatingHours, timeZone: string): (r: Result<string>)
    ensures r.Raise? <==> e.closingTime.Some? && e.openingTime.None?
    ensures r.Raise? ==> r.exc == AttributeError
    ensures r.Ok? ==> ParseDisplay(r.value, e.day, timeZone)
                      == Some((MinutesOf(e.openingTime), if e.closingTime.Some? then MinutesOf(e.openingTime) else None))
  {
    var opening := TimeText(e.openingTime);
    if e.closingTime.Some? && e.openingTime.None? then Raise(AttributeError)
    else
      var closed := if e.closingTime.Some? then opening else "--";
      ParseDisplayOf(e.day, e.openingTime, if e.closingTime.Some? then e.openingTime else None, timeZone);
      Ok(e.day + ": " + opening + " - " + closed + " " + timeZone)
  }

  /** The rendering never depends on which closing time is set. */
  lemma StrIgnoresClosingTime(e: OperatingHours, c1: Time, c2: Time, timeZone: string)
    ensures OperatingHoursStr(e.(closingTime := Some(c1)), timeZone)
         == OperatingHoursStr(e.(closingTime := Some(c2)), timeZone)
  {
  }

  /** A Monday row open 09:00 to 17:00 is shown as "MON: 09:00 - 09:00 UTC". */
  lemma StrShowsOpeningTwice()
    ensures OperatingHoursStr(OperatingHours("MON", Some(Clock(9, 0)), Some(Clock(17, 0)), false), "UTC")
         == Ok("MON: 09:00 - 09:00 UTC")
  {
    var nine := Clock(9, 0);
    NineOClock(nine);
    MondayNineText("MON", "09:00", "UTC");
  }

  lemma NineOClock(t: Time)
    requires t == Clock(9, 0)
    ensures FormatHHMM(t) == "09:00"
  {
    assert t / MicrosPerHour == 9;
    assert (t / MicrosPerMinute) % 60 == 0;
    var r := FormatHHMM(t);
    assert r == TwoDigits(9) + ":" + TwoDigits(0);
    assert r[0] == '0' && r[1] == '9' && r[2] == ':' && r[3] == '0' && r[4] == '0';
  }

  lemma MondayNineText(day: string, hhmm: string, timeZone: string)
    requires day == "MON" && hhmm == "09:00" && timeZone == "UTC"
    ensures day + ": " + hhmm + " - " + hhmm + " " + timeZone == "MON: 09:00 - 09:00 UTC"
  {
    var r1 := day + ": ";
    assert r1 == "MON: ";
    var r2 := r1 + hhmm;
    assert r2 == "MON: 09:00";
    var r3 := r2 + " - ";
    assert r3 == "MON: 09:00 - ";
    var r4 := r3 + hhmm;
    assert r4 == "MON: 09:00 - 09:00";
    var r5 := r4 + " ";
    assert r5 == "MON: 09:00 - 09:00 ";
  }

  /** The evidently intended rendering: the closing field shows the closing
      time, and no combination of fields raises. */
  function OperatingHoursStrIntended(e: OperatingHours, timeZone: string): (r: string)
    ensures ParseDisplay(r, e.day, timeZone) == Some((MinutesOf(e.openingTime), MinutesOf(e.closingTime)))
  {
    ParseDisplayOf(e.day, e.openingTime, e.closingTime, timeZone);
    e.day + ": " + TimeText(e.openingTime) + " - " + TimeText(e.closingTime) + " " + timeZone
  }

  /** The weekday code each choice stands for, in week order. */
  datatype Weekday = Monday | Tuesday | Wednesday | Thursday | Friday | Saturday | Sunday

  function WeekdayIndex(d: Weekday): (i: nat)
    ensures i < |DayChoices|
  {
    match d
    case Monday => 0
    case Tuesday => 1
    case Wednesday => 2
    case Thursday => 3
    case Friday => 4
    case Saturday => 5
    case Sunday => 6
  }

  /** The choice code stored for a weekday: the code the open/closed check
      evidently meant to look up. */
  function ChoiceDayCode(d: Weekday): (code: string)
    ensures code in ChoiceCodes()
  {
    DayChoices[WeekdayIndex(d)].0
  }

  /** Different weekdays are stored under different codes. */
  lemma ChoiceDayCodeInjective(d1: Weekday, d2: Weekday)
    requires ChoiceDayCode(d1) == ChoiceDayCode(d2)
    ensures d1 == d2
  {
    var i, j := WeekdayIndex(d1), WeekdayIndex(d2);
    var c1, c2 := DayChoices[i].0, DayChoices[j].0;
    assert |c1| == |c2| && c1[0] == c2[0] && c1[1] == c2[1];
  }

  /** Every choice code is the code of some weekday. */
  lemma ChoiceDayCodeOnto(code: string)
    requires code in ChoiceCodes()
    ensures exists d :: ChoiceDayCode(d) == code
  {
    var k :| 0 <= k < |DayChoices| && DayChoices[k].0 == code;
    var ds := [Monday, Tuesday, Wednesday, Thursday, Friday, Saturday, Sunday];
    assert WeekdayIndex(ds[k]) == k;
    assert ChoiceDayCode(ds[k]) == code;
  }

  /** Every choice code belongs to exactly one weekday. */
  lemma ChoiceDayCodeBijective()
    ensures forall d1, d2 :: ChoiceDayCode(d1) == ChoiceDayCode(d2) ==> d1 == d2
    ensures forall code :: code in ChoiceCodes() ==> exists d :: ChoiceDayCode(d) == code
  {
    forall d1, d2 | ChoiceDayCode(d1) == ChoiceDayCode(d2) ensures d1 == d2 {
      ChoiceDayCodeInjective(d1, d2);
    }
    forall code | code in ChoiceCodes() ensures exists d :: ChoiceDayCode(d) == code {
      ChoiceDayCodeOnto(code);
    }
  }
}
