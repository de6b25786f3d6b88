/** A bakery location page: whether it is open now, judged from its
    operating-hours rows; validation of its "lat,long" text; and the split of
    that text into the 'lat' and 'long' template variables. */
module Locations {
  import opened Python
  import opened Hours

  // ---------------------------------------------------------------------
  // Open or closed

  /** datetime.strftime('%a') in the C locale. */
  function WeekdayAbbrev(d: Weekday): string {
    match d
    case Monday => "Mon"
    case Tuesday => "Tue"
    case Wednesday => "Wed"
    case Thursday => "Thu"
    case Friday => "Fri"
    case Saturday => "Sat"
    case Sunday => "Sun"
  }

  /** The day code is_open looks rows up by: strftime('%a').upper(). */
  function CurrentDayCode(d: Weekday): (code: string)
    ensures |code| == 3
  {
    Upper(WeekdayAbbrev(d))
  }

  /** The codes looked up, in week order: MON TUE WED THU FRI SAT SUN. */
  lemma CurrentDayCodeValue(d: Weekday)
    ensures CurrentDayCode(d) == ["MON", "TUE", "WED", "THU", "FRI", "SAT", "SUN"][WeekdayIndex(d)]
  {
    var code := CurrentDayCode(d);
    match d
    case Monday => assert code[0] == 'M' && code[1] == 'O' && code[2] == 'N';
    case Tuesday => assert code[0] == 'T' && code[1] == 'U' && code[2] == 'E';
    case Wednesday => assert code[0] == 'W' && code[1] == 'E' && code[2] == 'D';
    case Thursday => assert code[0] == 'T' && code[1] == 'H' && code[2] == 'U';
    case Friday => assert code[0] == 'F' && code[1] == 'R' && code[2] == 'I';
    case Saturday => assert code[0] == 'S' && code[1] == 'A' && code[2] == 'T';
    case Sunday => assert code[0] == 'S' && code[1] == 'U' && code[2] == 'N';
  }

  /** The Tuesday and Thursday choice codes and the default day are never
      looked up, and those two weekdays are the only ones whose code is not a
      choice code. */
  lemma CurrentDayCodeMismatch(d: Weekday)
    ensures CurrentDayCode(d) != "TUES" && CurrentDayCode(d) != "THUR" && CurrentDayCode(d) != DefaultDay
    ensures CurrentDayCode(d) in ChoiceCodes() <==> d != Tuesday && d != Thursday
  {
    assert |CurrentDayCode(d)| == 3;
    CurrentDayCodeChoice(d, CurrentDayCode(d), ChoiceCodes());
  }

  lemma CurrentDayCodeChoice(d: Weekday, code: string, codes: set<string>)
    requires code == CurrentDayCode(d) && codes == ChoiceCodes()
    ensures code in codes <==> d != Tuesday && d != Thursday
  {
    CurrentDayCodeValue(d);
    if d == Tuesday || d == Thursday {
      assert code[0] == 'T' && |code| == 3;
      forall p | p in DayChoices ensures p.0 != code {
        var k :| 0 <= k < |DayChoices| && DayChoices[k] == p;
        assert |p.0| == 4 || p.0[0] != 'T';
      }
    } else {
      assert code == ChoiceDayCode(d);
    }
  }

  /** The row filter of is_open: the day code is equal, opening_time <= now
      and closing_time >= now. A NULL time compares to nothing. The closed
      flag takes no part. */
  predicate Covers(e: OperatingHours, day: string, now: Time) {
    && e.day == day
    && e.openingTime.Some? && e.openingTime.value <= now
    && e.closingTime.Some? && now <= e.closingTime.value
  }

  /** The rows the lookup filter keeps, in order. */
  function Matching(hours: seq<OperatingHours>, day: string, now: Time): (r: seq<OperatingHours>)
    ensures |r| <= |hours|
  {
    if hours == [] then []
    else if Covers(hours[0], day, now) then [hours[0]] + Matching(hours[1..], day, now)
    else Matching(hours[1..], day, now)
  }

  /** The filter keeps exactly the rows that cover now. */
  lemma {:induction false} MatchingKeepsCovering(hours: seq<OperatingHours>, day: string, now: Time)
    ensures forall e :: e in Matching(hours, day, now) ==> e in hours && Covers(e, day, now)
    ensures forall i :: 0 <= i < |hours| && Covers(hours[i], day, now) ==> hours[i] in Matching(hours, day, now)
  {
    if hours != [] {
      var tail := hours[1..];
      MatchingKeepsCovering(tail, day, now);
      forall i | 0 < i < |hours| ensures hours[i] == tail[i - 1] {
      }
    }
  }

  /** QuerySet.get() on the filtered rows, where only DoesNotExist is caught:
      no row gives False, exactly one gives True, and more raise. */
  function LookupOpen(hours: seq<OperatingHours>, day: string, now: Time): (r: Result<bool>)
    ensures r == Ok(false) <==> forall i :: 0 <= i < |hours| ==> !Covers(hours[i], day, now)
    ensures r.Raise? ==> r.exc.MultipleObjectsReturned? && r.exc.count >= 2
  {
    MatchingKeepsCovering(hours, day, now);
    var n := |Matching(hours, day, now)|;
    assert n == 0 ==> forall i :: 0 <= i < |hours| ==> !Covers(hours[i], day, now);
    assert n > 0 ==> Matching(hours, day, now)[0] in Matching(hours, day, now);
    if n == 0 then Ok(false)
    else if n == 1 then Ok(true)
    else Raise(MultipleObjectsReturned(n))
  }

  /** LocationPage.is_open, with the clock's weekday and time of day as
      parameters. */
  function IsOpen(hours: seq<OperatingHours>, today: Weekday, now: Time): Result<bool> {
    LookupOpen(hours, CurrentDayCode(today), now)
  }

  /** Two different rows cover now. */
  ghost predicate TwoCover(hours: seq<OperatingHours>, day: string, now: Time) {
    exists i, j :: 0 <= i < j < |hours| && Covers(hours[i], day, now) && Covers(hours[j], day, now)
  }

  /** Row i is the one row that covers now. */
  ghost predicate OnlyCover(hours: seq<OperatingHours>, day: string, now: Time, i: int) {
    && 0 <= i < |hours| && Covers(hours[i], day, now)
    && forall j :: 0 <= j < |hours| && j != i ==> !Covers(hours[j], day, now)
  }

  /** Two covering rows after the first are two covering rows of the whole. */
  lemma TwoCoverShift(hours: seq<OperatingHours>, day: string, now: Time)
    requires hours != [] && TwoCover(hours[1..], day, now)
    ensures TwoCover(hours, day, now)
  {
    var tail := hours[1..];
    var i, j :| 0 <= i < j < |tail| && Covers(tail[i], day, now) && Covers(tail[j], day, now);
    assert tail[i] == hours[i + 1] && tail[j] == hours[j + 1];
  }

  /** A covering first row and a covering later row make TwoCover. */
  lemma TwoCoverHead(hours: seq<OperatingHours>, day: string, now: Time, j: int)
    requires hours != [] && Covers(hours[0], day, now)
    requires 0 <= j < |hours| - 1 && Covers(hours[1..][j], day, now)
    ensures TwoCover(hours, day, now)
  {
    assert hours[1..][j] == hours[j + 1];
  }

  /** Two or more rows are kept only when two different rows cover now. */
  lemma {:induction false} TwoMatchedTwoCover(hours: seq<OperatingHours>, day: string, now: Time)
    requires |Matching(hours, day, now)| >= 2
    ensures TwoCover(hours, day, now)
  {
    var tail := hours[1..];
    var m := Matching(tail, day, now);
    if Covers(hours[0], day, now) {
      MatchingKeepsCovering(tail, day, now);
      assert m[0] in m;
      var j :| 0 <= j < |tail| && tail[j] == m[0];
      TwoCoverHead(hours, day, now, j);
    } else {
      assert Matching(hours, day, now) == m;
      TwoMatchedTwoCover(tail, day, now);
      TwoCoverShift(hours, day, now);
    }
  }

  /** Two different rows covering now are both kept. */
  lemma {:induction false} TwoCoverTwoMatched(hours: seq<OperatingHours>, day: string, now: Time)
    requires TwoCover(hours, day, now)
    ensures |Matching(hours, day, now)| >= 2
  {
    var i, j :| 0 <= i < j < |hours| && Covers(hours[i], day, now) && Covers(hours[j], day, now);
    var tail := hours[1..];
    if i == 0 {
      MatchingKeepsCovering(tail, day, now);
      assert tail[j - 1] in Matching(tail, day, now);
    } else {
      assert Covers(tail[i - 1], day, now) && Covers(tail[j - 1], day, now);
      TwoCoverTwoMatched(tail, day, now);
    }
  }

  /** Two or more rows are kept exactly when two different rows cover now. */
  lemma MatchingAtLeastTwo(hours: seq<OperatingHours>, day: string, now: Time)
    ensures |Matching(hours, day, now)| >= 2 <==> TwoCover(hours, day, now)
  {
    if |Matching(hours, day, now)| >= 2 {
      TwoMatchedTwoCover(hours, day, now);
    }
    if TwoCover(hours, day, now) {
      TwoCoverTwoMatched(hours, day, now);
    }
  }

  /** The lookup raises exactly when two different rows cover now. */
  lemma LookupRaises(hours: seq<OperatingHours>, day: string, now: Time)
    ensures LookupOpen(hours, day, now).Raise? <==> TwoCover(hours, day, now)
  {
    MatchingAtLeastTwo(hours, day, now);
  }

  /** Any two different covering rows, in either order, make TwoCover. */
  lemma TwoCoverOfPair(hours: seq<OperatingHours>, day: string, now: Time)
    ensures forall a, b ::
              (0 <= a < |hours| && 0 <= b < |hours| && a != b && Covers(hours[a], day, now) && Covers(hours[b], day, now))
              ==> TwoCover(hours, day, now)
  {
    forall a, b | 0 <= a < |hours| && 0 <= b < |hours| && a != b
                  && Covers(hours[a], day, now) && Covers(hours[b], day, now)
      ensures TwoCover(hours, day, now)
    {
      if a < b {
        assert Covers(hours[a], day, now) && Covers(hours[b], day, now);
      } else {
        assert Covers(hours[b], day, now) && Covers(hours[a], day, now);
      }
    }
  }

  /** The lookup answers True exactly when a single row covers now. */
  lemma LookupTrue(hours: seq<OperatingHours>, day: string, now: Time)
    ensures LookupOpen(hours, day, now) == Ok(true) <==> exists i :: OnlyCover(hours, day, now, i)
  {
    MatchingAtLeastTwo(hours, day, now);
    MatchingKeepsCovering(hours, day, now);
    var m := Matching(hours, day, now);
    if |m| == 1 {
      assert m[0] in m;
      var i :| 0 <= i < |hours| && hours[i] == m[0];
      TwoCoverOfPair(hours, day, now);
      assert OnlyCover(hours, day, now, i);
    }
    if exists i :: OnlyCover(hours, day, now, i) {
      var i :| OnlyCover(hours, day, now, i);
      assert !TwoCover(hours, day, now);
    }
  }

  /** The three outcomes of is_open, each in terms of the rows alone: False
      when no row covers now, True when exactly one does, and an uncaught
      MultipleObjectsReturned when two or more do (not "first match wins"). */
  lemma IsOpenOutcomes(hours: seq<OperatingHours>, today: Weekday, now: Time)
    ensures var day := CurrentDayCode(today);
      && (IsOpen(hours, today, now) == Ok(false) <==> forall i :: 0 <= i < |hours| ==> !Covers(hours[i], day, now))
      && (IsOpen(hours, today, now) == Ok(true) <==> exists i :: OnlyCover(hours, day, now, i))
      && (IsOpen(hours, today, now).Raise? <==> TwoCover(hours, day, now))
  {
    LookupRaises(hours, CurrentDayCode(today), now);
    LookupTrue(hours, CurrentDayCode(today), now);
  }

  /** A window that closes before it opens (overnight) covers no time at all. */
  lemma OvernightNeverCovers(e: OperatingHours, day: string, now: Time)
    requires e.openingTime.Some? && e.closingTime.Some?
    requires e.closingTime.value < e.openingTime.value
    ensures !Covers(e, day, now)
  {
  }

  /** A row missing either time never makes the location open. */
  lemma NullTimeNeverOpens(hours: seq<OperatingHours>, today: Weekday, now: Time)
    requires forall i :: 0 <= i < |hours| ==> hours[i].openingTime.None? || hours[i].closingTime.None?
    ensures IsOpen(hours, today, now) == Ok(false)
  {
  }

  /** With rows stored under the choice codes or the default day, the
      location is never open on a Tuesday or a Thursday. */
  lemma NeverOpenOnTuesdayOrThursday(hours: seq<OperatingHours>, now: Time)
    requires forall i :: 0 <= i < |hours| ==> hours[i].day in ChoiceCodes() || hours[i].day == DefaultDay
    ensures IsOpen(hours, Tuesday, now) == Ok(false)
    ensures IsOpen(hours, Thursday, now) == Ok(false)
  {
    CurrentDayCodeMismatch(Tuesday);
    CurrentDayCodeMismatch(Thursday);
  }

  /** The rows with the closed flag replaced; everything else kept. */
  function WithClosed(hours: seq<OperatingHours>, flags: seq<bool>): (r: seq<OperatingHours>)
    requires |flags| == |hours|
    ensures |r| == |hours|
    ensures forall i :: 0 <= i < |hours| ==> r[i] == hours[i].(closed := flags[i])
  {
    if hours == [] then [] else [hours[0].(closed := flags[0])] + WithClosed(hours[1..], flags[1..])
  }

  lemma {:induction false} MatchingIgnoresClosed(hours: seq<OperatingHours>, flags: seq<bool>, day: string, now: Time)
    requires |flags| == |hours|
    ensures |Matching(WithClosed(hours, flags), day, now)| == |Matching(hours, day, now)|
  {
    if hours != [] {
      var w := WithClosed(hours, flags);
      assert w[1..] == WithClosed(hours[1..], flags[1..]);
      MatchingIgnoresClosed(hours[1..], flags[1..], day, now);
    }
  }

  /** Setting or clearing any row's closed flag never changes is_open. */
  lemma ClosedFlagIgnored(hours: seq<OperatingHours>, flags: seq<bool>, today: Weekday, now: Time)
    requires |flags| == |hours|
    ensures IsOpen(WithClosed(hours, flags), today, now) == IsOpen(hours, today, now)
  {
    MatchingIgnoresClosed(hours, flags, CurrentDayCode(today), now);
  }

  /** A Monday row ticked closed whose window covers noon still reports open. */
  lemma ClosedRowStillOpens()
    ensures IsOpen([OperatingHours("MON", Some(Clock(9, 0)), Some(Clock(17, 0)), true)], Monday, Clock(12, 0)) == Ok(true)
  {
    CurrentDayCodeMismatch(Monday);
    var hours := [OperatingHours("MON", Some(Clock(9, 0)), Some(Clock(17, 0)), true)];
    assert Matching(hours, "MON", Clock(12, 0)) == [hours[0]] by {
      assert hours[1..] == [];
    }
  }

  /** A row entered twice is not resolved by taking the first: is_open raises. */
  lemma DuplicateRowRaises(e: OperatingHours, today: Weekday, now: Time)
    requires Covers(e, CurrentDayCode(today), now)
    ensures IsOpen([e, e], today, now) == Raise(MultipleObjectsReturned(2))
  {
    var day := CurrentDayCode(today);
    assert [e, e][1..] == [e];
    assert [e][1..] == [];
    assert Matching([e, e], day, now) == [e, e];
  }

  /** Both ends of a window are inclusive: a Monday 09:00-17:00 row is open
      at 09:00 and at 17:00, and closed at 08:59 and at 17:01. */
  lemma WindowBoundaries()
    ensures var hours := [OperatingHours("MON", Some(Clock(9, 0)), Some(Clock(17, 0)), false)];
      && IsOpen(hours, Monday, Clock(9, 0)) == Ok(true)
      && IsOpen(hours, Monday, Clock(17, 0)) == Ok(true)
      && IsOpen(hours, Monday, Clock(8, 59)) == Ok(false)
      && IsOpen(hours, Monday, Clock(17, 1)) == Ok(false)
  {
    CurrentDayCodeMismatch(Monday);
    var hours := [OperatingHours("MON", Some(Clock(9, 0)), Some(Clock(17, 0)), false)];
    assert hours[1..] == [];
    assert Matching(hours, "MON", Clock(9, 0)) == [hours[0]];
    assert Matching(hours, "MON", Clock(17, 0)) == [hours[0]];
  }

  /** The rows whose closed flag is not ticked, in order. */
  function OpenRows(hours: seq<OperatingHours>): (r: seq<OperatingHours>)
    ensures forall e :: e in r <==> e in hours && !e.closed
  {
    if hours == [] then []
    else if hours[0].closed then OpenRows(hours[1..])
    else [hours[0]] + OpenRows(hours[1..])
  }

  /** The evidently intended check: rows are looked up under the weekday's
      choice code, and rows ticked closed are left out. */
  function IsOpenIntended(hours: seq<OperatingHours>, today: Weekday, now: Time): Result<bool> {
    LookupOpen(OpenRows(hours), ChoiceDayCode(today), now)
  }

  /** Under the intended check a day whose rows are all ticked closed is
      closed; an open verdict always rests on an unticked row for that day
      whose window covers now. */
  lemma IntendedRespectsClosed(hours: seq<OperatingHours>, today: Weekday, now: Time)
    ensures (forall i :: 0 <= i < |hours| && hours[i].day == ChoiceDayCode(today) ==> hours[i].closed)
            ==> IsOpenIntended(hours, today, now) == Ok(false)
    ensures IsOpenIntended(hours, today, now) == Ok(true)
            ==> exists e :: e in hours && !e.closed && Covers(e, ChoiceDayCode(today), now)
  {
    var rows := OpenRows(hours);
    var day := ChoiceDayCode(today);
    if IsOpenIntended(hours, today, now) == Ok(true) {
      var i :| 0 <= i < |rows| && Covers(rows[i], day, now);
      assert rows[i] in rows;
    }
  }

  /** Under the intended check a single unticked row covering now opens the
      location on every weekday, Tuesday and Thursday included. */
  lemma IntendedOpensEveryDay(e: OperatingHours, today: Weekday, now: Time)
    requires e.day == ChoiceDayCode(today) && !e.closed
    requires e.openingTime.Some? && e.closingTime.Some?
    requires e.openingTime.value <= now <= e.closingTime.value
    ensures IsOpenIntended([e], today, now) == Ok(true)
  {
    assert [e][1..] == [];
    assert OpenRows([e]) == [e];
    assert Matching([e], e.day, now) == [e];
  }

  // ---------------------------------------------------------------------
  // The lat_long field

  predicate IsSpace(ch: char) {
    // the ASCII characters str.isspace() accepts
    9 <= ch as int <= 13 || 28 <= ch as int <= 32
  }

  /** One or more ASCII digits. */
  ghost predicate Digits(s: string) {
    |s| > 0 && forall i :: 0 <= i < |s| ==> IsDigit(s[i])
  }

  /** \d+(\.\d+)? */
  ghost predicate Unsigned(s: string) {
    || Digits(s)
    || exists k :: 0 < k < |s| && s[k] == '.' && Digits(s[..k]) && Digits(s[k + 1..])
  }

  /** -?\d+(\.\d+)? */
  ghost predicate Coordinate(s: string) {
    Unsigned(s) || (|s| > 0 && s[0] == '-' && Unsigned(s[1..]))
  }

  /** \s* */
  ghost predicate Spaces(s: string) {
    forall i :: 0 <= i < |s| ==> IsSpace(s[i])
  }

  /** The whole text matches ^(-?\d+(\.\d+)?),\s*(-?\d+(\.\d+)?)$ . */
  ghost predicate LatLongPattern(s: string) {
    exists c, j :: PatternAt(s, c, j)
  }

  /** The pattern matches with its comma at c and its second coordinate
      starting at j. */
  ghost predicate PatternAt(s: string, c: int, j: int) {
    0 <= c < j <= |s| && Coordinate(s[..c]) && s[c] == ',' && Spaces(s[c + 1..j]) && Coordinate(s[j..])
  }

  /** The end of the run of digits starting at i. */
  function DigitRun(s: string, i: nat): (r: nat)
    requires i <= |s|
    ensures i <= r <= |s|
    ensures forall k :: i <= k < r ==> IsDigit(s[k])
    ensures r < |s| ==> !IsDigit(s[r])
    decreases |s| - i
  {
    if i < |s| && IsDigit(s[i]) then DigitRun(s, i + 1) else i
  }

  /** The end of the run of whitespace starting at i. */
  function SpaceRun(s: string, i: nat): (r: nat)
    requires i <= |s|
    ensures i <= r <= |s|
    ensures forall k :: i <= k < r ==> IsSpace(s[k])
    ensures r < |s| ==> !IsSpace(s[r])
    decreases |s| - i
  {
    if i < |s| && IsSpace(s[i]) then SpaceRun(s, i + 1) else i
  }

  /** Recognises one coordinate by scanning: an optional '-', a run of
      digits, and optionally '.' followed by a run of digits to the end. */
  predicate IsCoordinate(t: string) {
    UnsignedScan(if |t| > 0 && t[0] == '-' then t[1..] else t)
  }

  /** Recognises the whole field: the text before the first comma is a
      coordinate, and so is the text after the comma and its run of
      whitespace. */
  predicate IsLatLong(s: string) {
    ',' in s
    && var c := IndexOf(s, ',');
    && IsCoordinate(s[..c])
    && IsCoordinate(s[SpaceRun(s, c + 1)..])
  }

  /** The scanner's verdict on an unsigned number. */
  predicate UnsignedScan(b: string) {
    var d := DigitRun(b, 0);
    d > 0 && (d == |b| || (b[d] == '.' && d + 1 < |b| && DigitRun(b, d + 1) == |b|))
  }

  lemma DigitRunOfDigits(b: string, i: nat, k: nat)
    requires i <= k <= |b|
    requires forall n :: i <= n < k ==> IsDigit(b[n])
    requires k < |b| ==> !IsDigit(b[k])
    ensures DigitRun(b, i) == k
  {
  }

  lemma UnsignedIsScanned(b: string)
    requires Unsigned(b)
    ensures UnsignedScan(b)
  {
    if Digits(b) {
      DigitRunOfDigits(b, 0, |b|);
    } else {
      var k :| 0 < k < |b| && b[k] == '.' && Digits(b[..k]) && Digits(b[k + 1..]);
      forall n | 0 <= n < k ensures IsDigit(b[n]) {
        assert b[n] == b[..k][n];
      }
      DigitRunOfDigits(b, 0, k);
      forall n | k + 1 <= n < |b| ensures IsDigit(b[n]) {
        assert b[n] == b[k + 1..][n - k - 1];
      }
      DigitRunOfDigits(b, k + 1, |b|);
    }
  }

  lemma ScannedIsUnsigned(b: string)
    requires UnsignedScan(b)
    ensures Unsigned(b)
  {
    var d := DigitRun(b, 0);
    if d < |b| {
      assert Digits(b[..d]);
      assert Digits(b[d + 1..]);
    }
  }

  lemma UnsignedByScan(b: string)
    ensures Unsigned(b) <==> UnsignedScan(b)
  {
    if Unsigned(b) { UnsignedIsScanned(b); }
    if UnsignedScan(b) { ScannedIsUnsigned(b); }
  }

  /** The scanner accepts exactly the coordinates of the pattern. */
  lemma CoordinateByScan(t: string)
    ensures IsCoordinate(t) <==> Coordinate(t)
  {
    UnsignedByScan(t);
    if |t| > 0 && t[0] == '-' {
      UnsignedByScan(t[1..]);
      assert !Digits(t);
      assert !exists k :: 0 < k < |t| && t[k] == '.' && Digits(t[..k]) && Digits(t[k + 1..]) by {
        assert forall k :: 0 < k < |t| ==> t[..k][0] == '-';
      }
    }
  }

  /** An unsigned number starts with a digit and holds only digits and dots. */
  lemma UnsignedChars(b: string)
    requires Unsigned(b)
    ensures |b| > 0 && IsDigit(b[0])
    ensures forall i :: 0 <= i < |b| ==> IsDigit(b[i]) || b[i] == '.'
  {
    if !Digits(b) {
      var k :| 0 < k < |b| && b[k] == '.' && Digits(b[..k]) && Digits(b[k + 1..]);
      assert b[..k][0] == b[0];
      forall i | 0 <= i < |b| ensures IsDigit(b[i]) || b[i] == '.' {
        if i < k { assert b[..k][i] == b[i]; }
        if i > k { assert b[k + 1..][i - k - 1] == b[i]; }
      }
    }
  }

  /** A coordinate is non-empty, holds no comma, and does not start with
      whitespace. */
  lemma CoordinateChars(t: string)
    requires Coordinate(t)
    ensures |t| > 0 && !IsSpace(t[0])
    ensures ',' !in t
  {
    var b := if t[0] == '-' then t[1..] else t;
    UnsignedChars(b);
    forall i | 0 <= i < |t| ensures t[i] != ',' {
      if t[0] == '-' && i > 0 { assert t[i] == b[i - 1]; }
    }
  }

  lemma ScanFindsPattern(s: string)
    requires IsLatLong(s)
    ensures PatternAt(s, IndexOf(s, ','), SpaceRun(s, IndexOf(s, ',') + 1))
  {
    var c := IndexOf(s, ',');
    var j := SpaceRun(s, c + 1);
    CoordinateByScan(s[..c]);
    CoordinateByScan(s[j..]);
  }

  lemma PatternIsScanned(s: string, c: int, j: int)
    requires PatternAt(s, c, j)
    ensures IsLatLong(s)
  {
    CoordinateChars(s[..c]);
    CoordinateChars(s[j..]);
    IndexOfIsFirst(s, ',', c);
    forall i | c + 1 <= i < j ensures IsSpace(s[i]) {
      assert s[c + 1..j][i - c - 1] == s[i];
    }
    assert s[j..][0] == s[j];
    assert SpaceRun(s, c + 1) == j;
    CoordinateByScan(s[..c]);
    CoordinateByScan(s[j..]);
  }

  /** The scanning recogniser accepts exactly the texts the pattern matches. */
  lemma IsLatLongMatchesPattern(s: string)
    ensures IsLatLong(s) <==> LatLongPattern(s)
  {
    if IsLatLong(s) {
      ScanFindsPattern(s);
    }
    if LatLongPattern(s) {
      var c, j :| PatternAt(s, c, j);
      PatternIsScanned(s, c, j);
    }
  }

  /** The model-field errors, in the order cleaning reports them. */
  datatype FieldError = Blank | InvalidLatLong | MaxLength

  function ErrorCode(e: FieldError): string {
    match e
    case Blank => "blank"
    case InvalidLatLong => "invalid_lat_long"
    case MaxLength => "max_length"
  }

  const LatLongMaxLength: nat := 36

  /** Cleaning the lat_long field: an empty text fails the required-field
      check alone; otherwise the RegexValidator and then the length cap each
      add their error. */
  function CleanLatLong(s: string): (errors: seq<FieldError>)
    ensures errors == [] <==> s != "" && LatLongPattern(s) && |s| <= LatLongMaxLength
    ensures Blank in errors <==> s == ""
    ensures InvalidLatLong in errors <==> s != "" && !LatLongPattern(s)
    ensures MaxLength in errors <==> |s| > LatLongMaxLength
    ensures |errors| <= 2 && (Blank in errors ==> errors == [Blank])
    ensures InvalidLatLong in errors && MaxLength in errors ==> errors == [InvalidLatLong, MaxLength]
  {
    IsLatLongMatchesPattern(s);
    if s == "" then [Blank]
    else (if IsLatLong(s) then [] else [InvalidLatLong]) + (if |s| > LatLongMaxLength then [MaxLength] else [])
  }

  lemma CoordinateExamples()
    ensures IsCoordinate("64.144367") && IsCoordinate("-21.939182")
  {
    var lat := "64.144367";
    DigitRunOfDigits(lat, 0, 2);
    DigitRunOfDigits(lat, 3, 9);
    var long := "-21.939182";
    var b := long[1..];
    assert b == "21.939182";
    DigitRunOfDigits(b, 0, 2);
    DigitRunOfDigits(b, 3, 9);
  }

  lemma ExampleSplitPoints(s: string)
    requires s == "64.144367, -21.939182"
    ensures ',' in s && IndexOf(s, ',') == 9 && SpaceRun(s, 10) == 11
    ensures s[..9] == "64.144367" && s[11..] == "-21.939182"
  {
    assert s[9] == ',';
    assert s[..9] == "64.144367";
    IndexOfIsFirst(s, ',', 9);
    assert SpaceRun(s, 11) == 11;
  }

  lemma ExampleAccepted()
    ensures IsLatLong("64.144367, -21.939182")
  {
    CoordinateExamples();
    ExampleSplitPoints("64.144367, -21.939182");
  }

  lemma ExampleRejected()
    ensures !IsLatLong("64.14, abc")
  {
    var s := "64.14, abc";
    assert s[..5] == "64.14";
    IndexOfIsFirst(s, ',', 5);
    assert SpaceRun(s, 7) == 7;
    assert SpaceRun(s, 6) == 7;
    var t := s[7..];
    assert t == "abc";
    DigitRunOfDigits(t, 0, 0);
  }

  /** The example of the field's help text validates, and a text with a word
      for a longitude does not. */
  lemma HelpTextExample()
    ensures CleanLatLong("64.144367, -21.939182") == []
    ensures CleanLatLong("64.14, abc") == [InvalidLatLong]
  {
    ExampleAccepted();
    IsLatLongMatchesPattern("64.144367, -21.939182");
    ExampleRejected();
    IsLatLongMatchesPattern("64.14, abc");
  }

  // ---------------------------------------------------------------------
  // get_context

  /** After the pattern's comma come only whitespace and a coordinate, so
      no further comma. */
  lemma NoCommaAfter(s: string, c: int, j: int)
    requires PatternAt(s, c, j)
    ensures ',' !in s[c + 1..]
  {
    CoordinateChars(s[j..]);
    var long := s[c + 1..];
    forall i | 0 <= i < |long| ensures long[i] != ',' {
      if c + 1 + i < j {
        assert s[c + 1..j][i] == long[i];
      } else {
        assert s[j..][c + 1 + i - j] == long[i];
      }
    }
  }

  /** The text before the comma and the text after it, leading whitespace
      included, are exactly what splitting a valid lat_long at ',' gives. */
  lemma SplitValidLatLong(s: string)
    requires LatLongPattern(s)
    ensures var parts := Split(s, ',');
      && |parts| == 2
      && parts[0] + "," + parts[1] == s
      && Coordinate(parts[0])
      && exists k :: 0 <= k <= |parts[1]| && Spaces(parts[1][..k]) && Coordinate(parts[1][k..])
  {
    var c, j :| PatternAt(s, c, j);
    var lat, long := s[..c], s[c + 1..];
    CoordinateChars(lat);
    NoCommaAfter(s, c, j);
    assert s == lat + [','] + long;
    SplitAt(lat, long, ',');
    SplitNoSep(long, ',');
    var k := j - c - 1;
    assert long[..k] == s[c + 1..j];
    assert long[k..] == s[j..];
  }

  /** The template context of a page view. */
  class TemplateContext {
    var vars: map<string, string>

    constructor (vars: map<string, string>)
      ensures this.vars == vars
    {
      this.vars := vars;
    }
  }

  /** LocationPage.get_context after the base context is built: 'lat' is
      the part before the first comma, 'long' the part after it up to any
      further comma. A text without a comma writes 'lat' and then raises
      IndexError. */
  method GetContext(ctx: TemplateContext, latLong: string) returns (raised: Option<Exception>)
    modifies ctx
    ensures var parts := Split(latLong, ',');
      && (raised == None <==> |parts| >= 2)
      && (raised.Some? ==> raised.value == IndexError && ctx.vars == old(ctx.vars)["lat" := parts[0]])
      && (raised.None? ==> ctx.vars == old(ctx.vars)["lat" := parts[0]]["long" := parts[1]])
  {
    ctx.vars := ctx.vars["lat" := Split(latLong, ',')[0]];
    var parts := Split(latLong, ',');
    if |parts| < 2 {
      return Some(IndexError);
    }
    ctx.vars := ctx.vars["long" := parts[1]];
    raised := None;
  }
}
