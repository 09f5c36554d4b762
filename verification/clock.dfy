/**
 * Simulated time (utils/timer.py).
 *
 * An instant is a whole number of seconds since midnight of the timer's first day
 * (1900-01-01 when the clock is started from a bare "%H:%M"). A time of day is a number of
 * minutes since midnight. Dafny's `/` and `%` round toward minus infinity for a positive
 * divisor, which is how `datetime` splits an instant into day, hour and minute.
 */
module Clock {
  import opened Wrappers
  import opened Strings

  const MinutesPerDay: int := 1440
  const SecondsPerDay: int := 86400

  /** `date.hour` and `date.minute` of an instant. */
  function HourOf(t: int): int { (t / 3600) % 24 }
  function MinuteOf(t: int): int { (t / 60) % 60 }

  /** `daily_duration(date, "minute")`: minutes since midnight. */
  function DailyDuration(t: int): int
  {
    (HourOf(t) % 24) * 60 + MinuteOf(t)
  }

  /** `daily_duration(date, "hour")`. */
  function DailyHour(t: int): int
  {
    HourOf(t) % 24
  }

  /** The minute of the day is the instant's whole minutes modulo a day, so it lies in [0, 1440). */
  lemma DailyDurationRange(t: int)
    ensures DailyDuration(t) == (t / 60) % MinutesPerDay
    ensures 0 <= DailyDuration(t) < MinutesPerDay
    ensures DailyHour(t) == DailyDuration(t) / 60
  {
    var m := t / 60;
    assert t / 3600 == m / 60;
    assert (m / 60) % 24 * 60 + m % 60 == m % 1440;
  }

  /** "%H:%M" with zero padding. */
  function Pad2(n: int): string
    requires 0 <= n < 100
  {
    [DigitChar(n / 10), DigitChar(n % 10)]
  }

  function FormatClock(minutes: int): string
    requires 0 <= minutes < MinutesPerDay
  {
    Pad2(minutes / 60) + ":" + Pad2(minutes % 60)
  }

  /** `date_str.replace("24:", "0:")`, every occurrence. */
  function Replace24(s: string): string
    decreases |s|
  {
    if IsPrefix("24:", s) then "0:" + Replace24(s[3..])
    else if |s| == 0 then ""
    else [s[0]] + Replace24(s[1..])
  }

  /** One or two ASCII digits whose value is at most `max`: what strptime's %H and %M accept. */
  function Field(s: string, max: int): Option<int>
  {
    if 1 <= |s| <= 2 && AllDigits(s) && DigitsValue(s) <= max then Some(DigitsValue(s) as int) else None
  }

  /** `to_date(s, "%H:%M")`, as minutes since midnight; a leading "24:" is first rewritten to "0:". */
  function ParseClock(s: string): (r: Option<int>)
    ensures r.Some? ==> 0 <= r.value < MinutesPerDay
  {
    var t := if IsPrefix("24:", s) then Replace24(s) else s;
    var parts := Split(t, ':');
    if |parts| != 2 then None
    else match (Field(parts[0], 23), Field(parts[1], 59))
      case (Some(h), Some(m)) => Some(h * 60 + m)
      case _ => None
  }

  /** "24:00" is midnight. */
  lemma MidnightAs24()
    ensures ParseClock("24:00") == Some(0)
  {
    assert IsPrefix("24:", "24:00");
    assert "24:00"[3..] == "00";
    assert Replace24("00") == "00" by {
      assert !IsPrefix("24:", "00");
      assert "00"[1..] == "0";
      assert !IsPrefix("24:", "0");
      assert Replace24("0") == "0" + Replace24("");
    }
    assert Replace24("24:00") == "0:00";
    assert Split("0:00", ':') == ["0", "00"] by {
      assert "0:00"[1..] == ":00";
      assert ":00"[1..] == "00";
      assert "00"[1..] == "0";
      assert Split("0", ':') == ["0"];
      assert Split("00", ':') == ["00"];
    }
  }

  lemma Pad2Parses(n: int)
    requires 0 <= n < 100
    ensures AllDigits(Pad2(n)) && |Pad2(n)| == 2 && DigitsValue(Pad2(n)) == n
  {
    var p := Pad2(n);
    assert p[..1] == [DigitChar(n / 10)];
  }

  /** A formatted time of day parses back to itself. */
  lemma ClockRoundTrip(minutes: int)
    requires 0 <= minutes < MinutesPerDay
    ensures ParseClock(FormatClock(minutes)) == Some(minutes)
  {
    var h := minutes / 60;
    var m := minutes % 60;
    var s := FormatClock(minutes);
    Pad2Parses(h);
    Pad2Parses(m);
    assert DigitValue(s[0]) == h / 10 && DigitValue(s[1]) == h % 10;
    assert !IsPrefix("24:", s);
    SplitPadded(Pad2(h), Pad2(m));
  }

  lemma SplitPadded(a: string, b: string)
    requires |a| == 2 && |b| == 2 && AllDigits(a) && AllDigits(b)
    ensures Split(a + ":" + b, ':') == [a, b]
  {
    assert forall i :: 0 <= i < |a| ==> a[i] != ':' by {
      forall i | 0 <= i < |a| ensures a[i] != ':' { assert IsDigit(a[i]); }
    }
    assert forall i :: 0 <= i < |b| ==> b[i] != ':' by {
      forall i | 0 <= i < |b| ensures b[i] != ':' { assert IsDigit(b[i]); }
    }
    SplitAtFirst(a, ':', b);
    SplitNoSep(b, ':');
  }

  /** The time unit `get_delta` reports in. */
  datatype DeltaMode = Seconds | Minutes | Hours | Raw

  /** Which form a timer's start string is parsed with. */
  datatype StartFormat = FullDate | ClockOnly

  /** `"%Y%m%d-%H:%M" if "-" in start else "%H:%M"`. */
  function StartFormatOf(start: string): StartFormat
  {
    if Contains(start, "-") then FullDate else ClockOnly
  }

  /** A start string is read as a full date exactly when it has a '-' somewhere. */
  lemma StartFormatIff(start: string)
    ensures StartFormatOf(start) == FullDate <==> exists i :: 0 <= i < |start| && start[i] == '-'
  {
    ContainsIffOccurs(start, "-");
    if Contains(start, "-") {
      var i :| OccursAt(start, "-", i);
      assert start[i] == start[i..i + 1][0];
    }
    forall i | 0 <= i < |start| && start[i] == '-' ensures OccursAt(start, "-", i) {
      assert start[i..i + 1] == [start[i]];
    }
  }

  datatype Timer = Timer(offset: int)

  /** `Timer(start)`: no start means the wall clock `now`; a full date is read by the calendar
      parser `parseDate`, which the model does not implement; a bare time of day lands on day 0. */
  function NewTimer(start: string, now: int, parseDate: string -> Option<int>): (r: Option<Timer>)
    ensures start == "" ==> r == Some(Timer(now))
    ensures start != "" && StartFormatOf(start) == ClockOnly ==>
              r == (match ParseClock(start) case Some(m) => Some(Timer(60 * m)) case None => None)
    ensures start != "" && StartFormatOf(start) == FullDate ==>
              r == (match parseDate(start) case Some(t) => Some(Timer(t)) case None => None)
  {
    if start == "" then Some(Timer(now))
    else if StartFormatOf(start) == FullDate then
      (match parseDate(start) case Some(t) => Some(Timer(t)) case None => None)
    else
      (match ParseClock(start) case Some(m) => Some(Timer(60 * m)) case None => None)
  }

  /** `forward(k)`: advances the clock by k minutes. */
  function Forward(t: Timer, k: int): (r: Timer)
    ensures r.offset - t.offset == 60 * k
  {
    Timer(t.offset + 60 * k)
  }

  /** Forwarding composes additively, and moves the minute of the day by k modulo a day. */
  lemma ForwardAdds(t: Timer, a: int, b: int)
    ensures Forward(Forward(t, a), b) == Forward(t, a + b)
    ensures DailyDuration(Forward(t, a).offset) == (DailyDuration(t.offset) + a) % MinutesPerDay
  {
    var m := t.offset / 60;
    DailyDurationRange(t.offset);
    DailyDurationRange(Forward(t, a).offset);
    ModShift(a, t.offset, 60);
    assert (t.offset + 60 * a) / 60 == m + a;
    ModShift(m / MinutesPerDay, m % MinutesPerDay + a, MinutesPerDay);
  }

  /** `get_delta(start, end)`: seconds, rounded minutes or rounded hours (`round` ties to even). */
  function GetDelta(start: int, end: int, mode: DeltaMode): int
  {
    var seconds := end - start;
    match mode
    case Seconds => seconds
    case Minutes => RoundDiv(seconds, 60)
    case Hours => RoundDiv(seconds, 3600)
    case Raw => seconds
  }

  /** Between whole-minute instants the minute delta is exact, and negative when start is later. */
  lemma DeltaWholeMinutes(startMin: int, endMin: int)
    ensures GetDelta(60 * startMin, 60 * endMin, Minutes) == endMin - startMin
    ensures startMin > endMin ==> GetDelta(60 * startMin, 60 * endMin, Minutes) < 0
  {
    assert 60 * endMin - 60 * startMin == (endMin - startMin) * 60;
    RoundDivExact(endMin - startMin, 60);
  }

  /** Midnight of the day the timer is on. */
  function Midnight(t: Timer): int
  {
    (t.offset / SecondsPerDay) * SecondsPerDay
  }

  /** `daily_time(d)`: today's midnight plus d minutes. */
  function DailyTime(t: Timer, d: int): (r: int)
    ensures r - Midnight(t) == 60 * d
  {
    Midnight(t) + 60 * d
  }

  /** A time of day survives the trip through `daily_time` and `daily_duration`. */
  lemma DailyTimeRoundTrip(t: Timer, d: int)
    requires 0 <= d < MinutesPerDay
    ensures DailyDuration(DailyTime(t, d)) == d
  {
    var day := t.offset / SecondsPerDay;
    var r := DailyTime(t, d);
    DailyDurationRange(r);
    assert r == 60 * (day * 1440 + d);
    ModShift(day * 1440 + d, 0, 60);
    ModShift(day, d, 1440);
  }
}
