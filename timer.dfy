/** `useTimer`: the elapsed time since the first move, rounded to whole
    seconds and shown as `M:SS` or `H:MM:SS`, and the hook's displayed
    string, empty until the clock has started. The same `padTime`,
    `formatTime` and timer logic appear verbatim in `App.tsx`. */
module Timer {
  import opened Wrappers
  import opened Text

  /** `padTime(n)`: the last two characters of `0${n}`. */
  function PadTime(n: int): (r: string)
    ensures |r| == 2
  {
    var padded := "0" + IntToString(n);
    padded[|padded| - 2..]
  }

  /** The value of two decimal digits. */
  lemma ParseTwoDigits(hi: nat, lo: nat)
    requires hi < 10 && lo < 10
    ensures AllDigits([Digit(hi), Digit(lo)]) && ParseNat([Digit(hi), Digit(lo)]) == 10 * hi + lo
  {
    var s := [Digit(hi), Digit(lo)];
    assert DigitValue(Digit(hi)) == hi && DigitValue(Digit(lo)) == lo;
    assert s[..1] == [Digit(hi)];
    assert [Digit(hi)][..0] == [];
    assert ParseNat([Digit(hi)]) == hi;
  }

  /** Below 100, `padTime` writes `n` as exactly two decimal digits. */
  lemma PadTimeDigits(n: int)
    requires 0 <= n < 100
    ensures PadTime(n) == [Digit(n / 10), Digit(n % 10)]
    ensures AllDigits(PadTime(n)) && ParseNat(PadTime(n)) == n
  {
    var padded := "0" + IntToString(n);
    if n < 10 {
      assert IntToString(n) == [Digit(n)];
      assert padded == [Digit(0), Digit(n)];
      assert padded[|padded| - 2..] == padded;
    } else {
      assert NatToString(n / 10) == [Digit(n / 10)];
      assert IntToString(n) == [Digit(n / 10), Digit(n % 10)];
      assert padded[|padded| - 2..] == IntToString(n);
    }
    ParseTwoDigits(n / 10, n % 10);
  }

  /** `Math.round(ms / 1000)`: the nearest whole second, halves rounded up. */
  function RoundSeconds(ms: int): (t: int)
    ensures 1000 * t - 500 <= ms < 1000 * t + 500
  {
    (ms + 500) / 1000
  }

  /** JavaScript's `a % 60`: the remainder takes the sign of `a`. */
  function JsRem60(a: int): (r: int)
    ensures a >= 0 ==> 0 <= r < 60
    ensures a < 0 ==> -60 < r <= 0
    ensures (a - r) % 60 == 0
  {
    if a >= 0 then a % 60 else -((-a) % 60)
  }

  /** JavaScript's `a / b` where `b` divides `a`, so the quotient is whole. */
  function ExactDiv(a: int, b: int): (q: int)
    requires b != 0 && a % b == 0
    ensures q * b == a
  {
    a / b
  }

  datatype Clock = Clock(hours: int, minutes: int, seconds: int)

  lemma HoursExact(t: int, s: int, m: int)
    requires (t - s) % 60 == 0 && ((t - s) / 60 - m) % 60 == 0
    ensures (t - s - m * 60) % 3600 == 0
  {
    var q := (t - s) / 60;
    var k := (q - m) / 60;
    assert t - s - m * 60 == 3600 * k;
  }

  /** The `s`, `m`, `h` of `formatTime`, computed from whole seconds `t`
      with JavaScript's `%` and its divisions, each of which is exact. */
  function Decompose(t: int): (c: Clock)
    ensures 3600 * c.hours + 60 * c.minutes + c.seconds == t
    ensures -60 < c.seconds < 60 && -60 < c.minutes < 60
  {
    var s := JsRem60(t);
    var m := JsRem60(ExactDiv(t - s, 60));
    HoursExact(t, s, m);
    var h := ExactDiv(t - s - m * 60, 3600);
    Clock(h, m, s)
  }

  /** For a non-negative count of seconds, the decomposition is into hours,
      minutes below 60 and seconds below 60. */
  lemma DecomposeNonNegative(t: int)
    requires t >= 0
    ensures var c := Decompose(t);
      && c.hours == t / 3600 && c.minutes == (t / 60) % 60 && c.seconds == t % 60
      && c.hours >= 0 && 0 <= c.minutes < 60 && 0 <= c.seconds < 60
  {
    var c := Decompose(t);
    assert c.seconds == t % 60;
    assert (t - t % 60) / 60 == t / 60;
    assert c.minutes == (t / 60) % 60;
    assert t == 3600 * c.hours + 60 * c.minutes + c.seconds;
    assert t / 60 == 60 * c.hours + c.minutes;
    assert t / 3600 == (t / 60) / 60;
  }

  /** `formatTime(timeMillis)`. */
  function FormatTime(ms: int): (r: string) {
    var c := Decompose(RoundSeconds(ms));
    (if c.hours > 0 then IntToString(c.hours) + ":" else "")
      + (if c.hours > 0 then PadTime(c.minutes) else IntToString(c.minutes))
      + ":" + PadTime(c.seconds)
  }

  /** Two decimal digits worth less than 60. */
  predicate IsSixtieth(s: string) {
    |s| == 2 && AllDigits(s) && ParseNat(s) < 60
  }

  /** Reading `M:SS` or `H:MM:SS` (hours without a leading zero) back as a
      count of seconds: the inverse of `FormatTime` on times not before the
      start. */
  function ParseClock(s: string): (r: Option<int>)
    ensures r.Some? ==> r.value >= 0
  {
    ParseFields(Split(s, ':'))
  }

  /** The value of the fields of `M:SS` or `H:MM:SS`, if they are well formed. */
  function ParseFields(parts: seq<string>): (r: Option<int>)
    ensures r.Some? ==> r.value >= 0
  {
    if |parts| == 2 && IsMinutes(parts[0]) && IsSixtieth(parts[1]) then
      Some(60 * ParseNat(parts[0]) + ParseNat(parts[1]))
    else if |parts| == 3 && IsHours(parts[0]) && IsSixtieth(parts[1]) && IsSixtieth(parts[2]) then
      Some(3600 * ParseNat(parts[0]) + 60 * ParseNat(parts[1]) + ParseNat(parts[2]))
    else
      None
  }

  /** Unpadded minutes: at least one digit. */
  predicate IsMinutes(s: string) {
    |s| >= 1 && AllDigits(s)
  }

  /** Hours: digits without a leading zero. */
  predicate IsHours(s: string) {
    |s| >= 1 && AllDigits(s) && s[0] != '0'
  }

  lemma NoColonInDigits(s: string)
    requires AllDigits(s)
    ensures ':' !in s
  {}

  lemma NatToStringLeading(n: nat)
    requires n > 0
    ensures NatToString(n)[0] != '0'
    decreases n
  {
    if n >= 10 {
      NatToStringLeading(n / 10);
    }
  }

  /** `a:b` splits into `a` and `b` when neither holds a colon. */
  lemma SplitTwo(a: string, b: string)
    requires ':' !in a && ':' !in b
    ensures Split(a + ":" + b, ':') == [a, b]
  {
    SplitAfterField(a, ':', b);
    SplitNoSeparator(b, ':');
  }

  /** `formatTime` on a clock that has not gone backwards, spelled out. */
  lemma FormatTimeParts(ms: int)
    requires ms >= 0
    ensures var c := Decompose(RoundSeconds(ms));
      && (c.hours > 0 ==> FormatTime(ms) == NatToString(c.hours) + ":" + (PadTime(c.minutes) + ":" + PadTime(c.seconds)))
      && (c.hours <= 0 ==> FormatTime(ms) == NatToString(c.minutes) + ":" + PadTime(c.seconds))
  {
    var t := RoundSeconds(ms);
    var c := Decompose(t);
    DecomposeNonNegative(t);
    var hh := IntToString(c.hours) + ":";
    var mm := PadTime(c.minutes);
    var ss := PadTime(c.seconds);
    if c.hours > 0 {
      assert FormatTime(ms) == hh + mm + ":" + ss;
      Regroup(hh, mm, ":", ss);
    } else {
      assert FormatTime(ms) == "" + IntToString(c.minutes) + ":" + ss;
      assert "" + IntToString(c.minutes) == NatToString(c.minutes);
    }
  }

  lemma Regroup(x: string, y: string, z: string, w: string)
    ensures x + y + z + w == x + (y + z + w)
  {}

  /** `a:b:c` splits into its three fields when none holds a colon. */
  lemma SplitThree(str: string, a: string, b: string, c: string)
    requires ':' !in a && ':' !in b && ':' !in c
    requires str == a + ":" + (b + ":" + c)
    ensures Split(str, ':') == [a, b, c]
  {
    SplitAfterField(a, ':', b + ":" + c);
    SplitTwo(b, c);
  }

  /** The fields of the display, split at its colons. */
  lemma FormatTimeFields(ms: int)
    requires ms >= 0
    ensures var c := Decompose(RoundSeconds(ms));
      && (c.hours > 0 ==> Split(FormatTime(ms), ':') == [NatToString(c.hours), PadTime(c.minutes), PadTime(c.seconds)])
      && (c.hours <= 0 ==> Split(FormatTime(ms), ':') == [NatToString(c.minutes), PadTime(c.seconds)])
  {
    var c := Decompose(RoundSeconds(ms));
    DecomposeNonNegative(RoundSeconds(ms));
    FormatTimeParts(ms);
    PadTimeDigits(c.minutes);
    PadTimeDigits(c.seconds);
    var mm := PadTime(c.minutes);
    var ss := PadTime(c.seconds);
    NoColonInDigits(mm);
    NoColonInDigits(ss);
    if c.hours > 0 {
      var hh := NatToString(c.hours);
      NoColonInDigits(hh);
      SplitThree(FormatTime(ms), hh, mm, ss);
    } else {
      var m := NatToString(c.minutes);
      NoColonInDigits(m);
      assert FormatTime(ms) == m + ":" + ss;
      SplitTwo(m, ss);
    }
  }

  /** `H:MM:SS` fields that are well formed read back as their value. */
  lemma FieldsThree(hh: string, mm: string, ss: string)
    requires IsHours(hh) && IsSixtieth(mm) && IsSixtieth(ss)
    ensures ParseFields([hh, mm, ss]) == Some(3600 * ParseNat(hh) + 60 * ParseNat(mm) + ParseNat(ss))
  {}

  /** `M:SS` fields that are well formed read back as their value. */
  lemma FieldsTwo(mm: string, ss: string)
    requires IsMinutes(mm) && IsSixtieth(ss)
    ensures ParseFields([mm, ss]) == Some(60 * ParseNat(mm) + ParseNat(ss))
  {}

  /** Below 60, `padTime` writes a well-formed minutes or seconds field. */
  lemma PadTimeSixtieth(n: int)
    requires 0 <= n < 60
    ensures IsSixtieth(PadTime(n)) && ParseNat(PadTime(n)) == n
  {
    PadTimeDigits(n);
  }

  /** A positive count of hours is written without a leading zero. */
  lemma HoursField(h: nat)
    requires h > 0
    ensures IsHours(NatToString(h)) && ParseNat(NatToString(h)) == h
  {
    NatToStringLeading(h);
    ParseNatToString(h);
  }

  lemma ParseHoursMinutesSeconds(h: nat, m: nat, s: nat, t: int)
    requires h > 0 && m < 60 && s < 60 && t == 3600 * h + 60 * m + s
    ensures ParseFields([NatToString(h), PadTime(m), PadTime(s)]) == Some(t)
  {
    PadTimeSixtieth(m);
    PadTimeSixtieth(s);
    HoursField(h);
    FieldsValue(NatToString(h), PadTime(m), PadTime(s), h, m, s, t);
  }

  /** Fields worth `h`, `m` and `s` read back as `t` seconds. */
  lemma FieldsValue(hh: string, mm: string, ss: string, h: int, m: int, s: int, t: int)
    requires IsHours(hh) && IsSixtieth(mm) && IsSixtieth(ss)
    requires ParseNat(hh) == h && ParseNat(mm) == m && ParseNat(ss) == s
    requires t == 3600 * h + 60 * m + s
    ensures ParseFields([hh, mm, ss]) == Some(t)
  {
    FieldsThree(hh, mm, ss);
  }

  lemma ParseMinutesSeconds(m: nat, s: nat, t: int)
    requires s < 60 && t == 60 * m + s
    ensures ParseFields([NatToString(m), PadTime(s)]) == Some(t)
  {
    PadTimeSixtieth(s);
    ParseNatToString(m);
    MinutesValue(NatToString(m), PadTime(s), m, s, t);
  }

  /** Fields worth `m` and `s` read back as `t` seconds. */
  lemma MinutesValue(mm: string, ss: string, m: int, s: int, t: int)
    requires IsMinutes(mm) && IsSixtieth(ss)
    requires ParseNat(mm) == m && ParseNat(ss) == s
    requires t == 60 * m + s
    ensures ParseFields([mm, ss]) == Some(t)
  {
    FieldsTwo(mm, ss);
  }

  /** The displayed time reads back as the rounded number of seconds, for
      every elapsed time that is not negative. */
  lemma FormatTimeRoundTrip(ms: int)
    requires ms >= 0
    ensures ParseClock(FormatTime(ms)) == Some(RoundSeconds(ms))
  {
    var t := RoundSeconds(ms);
    var c := Decompose(t);
    DecomposeNonNegative(t);
    FormatTimeFields(ms);
    assert ParseClock(FormatTime(ms)) == ParseFields(Split(FormatTime(ms), ':'));
    if c.hours > 0 {
      ParseHoursMinutesSeconds(c.hours, c.minutes, c.seconds, t);
    } else {
      ParseMinutesSeconds(c.minutes, c.seconds, t);
    }
  }

  /** Under an hour the display is `M:SS` with unpadded minutes; from an
      hour on it is `H:MM:SS`. */
  lemma FormatTimeShape(ms: int)
    requires ms >= 0
    ensures var t := RoundSeconds(ms);
      var parts := Split(FormatTime(ms), ':');
      && (t < 3600 ==> parts == [NatToString(t / 60), PadTime(t % 60)])
      && (t >= 3600 ==> parts == [NatToString(t / 3600), PadTime((t / 60) % 60), PadTime(t % 60)])
  {
    var t := RoundSeconds(ms);
    var c := Decompose(t);
    DecomposeNonNegative(t);
    FormatTimeFields(ms);
    UnderAnHour(t);
  }

  /** Below an hour there are no hours and the minutes need no wrapping. */
  lemma UnderAnHour(t: int)
    requires t >= 0
    ensures t < 3600 <==> t / 3600 <= 0
    ensures t < 3600 ==> (t / 60) % 60 == t / 60
  {}

  /** Hours, minutes below 60 and seconds below 60 are what they decompose
      back into. */
  lemma DecomposeOf(h: nat, m: nat, s: nat)
    requires m < 60 && s < 60
    ensures Decompose(3600 * h + 60 * m + s) == Clock(h, m, s)
  {
    var t := 3600 * h + 60 * m + s;
    var c := Decompose(t);
    DecomposeNonNegative(t);
    assert t == 60 * (60 * h + m) + s;
    assert c.seconds == s;
    assert 60 * c.hours + c.minutes == 60 * h + m;
  }

  /** `formatTime` on a time of `m` minutes and `s` seconds, under an hour. */
  lemma FormatMinutesSeconds(ms: int, m: nat, s: nat)
    requires ms >= 0 && m < 60 && s < 60 && RoundSeconds(ms) == 60 * m + s
    ensures FormatTime(ms) == NatToString(m) + ":" + PadTime(s)
  {
    DecomposeOf(0, m, s);
    assert Decompose(RoundSeconds(ms)) == Clock(0, m, s);
    FormatTimeParts(ms);
  }

  /** `formatTime` on a time of `h` hours, `m` minutes and `s` seconds. */
  lemma FormatHoursMinutesSeconds(ms: int, h: nat, m: nat, s: nat)
    requires ms >= 0 && h > 0 && m < 60 && s < 60 && RoundSeconds(ms) == 3600 * h + 60 * m + s
    ensures FormatTime(ms) == NatToString(h) + ":" + (PadTime(m) + ":" + PadTime(s))
  {
    DecomposeOf(h, m, s);
    assert Decompose(RoundSeconds(ms)) == Clock(h, m, s);
    FormatTimeParts(ms);
  }

  /** A minute and five seconds. */
  lemma FormatTimeMinuteExample()
    ensures FormatTime(65000) == "1:05"
  {
    FormatMinutesSeconds(65000, 1, 5);
    assert NatToString(1) == "1";
    PadTimeDigits(5);
    assert PadTime(5) == "05";
  }

  /** An hour, two minutes and five seconds. */
  lemma FormatTimeHourExample()
    ensures FormatTime(3725000) == "1:02:05"
  {
    assert RoundSeconds(3725000) == 3600 * 1 + 60 * 2 + 5;
    FormatHoursMinutesSeconds(3725000, 1, 2, 5);
    PadTimeDigits(2);
    PadTimeDigits(5);
    SpellHourExample(FormatTime(3725000), NatToString(1), PadTime(2), PadTime(5));
  }

  /** The concatenation the hour example spells. */
  lemma SpellHourExample(str: string, h: string, m: string, s: string)
    requires str == h + ":" + (m + ":" + s)
    requires h == "1" && m == "02" && s == "05"
    ensures str == "1:02:05"
  {}

  /** The clock at its start. */
  lemma FormatTimeZeroExample()
    ensures FormatTime(0) == "0:00"
  {
    FormatMinutesSeconds(0, 0, 0);
    assert NatToString(0) == "0";
    PadTimeDigits(0);
    assert PadTime(0) == "00";
  }

  /** Just under a minute, 59.499 seconds shows as `0:59`. */
  lemma FormatTimeRoundDownExample()
    ensures FormatTime(59499) == "0:59"
  {
    FormatMinutesSeconds(59499, 0, 59);
    assert NatToString(0) == "0";
    PadTimeDigits(59);
    assert PadTime(59) == "59";
  }

  /** Half a second rounds up: 59.5 seconds shows as `1:00`. */
  lemma FormatTimeRoundUpExample()
    ensures FormatTime(59500) == "1:00"
  {
    FormatMinutesSeconds(59500, 1, 0);
    assert NatToString(1) == "1";
    PadTimeDigits(0);
    assert PadTime(0) == "00";
  }

  /** The time `updateCount` formats: up to the stop time once the puzzle is
      solved, up to `now` while it runs, nothing before the first move. */
  function Elapsed(startTime: Option<int>, stopTime: Option<int>, now: int): (r: Option<int>)
    ensures r.Some? <==> startTime.Some?
    ensures stopTime.Some? && r.Some? ==> r.value + startTime.value == stopTime.value
    ensures stopTime.None? && r.Some? ==> r.value + startTime.value == now
  {
    match startTime
    case None => None
    case Some(start) =>
      match stopTime
      case Some(stop) => Some(stop - start)
      case None => Some(now - start)
  }

  /** Once stopped, the clock shows the same time whenever it is read. */
  lemma StoppedClockIsFrozen(startTime: int, stopTime: int, now: int, later: int)
    ensures FormatTime(Elapsed(Some(startTime), Some(stopTime), now).value) ==
            FormatTime(Elapsed(Some(startTime), Some(stopTime), later).value)
  {}

  /** The state cell of `useTimer` and of `App.tsx`'s `Timer`. */
  class TimerHook {
    var time: string

    constructor ()
      ensures time == "00:00"
    {
      time := "00:00";
    }

    /** `updateCount`, as the interval calls it; `now` is `new Date()`. */
    method UpdateCount(startTime: Option<int>, stopTime: Option<int>, now: int)
      modifies this
      ensures startTime.None? ==> time == old(time)
      ensures startTime.Some? ==> time == FormatTime(Elapsed(startTime, stopTime, now).value)
    {
      if startTime.None? {
        return;
      }
      var elapsed;
      if stopTime.Some? {
        elapsed := stopTime.value - startTime.value;
      } else {
        elapsed := now - startTime.value;
      }
      assert elapsed == Elapsed(startTime, stopTime, now).value;
      var formatted := FormatTime(elapsed);
      if formatted != time {
        time := formatted;
      }
    }

    /** What the hook returns: nothing before the first move, otherwise the
        stored time. */
    function Display(startTime: Option<int>): (r: string)
      reads this
      ensures startTime.None? ==> r == ""
      ensures startTime.Some? ==> r == time
    {
      if startTime.Some? then time else ""
    }
  }
}
