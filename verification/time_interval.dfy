/**
 * The duration constants and `timeFormattedDescription` of
 * TimeInterval.swift.  The interval is taken as a whole number of seconds
 * (the source truncates it with `Int(self)` first); Swift's integer `/`
 * and `%` truncate toward zero, which `Quot` and `Rem` spell out.
 */
module TimeIntervals {

  const MinuteLength: int := 60
  const HourLength: int := MinuteLength * 60
  const DayLength: int := HourLength * 24
  const WeekLength: int := DayLength * 7

  /** The lengths in seconds: a minute, an hour, a day and a week. */
  lemma LengthsInSeconds()
    ensures MinuteLength == 60 && HourLength == 3600 && DayLength == 86400 && WeekLength == 604800
  {
  }

  /** Swift's `a / b` on `Int` for a positive divisor: the quotient truncated toward zero. */
  function Quot(a: int, b: int): (q: int)
    requires b > 0
    ensures a >= 0 ==> 0 <= q * b <= a < q * b + b
    ensures a <= 0 ==> q * b - b < a <= q * b <= 0
  {
    if a >= 0 then a / b else -((-a) / b)
  }

  /** Swift's `a % b` on `Int` for a positive divisor: the remainder takes the sign of `a`. */
  function Rem(a: int, b: int): (r: int)
    requires b > 0
    ensures a == Quot(a, b) * b + r
    ensures a >= 0 ==> 0 <= r < b
    ensures a <= 0 ==> -b < r <= 0
  {
    a - Quot(a, b) * b
  }

  /** The four components the formatter computes. */
  datatype Duration = Duration(days: int, hours: int, minutes: int, seconds: int)

  /**
   * The decomposition step by step: minutes and seconds from the seconds,
   * hours and minutes from the minutes, days and hours from the hours.
   */
  function Decompose(s: int): (d: Duration)
    ensures d.days * DayLength + d.hours * HourLength + d.minutes * MinuteLength + d.seconds == s
    ensures s >= 0 ==> d.days >= 0 && 0 <= d.hours < 24 && 0 <= d.minutes < 60 && 0 <= d.seconds < 60
    ensures s <= 0 ==> d.days <= 0 && -24 < d.hours <= 0 && -60 < d.minutes <= 0 && -60 < d.seconds <= 0
  {
    var totalMinutes := Quot(s, 60);
    var totalHours := Quot(totalMinutes, 60);
    Duration(Quot(totalHours, 24), Rem(totalHours, 24), Rem(totalMinutes, 60), Rem(s, 60))
  }

  /** The units a description names, each with its length in seconds and its label. */
  datatype Unit = Day | Hour | Minute | Second
  {
    function Length(): int
    {
      match this
      case Day => DayLength
      case Hour => HourLength
      case Minute => MinuteLength
      case Second => 1
    }

    /** How many of this unit make up the next larger one (days per week for `Day`). */
    function Capacity(): int
    {
      match this
      case Day => 7
      case Hour => 24
      case Minute => 60
      case Second => 60
    }

    function Label(): string
    {
      match this
      case Day => "日"
      case Hour => "時間"
      case Minute => "分"
      case Second => "秒"
    }
  }

  /** All four parts of a duration, largest unit first. */
  function Parts(d: Duration): seq<(int, Unit)>
  {
    [(d.days, Day), (d.hours, Hour), (d.minutes, Minute), (d.seconds, Second)]
  }

  /**
   * The parts the description shows: from days when there are days, else
   * from hours when there are hours, else from minutes when there are
   * minutes, else the seconds alone.
   */
  function Shown(s: int): (r: seq<(int, Unit)>)
    ensures 1 <= |r| <= 4 && r == Parts(Decompose(s))[4 - |r|..]
    ensures |r| == 4 <==> s >= DayLength
    ensures |r| == 3 <==> HourLength <= s < DayLength
    ensures |r| == 2 <==> MinuteLength <= s < HourLength
    ensures |r| == 1 <==> s < MinuteLength
  {
    var d := Decompose(s);
    var parts := Parts(d);
    if d.days > 0 then parts
    else if d.hours > 0 then parts[1..]
    else if d.minutes > 0 then parts[2..]
    else parts[3..]
  }

  /** The value of shown parts, in seconds. */
  function Total(parts: seq<(int, Unit)>): int
  {
    if |parts| == 0 then 0 else parts[0].0 * parts[0].1.Length() + Total(parts[1..])
  }

  /**
   * A description never misstates a non-negative interval: its parts add
   * up to it.  A negative one shows only its seconds remainder, since no
   * larger component is positive.
   */
  lemma ShownAddsUp(s: int)
    ensures s >= 0 ==> Total(Shown(s)) == s
    ensures s < 0 ==> Shown(s) == [(Rem(s, 60), Second)] && Total(Shown(s)) == Rem(s, 60)
  {
    var d := Decompose(s);
    var parts := Parts(d);
    assert Total(parts[3..]) == d.seconds by {
      assert parts[3..][1..] == [];
    }
    assert Total(parts[2..]) == d.minutes * MinuteLength + d.seconds by {
      assert parts[2..][1..] == parts[3..];
    }
    assert Total(parts[1..]) == d.hours * HourLength + d.minutes * MinuteLength + d.seconds by {
      assert parts[1..][1..] == parts[2..];
    }
  }

  /** The parts after the first stay within their unit on a non-negative interval, and the first is positive unless it is the seconds. */
  lemma ShownInRange(s: int)
    requires s >= 0
    ensures var r := Shown(s);
      (|r| > 1 ==> r[0].0 > 0) &&
      forall k :: 0 < k < |r| ==> 0 <= r[k].0 < r[k].1.Capacity()
  {
    var d := Decompose(s);
    assert d.days * DayLength + d.hours * HourLength + d.minutes * MinuteLength + d.seconds == s;
  }

  // ---------------------------------------------------------------- rendering

  function DigitChar(n: int): char
    requires 0 <= n < 10
  {
    "0123456789"[n]
  }

  /** Swift's decimal rendering of a natural number. */
  function {:induction false} NatToString(n: nat): (r: string)
    ensures |r| > 0 && (forall k :: 0 <= k < |r| ==> '0' <= r[k] <= '9')
    ensures |r| > 1 ==> r[0] != '0'
    decreases n
  {
    if n < 10 then [DigitChar(n)] else NatToString(n / 10) + [DigitChar(n % 10)]
  }

  /** String interpolation of an `Int`: a minus sign for negatives, then the digits. */
  function IntToString(n: int): (r: string)
    ensures |r| > 0
    ensures n < 0 <==> r[0] == '-'
  {
    if n < 0 then "-" + NatToString(-n) else NatToString(n)
  }

  function DigitsValue(s: string): int
  {
    if |s| == 0 then 0 else DigitsValue(s[..|s| - 1]) * 10 + (s[|s| - 1] as int - '0' as int)
  }

  /** Reading the digits back gives the number: the rendering loses nothing. */
  lemma {:induction false} NatToStringRoundTrip(n: nat)
    ensures DigitsValue(NatToString(n)) == n
    decreases n
  {
    var r := NatToString(n);
    if n >= 10 {
      NatToStringRoundTrip(n / 10);
      assert r[..|r| - 1] == NatToString(n / 10);
    }
  }

  /** Reading a rendered integer back, sign included, gives the integer. */
  lemma IntToStringRoundTrip(n: int)
    ensures var r := IntToString(n);
      (if r[0] == '-' then -DigitsValue(r[1..]) else DigitsValue(r)) == n
  {
    NatToStringRoundTrip(if n < 0 then -n else n);
    if n < 0 {
      assert IntToString(n)[1..] == NatToString(-n);
    }
  }

  /** `"\(value) \(label)"` for each part, separated by single spaces. */
  function Render(parts: seq<(int, Unit)>): string
  {
    if |parts| == 0 then ""
    else
      var head := IntToString(parts[0].0) + " " + parts[0].1.Label();
      if |parts| == 1 then head else head + " " + Render(parts[1..])
  }

  /** Rendering a part in front of further parts. */
  lemma RenderCons(part: (int, Unit), rest: seq<(int, Unit)>)
    requires |rest| > 0
    ensures Render([part] + rest) == IntToString(part.0) + " " + part.1.Label() + " " + Render(rest)
  {
    assert ([part] + rest)[1..] == rest;
  }

  /** The rendering of the seconds alone, as the formatter's last branch writes it. */
  lemma RenderFromSeconds(d: Duration)
    ensures Render(Parts(d)[3..]) == IntToString(d.seconds) + " 秒"
  {
    assert Parts(d)[3..] == [(d.seconds, Second)];
    assert " " + "秒" == " 秒";
  }

  /** The rendering from the minutes, as the formatter's third branch writes it. */
  lemma RenderFromMinutes(d: Duration)
    ensures Render(Parts(d)[2..]) == IntToString(d.minutes) + " 分 " + IntToString(d.seconds) + " 秒"
  {
    var parts := Parts(d);
    assert parts[2..] == [(d.minutes, Minute)] + parts[3..];
    RenderCons((d.minutes, Minute), parts[3..]);
    RenderFromSeconds(d);
    assert " " + "分" + " " == " 分 ";
  }

  /** The rendering from the hours, as the formatter's second branch writes it. */
  lemma RenderFromHours(d: Duration)
    ensures Render(Parts(d)[1..])
      == IntToString(d.hours) + " 時間 " + IntToString(d.minutes) + " 分 " + IntToString(d.seconds) + " 秒"
  {
    var parts := Parts(d);
    assert parts[1..] == [(d.hours, Hour)] + parts[2..];
    RenderCons((d.hours, Hour), parts[2..]);
    Spaced(IntToString(d.hours), "時間", " 時間 ");
    RenderFromMinutes(d);
    Regroup(IntToString(d.hours) + " 時間 ", IntToString(d.minutes), " 分 ", IntToString(d.seconds), " 秒");
  }

  /** The rendering of all four parts, as the formatter's first branch writes it. */
  lemma RenderFromDays(d: Duration)
    ensures Render(Parts(d)) == IntToString(d.days) + " 日 " + IntToString(d.hours) + " 時間 "
      + IntToString(d.minutes) + " 分 " + IntToString(d.seconds) + " 秒"
  {
    var parts := Parts(d);
    assert parts == [(d.days, Day)] + parts[1..];
    RenderCons((d.days, Day), parts[1..]);
    Spaced(IntToString(d.days), "日", " 日 ");
    RenderFromHours(d);
    var x := IntToString(d.days) + " 日 ";
    Regroup(x, IntToString(d.hours) + " 時間 " + IntToString(d.minutes), " 分 ", IntToString(d.seconds), " 秒");
    Regroup3(x, IntToString(d.hours), " 時間 ", IntToString(d.minutes));
  }

  /** A value, a space, a label and a space: the value followed by the spaced label. */
  lemma Spaced(v: string, name: string, spaced: string)
    requires spaced == " " + name + " "
    ensures v + " " + name + " " == v + spaced
  {
  }

  /** Appending a left-nested chain of three pieces to `x` is the longer left-nested chain. */
  lemma Regroup3<T>(x: seq<T>, a: seq<T>, b: seq<T>, c: seq<T>)
    ensures x + (a + b + c) == x + a + b + c
  {
  }

  /** Appending a left-nested chain of four pieces to `x` is the longer left-nested chain. */
  lemma Regroup<T>(x: seq<T>, a: seq<T>, b: seq<T>, c: seq<T>, e: seq<T>)
    ensures x + (a + b + c + e) == x + a + b + c + e
  {
  }

  /**
   * `timeFormattedDescription`: seconds, minutes and hours are reduced in
   * turn with truncating `/` and `%`, then the first positive component
   * among days, hours and minutes picks how much to show.
   */
  method TimeFormattedDescription(interval: int) returns (text: string)
    ensures text == Render(Shown(interval))
  {
    var seconds := interval;

    var minutes := Quot(seconds, 60);
    seconds := Rem(seconds, 60);

    var hours := Quot(minutes, 60);
    minutes := Rem(minutes, 60);

    var days := Quot(hours, 24);
    hours := Rem(hours, 24);

    var d := Decompose(interval);
    assert d == Duration(days, hours, minutes, seconds);
    if days > 0 {
      text := IntToString(days) + " 日 " + IntToString(hours) + " 時間 " + IntToString(minutes) + " 分 " + IntToString(seconds) + " 秒";
      RenderFromDays(d);
    } else if hours > 0 {
      text := IntToString(hours) + " 時間 " + IntToString(minutes) + " 分 " + IntToString(seconds) + " 秒";
      RenderFromHours(d);
    } else if minutes > 0 {
      text := IntToString(minutes) + " 分 " + IntToString(seconds) + " 秒";
      RenderFromMinutes(d);
    } else {
      text := IntToString(seconds) + " 秒";
      RenderFromSeconds(d);
    }
  }
}
