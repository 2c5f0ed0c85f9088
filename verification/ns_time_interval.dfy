/**
 * NSTimeInterval.swift: the pre-Swift-3 copy of the duration constants and
 * of `timeFormattedDescription`.  Its formatter writes `x = x % n` where the
 * newer one writes `x %= n`; it yields the same text.
 */
module NSTimeIntervals {

  import TimeIntervals

  const MinuteLength: int := 60
  const HourLength: int := MinuteLength * 60
  const DayLength: int := HourLength * 24
  const WeekLength: int := DayLength * 7

  /** The legacy constants are the same lengths as the current ones. */
  lemma SameLengths()
    ensures MinuteLength == TimeIntervals.MinuteLength && HourLength == TimeIntervals.HourLength
    ensures DayLength == TimeIntervals.DayLength && WeekLength == TimeIntervals.WeekLength
  {
  }

  /** The legacy `timeFormattedDescription`: the same text as the current formatter for every interval. */
  method LegacyTimeFormattedDescription(interval: int) returns (text: string)
    ensures text == TimeIntervals.Render(TimeIntervals.Shown(interval))
  {
    var seconds := interval;

    var minutes := TimeIntervals.Quot(seconds, 60);
    seconds := TimeIntervals.Rem(seconds, 60);

    var hours := TimeIntervals.Quot(minutes, 60);
    minutes := TimeIntervals.Rem(minutes, 60);

    var days := TimeIntervals.Quot(hours, 24);
    hours := TimeIntervals.Rem(hours, 24);

    ghost var d := TimeIntervals.Decompose(interval);
    assert d == TimeIntervals.Duration(days, hours, minutes, seconds);
    if days > 0 {
      text := TimeIntervals.IntToString(days) + " 日 " + TimeIntervals.IntToString(hours) + " 時間 " +
        TimeIntervals.IntToString(minutes) + " 分 " + TimeIntervals.IntToString(seconds) + " 秒";
      TimeIntervals.RenderFromDays(d);
    } else if hours > 0 {
      text := TimeIntervals.IntToString(hours) + " 時間 " + TimeIntervals.IntToString(minutes) + " 分 " +
        TimeIntervals.IntToString(seconds) + " 秒";
      TimeIntervals.RenderFromHours(d);
    } else if minutes > 0 {
      text := TimeIntervals.IntToString(minutes) + " 分 " + TimeIntervals.IntToString(seconds) + " 秒";
      TimeIntervals.RenderFromMinutes(d);
    } else {
      text := TimeIntervals.IntToString(seconds) + " 秒";
      TimeIntervals.RenderFromSeconds(d);
    }
  }
}
