/**
 * `formatDuration` and `formatAge`: integer milliseconds broken into the
 * fields the listing prints. Each result is a datatype holding the printed
 * numbers; `Text` renders it as the string the page shows.
 */
module Format {
  import opened Text

  /** The fields printed by `formatDuration`: "12s", "3m 7s" or "1h 2m 3s". */
  datatype Duration =
    | Seconds(total: int)
    | MinutesSeconds(minutes: nat, seconds: nat)
    | HoursMinutesSeconds(hours: nat, minutes: nat, seconds: nat)
  {
    /** The number of whole seconds the printed fields stand for. */
    function TotalSeconds(): int {
      match this
      case Seconds(s) => s
      case MinutesSeconds(m, s) => m * 60 + s
      case HoursMinutesSeconds(h, m, s) => h * 3600 + m * 60 + s
    }

    function Text(): string {
      match this
      case Seconds(s) => IntToString(s) + "s"
      case MinutesSeconds(m, s) => NatToString(m) + "m " + NatToString(s) + "s"
      case HoursMinutesSeconds(h, m, s) => NatToString(h) + "h " + NatToString(m) + "m " + NatToString(s) + "s"
    }
  }

  /**
   * `formatDuration(ms)`: whole seconds, then minutes and hours once they
   * are reached; every field after the first is below 60, and the fields
   * add up to the whole seconds in `ms` (rounded down).
   */
  function FormatDuration(ms: int): (d: Duration)
    ensures d.TotalSeconds() == ms / 1000
    ensures d.Seconds? <==> ms / 1000 < 60
    ensures d.HoursMinutesSeconds? <==> ms / 1000 >= 3600
    ensures d.MinutesSeconds? ==> 1 <= d.minutes < 60 && d.seconds < 60
    ensures d.HoursMinutesSeconds? ==> 1 <= d.hours && d.minutes < 60 && d.seconds < 60
  {
    var seconds := ms / 1000;
    if seconds < 60 then Seconds(seconds)
    else
      var minutes := seconds / 60;
      if minutes < 60 then MinutesSeconds(minutes, seconds % 60)
      else HoursMinutesSeconds(minutes / 60, minutes % 60, seconds % 60)
  }

  /** The phrases printed by `formatAge`. */
  datatype Age =
    | JustNow
    | AMinuteAgo
    | MinutesAgo(minutes: nat)
    | AnHourAgo
    | HoursAgo(hours: nat)
    | ADayAgo
    | DaysAgo(days: nat)
    | AYearAgo
    | YearsAgo(years: nat)
  {
    function Text(): string {
      match this
      case JustNow => "just now"
      case AMinuteAgo => "a minute ago"
      case MinutesAgo(n) => NatToString(n) + " min ago"
      case AnHourAgo => "an hour ago"
      case HoursAgo(n) => NatToString(n) + " hrs ago"
      case ADayAgo => "a day ago"
      case DaysAgo(n) => NatToString(n) + " days ago"
      case AYearAgo => "a year ago"
      case YearsAgo(n) => NatToString(n) + " years ago"
    }
  }

  /**
   * `formatAge(date)` evaluated at time `now`: the phrase for the age
   * `now - date`. Each phrase covers one interval of ages, and a phrase with
   * a count covers the ages from that many units up to one more. Ages are
   * in milliseconds: a minute is 60000, an hour 3600000, a day 86400000
   * and a year of 365 days 31536000000.
   */
  function FormatAge(now: int, date: int): (a: Age)
    ensures a == JustNow <==> now - date < 60000
    ensures a == AMinuteAgo <==> 60000 <= now - date < 120000
    ensures a.MinutesAgo? ==> 2 <= a.minutes < 60 && a.minutes * 60000 <= now - date < (a.minutes + 1) * 60000
    ensures a == AnHourAgo <==> 3600000 <= now - date < 7200000
    ensures a.HoursAgo? ==> 2 <= a.hours < 24 && a.hours * 3600000 <= now - date < (a.hours + 1) * 3600000
    ensures a == ADayAgo <==> 86400000 <= now - date < 172800000
    ensures a.DaysAgo? ==> 2 <= a.days < 365 && a.days * 86400000 <= now - date < (a.days + 1) * 86400000
    ensures a == AYearAgo <==> 31536000000 <= now - date < 63072000000
    ensures a.YearsAgo? ==> 2 <= a.years && a.years * 31536000000 <= now - date < (a.years + 1) * 31536000000
  {
    var age := now - date;
    if age < 60000 then JustNow
    else if age < 120000 then AMinuteAgo
    else if age < 3600000 then MinutesAgo(Units(age, 60000))
    else if age < 7200000 then AnHourAgo
    else if age < 86400000 then HoursAgo(Units(age, 3600000))
    else if age < 172800000 then ADayAgo
    else if age < 31536000000 then DaysAgo(Units(age, 86400000))
    else if age < 63072000000 then AYearAgo
    else YearsAgo(Units(age, 31536000000))
  }

  /** `Math.floor(age / unit)` for a non-negative age: the whole units it holds. */
  function Units(age: nat, unit: nat): (q: nat)
    requires unit > 0
    ensures q * unit <= age < (q + 1) * unit
  {
    age / unit
  }
}
