/** The display helpers of utils/helpers.ts: the relative due-time label of
    `formatDate`, the priority colour table and the category icon table. */
module Display {
  import opened TodoTypes

  const MinuteMs: int := 60000    // 1000 * 60
  const HourMs: int := 3600000    // 1000 * 60 * 60
  const DayMs: int := 86400000    // 1000 * 60 * 60 * 24

  /** JavaScript's `%` on integers: the remainder truncates toward zero and so
      takes the sign of the dividend (Dafny's `%` never returns a negative). */
  function JsRem(a: int, d: int): (r: int)
    requires d > 0
    ensures -d < r < d
    ensures a >= 0 ==> 0 <= r && r == a % d
    ensures a <= 0 ==> r <= 0
  {
    if a >= 0 then a % d else -((-a) % d)
  }

  /** Truncation is symmetric about zero: negating the dividend negates the
      remainder, which with the clause for non-negative dividends fixes
      every value. */
  lemma JsRemOdd(a: int, d: int)
    requires d > 0
    ensures JsRem(-a, d) == -JsRem(a, d)
  {
  }

  /** The parts `formatDate` shows: whole days and hours, whole hours and
      minutes, whole minutes, or the word Overdue. */
  datatype DueLabel =
    | DaysHours(days: int, hours: int)
    | HoursMinutes(hours: int, minutes: int)
    | Minutes(minutes: int)
    | Overdue

  /** `formatDate` on `diff = date - now` in milliseconds. `Math.floor(x / d)`
      for a positive `d` is Dafny's `/`; the inner `%` is JavaScript's. */
  function FormatDue(diff: int): (r: DueLabel)
    ensures r == Overdue <==> diff < MinuteMs
    ensures r.DaysHours? <==> DayMs <= diff
    ensures r.HoursMinutes? <==> HourMs <= diff < DayMs
    ensures r.Minutes? <==> MinuteMs <= diff < HourMs
    ensures r.DaysHours? ==>
      && r.days > 0 && 0 <= r.hours <= 23
      && r.days * DayMs + r.hours * HourMs <= diff < r.days * DayMs + (r.hours + 1) * HourMs
    ensures r.HoursMinutes? ==>
      && 1 <= r.hours <= 23 && 0 <= r.minutes <= 59
      && r.hours * HourMs + r.minutes * MinuteMs <= diff < r.hours * HourMs + (r.minutes + 1) * MinuteMs
    ensures r.Minutes? ==>
      1 <= r.minutes <= 59 && r.minutes * MinuteMs <= diff < (r.minutes + 1) * MinuteMs
  {
    var days := diff / DayMs;
    var hours := JsRem(diff, DayMs) / HourMs;
    var minutes := JsRem(diff, HourMs) / MinuteMs;
    if days > 0 then DaysHours(days, hours)
    else if hours > 0 then HoursMinutes(hours, minutes)
    else if minutes > 0 then Minutes(minutes)
    else Overdue
  }

  /** `formatDate(date)` read at clock value `now`. */
  function FormatDate(date: int, now: int): (r: DueLabel)
    ensures r == Overdue <==> date < now + MinuteMs
  {
    FormatDue(date - now)
  }

  function DigitChar(d: nat): (c: char)
    requires d < 10
    ensures '0' <= c <= '9'
  {
    "0123456789"[d]
  }

  /** Decimal notation of a natural number, as template literals print it. */
  function NatText(n: nat): (s: string)
    ensures |s| >= 1 && forall i :: 0 <= i < |s| ==> '0' <= s[i] <= '9'
  {
    if n < 10 then [DigitChar(n)] else NatText(n / 10) + [DigitChar(n % 10)]
  }

  function IntText(n: int): (s: string)
    ensures |s| >= 1
    ensures n >= 0 ==> '0' <= s[0] <= '9'
    ensures n < 0 ==> s[0] == '-'
  {
    if n >= 0 then NatText(n) else "-" + NatText(-n)
  }

  /** The template strings of `formatDate`. */
  function Render(l: DueLabel): (s: string)
    ensures |s| >= 1
    ensures s == "Overdue" <==> l.Overdue?
    ensures l.DaysHours? && l.days >= 0 ==> '0' <= s[0] <= '9'
    ensures l.HoursMinutes? && l.hours >= 0 ==> '0' <= s[0] <= '9'
    ensures l.Minutes? && l.minutes >= 0 ==> '0' <= s[0] <= '9'
  {
    match l
    case DaysHours(d, h) => IntText(d) + "d " + IntText(h) + "h"
    case HoursMinutes(h, m) => IntText(h) + "h " + IntText(m) + "m"
    case Minutes(m) => IntText(m) + "m"
    case Overdue => "Overdue"
  }

  /** The text `formatDate` returns is "Overdue" exactly when the date is less
      than a minute ahead of the clock, past dates included; every other label
      starts with the digits of a positive count. */
  lemma FormatDateText(date: int, now: int)
    ensures Render(FormatDate(date, now)) == "Overdue" <==> date < now + MinuteMs
    ensures date >= now + MinuteMs ==> '0' <= Render(FormatDate(date, now))[0] <= '9'
  {
  }

  /** `getPriorityColor`: a `#rrggbb` colour per priority. The switch's
      `default` arm cannot be reached by a value of the priority type. */
  function PriorityColor(p: Priority): (c: string)
    ensures |c| == 7 && c[0] == '#'
    ensures forall i :: 1 <= i < 7 ==> c[i] in "0123456789abcdef"
  {
    match p
    case Urgent => "#ef4444"
    case High => "#f59e0b"
    case Medium => "#3b82f6"
    case Low => "#10b981"
  }

  /** Every priority gets its own colour. */
  lemma PriorityColorsDistinct(p: Priority, q: Priority)
    requires p != q
    ensures PriorityColor(p) != PriorityColor(q)
  {
  }

  /** `getCategoryIcon` takes any string; all but four names fall through to
      the folder icon, "other" among them. */
  function CategoryIcon(category: string): (icon: string)
    ensures icon == "folder.fill" <==> category !in {"personal", "work", "shopping", "health"}
  {
    if category == "personal" then "person.fill"
    else if category == "work" then "briefcase.fill"
    else if category == "shopping" then "cart.fill"
    else if category == "health" then "heart.fill"
    else "folder.fill"
  }

  /** Over the category type the icon table is one-to-one. */
  lemma CategoryIconsDistinct(c: Category, d: Category)
    requires c != d
    ensures CategoryIcon(CategoryName(c)) != CategoryIcon(CategoryName(d))
  {
  }
}
