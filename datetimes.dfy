/**
 * Naive UTC timestamps as the store keeps them (`YYYY-MM-DD HH:MM:SS` text, whose
 * order is the lexicographic order of the six fields), Python's `datetime(...)`
 * constructor, which rejects out-of-range fields, and the RFC 822 style rendering
 * `strftime('%a, %d %b %Y %H:%M:%S +0000')` used in the feed, with its inverse.
 */
module DateTimes {
  import opened Wrappers

  datatype DateTime = DateTime(year: int, month: int, day: int, hour: int, minute: int, second: int)

  predicate IsLeap(y: int) {
    y % 4 == 0 && (y % 100 != 0 || y % 400 == 0)
  }

  function DaysInMonth(y: int, m: int): int
    requires 1 <= m <= 12
  {
    if m == 2 then (if IsLeap(y) then 29 else 28)
    else if m == 4 || m == 6 || m == 9 || m == 11 then 30
    else 31
  }

  /** The ranges Python's datetime accepts (MINYEAR 1 .. MAXYEAR 9999, no leap seconds). */
  predicate IsValid(d: DateTime) {
    && 1 <= d.year <= 9999
    && 1 <= d.month <= 12
    && 1 <= d.day <= DaysInMonth(d.year, d.month)
    && 0 <= d.hour < 24
    && 0 <= d.minute < 60
    && 0 <= d.second < 60
  }

  /** `datetime(*t[:6])` for a parsed time tuple t; None where Python raises. */
  function FromTimeTuple(t: seq<int>): (r: Option<DateTime>)
    ensures r.Some? ==> IsValid(r.value)
    ensures r.Some? ==> |t| >= 3 && r.value.year == t[0] && r.value.month == t[1] && r.value.day == t[2]
    ensures |t| < 3 ==> r.None?
    ensures |t| >= 6 ==> (r.Some? <==> IsValid(DateTime(t[0], t[1], t[2], t[3], t[4], t[5])))
    ensures |t| >= 6 && IsValid(DateTime(t[0], t[1], t[2], t[3], t[4], t[5])) ==>
              r == Some(DateTime(t[0], t[1], t[2], t[3], t[4], t[5]))
  {
    var args := t[..Min(6, |t|)];
    if |args| < 3 then None
    else
      var d := DateTime(args[0], args[1], args[2],
                        if |args| > 3 then args[3] else 0,
                        if |args| > 4 then args[4] else 0,
                        if |args| > 5 then args[5] else 0);
      if IsValid(d) then Some(d) else None
  }

  /** Sort key: the text order of `YYYY-MM-DD HH:MM:SS` is the order of these fields. */
  function SortKey(d: DateTime): seq<int> {
    [d.year, d.month, d.day, d.hour, d.minute, d.second]
  }

  // ---- proleptic Gregorian day numbers, as Python's date.toordinal ----

  function DaysBeforeYear(y: int): int
    requires y >= 1
  {
    var p := y - 1;
    p * 365 + p / 4 - p / 100 + p / 400
  }

  function DaysBeforeMonth(y: int, m: int): int
    requires 1 <= m <= 12
  {
    if m == 1 then 0 else DaysBeforeMonth(y, m - 1) + DaysInMonth(y, m - 1)
  }

  /** Monday is 0, as `date.weekday()`. */
  function Weekday(d: DateTime): (w: int)
    requires IsValid(d)
    ensures 0 <= w < 7
  {
    (DaysBeforeYear(d.year) + DaysBeforeMonth(d.year, d.month) + d.day + 6) % 7
  }

  const WeekdayNames: seq<string> := ["Mon", "Tue", "Wed", "Thu", "Fri", "Sat", "Sun"]
  const MonthNames: seq<string> := ["Jan", "Feb", "Mar", "Apr", "May", "Jun",
                                    "Jul", "Aug", "Sep", "Oct", "Nov", "Dec"]

  // ---- decimal digits ----

  function Digit(n: int): char
    requires 0 <= n <= 9
  {
    ('0' as int + n) as char
  }

  function DigitValue(c: char): Option<int> {
    if '0' <= c <= '9' then Some(c as int - '0' as int) else None
  }

  /** `%d`, `%H`, `%M`, `%S`: two digits, zero padded. */
  function Pad2(n: int): string
    requires 0 <= n <= 99
  {
    [Digit(n / 10), Digit(n % 10)]
  }

  /** `%Y` as the C library renders it: decimal, no padding. */
  function Decimal(n: nat): (s: string)
    ensures |s| >= 1
  {
    if n < 10 then [Digit(n)] else Decimal(n / 10) + [Digit(n % 10)]
  }

  /** Reads a non-empty run of decimal digits. */
  function ParseDigits(s: string): Option<nat> {
    if |s| == 0 then None
    else
      match DigitValue(s[|s| - 1])
      case None => None
      case Some(last) =>
        if |s| == 1 then Some(last)
        else
          match ParseDigits(s[..|s| - 1])
          case None => None
          case Some(v) => Some(v * 10 + last)
  }

  lemma {:induction false} ParseDecimal(n: nat)
    ensures ParseDigits(Decimal(n)) == Some(n)
  {
    if n >= 10 {
      ParseDecimal(n / 10);
      var s := Decimal(n);
      assert s[..|s| - 1] == Decimal(n / 10);
    }
  }

  lemma ParsePad2(n: int)
    requires 0 <= n <= 99
    ensures ParseDigits(Pad2(n)) == Some(n)
  {
    assert Pad2(n)[..1] == [Digit(n / 10)];
  }

  // ---- the rendering and its inverse ----

  /** `%a, %d %b `: the part before the year. */
  function RenderedHead(d: DateTime): (h: string)
    requires IsValid(d)
    ensures |h| == 12
  {
    WeekdayNames[Weekday(d)] + ", " + Pad2(d.day) + " " + MonthNames[d.month - 1] + " "
  }

  /** ` %H:%M:%S +0000`: the part after the year. */
  function RenderedTail(d: DateTime): (t: string)
    requires IsValid(d)
    ensures |t| == 15
  {
    " " + Pad2(d.hour) + ":" + Pad2(d.minute) + ":" + Pad2(d.second) + " +0000"
  }

  /** `strftime('%a, %d %b %Y %H:%M:%S +0000')` of a valid datetime. */
  function Rfc822(d: DateTime): string
    requires IsValid(d)
  {
    RenderedHead(d) + Decimal(d.year) + RenderedTail(d)
  }

  /** Conversion that may fail: None for a value that is not a datetime Python accepts. */
  function FormatDate(d: DateTime): (r: Option<string>)
    ensures r.Some? <==> IsValid(d)
  {
    if IsValid(d) then Some(Rfc822(d)) else None
  }

  function MonthNumber(name: string): (r: Option<int>)
    ensures r.Some? ==> 1 <= r.value <= 12 && MonthNames[r.value - 1] == name
  {
    if name == "Jan" then Some(1) else if name == "Feb" then Some(2)
    else if name == "Mar" then Some(3) else if name == "Apr" then Some(4)
    else if name == "May" then Some(5) else if name == "Jun" then Some(6)
    else if name == "Jul" then Some(7) else if name == "Aug" then Some(8)
    else if name == "Sep" then Some(9) else if name == "Oct" then Some(10)
    else if name == "Nov" then Some(11) else if name == "Dec" then Some(12)
    else None
  }

  /** `Www, DD Mon `: the weekday name, the day and the month. */
  function ParseHead(h: string): Option<(string, int, int)>
    requires |h| == 12
  {
    if h[3..5] != ", " || h[7] != ' ' || h[11] != ' ' then None
    else
      match (ParseDigits(h[5..7]), MonthNumber(h[8..11]))
      case (Some(day), Some(month)) => Some((h[..3], day, month))
      case _ => None
  }

  /** ` HH:MM:SS +0000`: the time of day. */
  function ParseTail(t: string): Option<(int, int, int)>
    requires |t| == 15
  {
    if t[0] != ' ' || t[3] != ':' || t[6] != ':' || t[9..] != " +0000" then None
    else
      match (ParseDigits(t[1..3]), ParseDigits(t[4..6]), ParseDigits(t[7..9]))
      case (Some(hour), Some(minute), Some(second)) => Some((hour, minute, second))
      case _ => None
  }

  /**
   * Reads `Www, DD Mon Y... HH:MM:SS +0000` back; accepts only valid datetimes whose
   * weekday name is the right one. The year is whatever lies between the month and
   * the time, so years of any width are read.
   */
  function ParseRfc822(s: string): Option<DateTime> {
    if |s| < 28 then None
    else
      match (ParseHead(s[..12]), ParseDigits(s[12..|s| - 15]), ParseTail(s[|s| - 15..]))
      case (Some((w, day, month)), Some(year), Some((hour, minute, second))) =>
        var d := DateTime(year, month, day, hour, minute, second);
        if IsValid(d) && w == WeekdayNames[Weekday(d)] then Some(d) else None
      case _ => None
  }

  lemma MonthNumberOfName(m: int)
    requires 1 <= m <= 12
    ensures MonthNumber(MonthNames[m - 1]) == Some(m)
  {
  }

  lemma ParseRenderedHead(d: DateTime)
    requires IsValid(d)
    ensures ParseHead(RenderedHead(d)) == Some((WeekdayNames[Weekday(d)], d.day, d.month))
  {
    var h := RenderedHead(d);
    assert h[..3] == WeekdayNames[Weekday(d)];
    assert h[3..5] == ", ";
    assert h[5..7] == Pad2(d.day);
    assert h[8..11] == MonthNames[d.month - 1];
    ParsePad2(d.day);
    MonthNumberOfName(d.month);
  }

  lemma ParseRenderedTail(d: DateTime)
    requires IsValid(d)
    ensures ParseTail(RenderedTail(d)) == Some((d.hour, d.minute, d.second))
  {
    var t := RenderedTail(d);
    assert t[1..3] == Pad2(d.hour);
    assert t[4..6] == Pad2(d.minute);
    assert t[7..9] == Pad2(d.second);
    assert t[9..] == " +0000";
    ParsePad2(d.hour);
    ParsePad2(d.minute);
    ParsePad2(d.second);
  }

  lemma SplitThree(a: string, b: string, c: string)
    ensures (a + b + c)[..|a|] == a
    ensures (a + b + c)[|a|..|a + b + c| - |c|] == b
    ensures (a + b + c)[|a + b + c| - |c|..] == c
  {
  }

  /** Every rendered date reads back as the datetime it came from. */
  lemma Rfc822RoundTrip(d: DateTime)
    requires IsValid(d)
    ensures ParseRfc822(Rfc822(d)) == Some(d)
  {
    SplitThree(RenderedHead(d), Decimal(d.year), RenderedTail(d));
    ParseRenderedHead(d);
    ParseRenderedTail(d);
    ParseDecimal(d.year);
  }

  /** Hence the rendering never maps two datetimes to one text. */
  lemma Rfc822Injective(d1: DateTime, d2: DateTime)
    requires IsValid(d1) && IsValid(d2) && Rfc822(d1) == Rfc822(d2)
    ensures d1 == d2
  {
    Rfc822RoundTrip(d1);
    Rfc822RoundTrip(d2);
  }

  lemma Head2024()
    ensures RenderedHead(DateTime(2024, 1, 1, 0, 0, 0)) == "Mon, 01 Jan "
  {
    assert DaysBeforeYear(2024) == 738885;
    assert Weekday(DateTime(2024, 1, 1, 0, 0, 0)) == 0;
    assert Pad2(1) == "01";
  }

  lemma Tail2024()
    ensures RenderedTail(DateTime(2024, 1, 1, 0, 0, 0)) == " 00:00:00 +0000"
  {
    assert Pad2(0) == "00";
  }

  lemma Year2024()
    ensures Decimal(2024) == "2024"
  {
    assert Decimal(2024) == Decimal(202) + ['4'] == Decimal(20) + ['2', '4'];
  }

  /** 1 January 2024 was a Monday. */
  lemma Rfc822Example2024()
    ensures Rfc822(DateTime(2024, 1, 1, 0, 0, 0)) == "Mon, 01 Jan 2024 00:00:00 +0000"
  {
    Head2024();
    Year2024();
    Tail2024();
  }
}
