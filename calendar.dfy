/**
  Calendar values as the pipeline sees them after pandas' conversions: a date
  with no time part (`dt.normalize()`), and a time of day read with the format
  `%H:%M`.
 */
module Calendar {
  import opened Wrappers
  import opened Ordering

  /** A calendar date (what `dt.normalize()` leaves of a timestamp). */
  datatype Date = Date(year: int, month: int, day: int)

  /** Chronological order of dates: by year, then month, then day. */
  predicate DateBefore(a: Date, b: Date)
  {
    a.year < b.year
    || (a.year == b.year && a.month < b.month)
    || (a.year == b.year && a.month == b.month && a.day < b.day)
  }

  lemma DateBeforeIsStrictTotalOrder()
    ensures StrictTotalOrder(DateBefore)
  {
  }

  /** A time of day (`dt.time`). */
  datatype Clock = Clock(hour: nat, minute: nat)

  predicate IsDigit(c: char)
  {
    '0' <= c <= '9'
  }

  function DigitValue(c: char): (d: nat)
    requires IsDigit(c)
    ensures d <= 9
  {
    c as int - '0' as int
  }

  /** One field of the format `%H:%M`, as pandas' strptime pattern reads it: one
      digit, or two digits whose value is at most `max` (23 for `%H`, 59 for
      `%M`). */
  function ParseField(s: string, max: nat): (r: Option<nat>)
    requires max >= 9
    ensures r.Some? ==> r.value <= max
    ensures r.Some? <==> (|s| == 1 && IsDigit(s[0]))
                         || (|s| == 2 && IsDigit(s[0]) && IsDigit(s[1])
                             && 10 * DigitValue(s[0]) + DigitValue(s[1]) <= max)
  {
    if |s| == 1 && IsDigit(s[0]) then Some(DigitValue(s[0]))
    else if |s| == 2 && IsDigit(s[0]) && IsDigit(s[1]) && 10 * DigitValue(s[0]) + DigitValue(s[1]) <= max
    then Some(10 * DigitValue(s[0]) + DigitValue(s[1]))
    else None
  }

  /** The position of the first ':' in `s`, or |s| when there is none. */
  function ColonAt(s: string): (k: nat)
    ensures k <= |s|
    ensures k < |s| ==> s[k] == ':'
    ensures forall i :: 0 <= i < k ==> s[i] != ':'
  {
    if s == [] then 0
    else if s[0] == ':' then 0
    else 1 + ColonAt(s[1..])
  }

  /** `pd.to_datetime(text, format='%H:%M')` read as a time of day: hours then a
      colon then minutes, the whole text and nothing more (`None` is the
      ValueError). */
  function ParseClock(s: string): (r: Option<Clock>)
    ensures r.Some? ==> r.value.hour <= 23 && r.value.minute <= 59
  {
    var k := ColonAt(s);
    if k == |s| then None
    else
      match (ParseField(s[..k], 23), ParseField(s[k + 1..], 59))
      case (Some(h), Some(m)) => Some(Clock(h, m))
      case _ => None
  }

  /** The digit character of `d`. */
  function Digit(d: nat): (c: char)
    requires d <= 9
    ensures IsDigit(c) && DigitValue(c) == d
  {
    ('0' as int + d) as char
  }

  /** `n` written with two digits, a leading zero below ten. */
  function TwoDigits(n: nat): (s: string)
    requires n <= 99
    ensures |s| == 2 && IsDigit(s[0]) && IsDigit(s[1])
    ensures 10 * DigitValue(s[0]) + DigitValue(s[1]) == n
  {
    [Digit(n / 10), Digit(n % 10)]
  }

  /** The texts one field of `%H:%M` accepts for the value `n`: two digits, or a
      single digit when `n` is below ten. */
  function FieldTexts(n: nat): set<string>
    requires n <= 99
  {
    {TwoDigits(n)} + (if n <= 9 then {[Digit(n)]} else {})
  }

  /** The texts `%H:%M` accepts for the clock `c`. */
  ghost predicate ReadsAs(s: string, c: Clock)
    requires c.hour <= 99 && c.minute <= 99
  {
    exists hh, mm :: hh in FieldTexts(c.hour) && mm in FieldTexts(c.minute) && s == hh + ":" + mm
  }

  /** A field reads its value back from each of its texts. */
  lemma ParseFieldTexts(n: nat, max: nat, t: string)
    requires 9 <= max <= 99 && n <= max && t in FieldTexts(n)
    ensures ParseField(t, max) == Some(n)
  {
  }

  /** A field that reads as `n` is one of the texts of `n`. */
  lemma ParseFieldSound(t: string, max: nat)
    requires 9 <= max <= 99 && ParseField(t, max).Some?
    ensures t in FieldTexts(ParseField(t, max).value)
  {
    var n := ParseField(t, max).value;
    if |t| == 1 {
      assert t == [Digit(n)];
    } else {
      var a, b := DigitValue(t[0]), DigitValue(t[1]);
      assert n == 10 * a + b;
      assert n / 10 == a && n % 10 == b;
      assert t == TwoDigits(n);
    }
  }

  /** The first colon of a text whose first part has none is right after it. */
  lemma ColonAfter(p: string, q: string)
    requires forall i :: 0 <= i < |p| ==> p[i] != ':'
    ensures ColonAt(p + ":" + q) == |p|
  {
    var s := p + ":" + q;
    assert s[|p|] == ':';
    assert forall i :: 0 <= i < |p| ==> s[i] == p[i];
  }

  /** Every clock reads back from each of the texts `%H:%M` accepts for it. */
  lemma ParseClockTexts(c: Clock, hh: string, mm: string)
    requires c.hour <= 23 && c.minute <= 59
    requires hh in FieldTexts(c.hour) && mm in FieldTexts(c.minute)
    ensures ParseClock(hh + ":" + mm) == Some(c)
  {
    var s := hh + ":" + mm;
    ColonAfter(hh, mm);
    assert s[..|hh|] == hh && s[|hh| + 1..] == mm;
    ParseFieldTexts(c.hour, 23, hh);
    ParseFieldTexts(c.minute, 59, mm);
  }

  /** A text that reads as a clock is one of that clock's texts. */
  lemma ParseClockSound(s: string)
    requires ParseClock(s).Some?
    ensures ReadsAs(s, ParseClock(s).value)
  {
    var k := ColonAt(s);
    var hh, mm := s[..k], s[k + 1..];
    ParseFieldSound(hh, 23);
    ParseFieldSound(mm, 59);
    assert s == hh + ":" + mm;
  }

  /** Two concrete readings: "9:05" is 09:05, and "24:00" is refused. */
  lemma ParseClockExamples()
    ensures ParseClock("9:05") == Some(Clock(9, 5))
    ensures ParseClock("24:00") == None
    ensures ParseClock("12:60") == None
  {
    assert ColonAt("9:05") == 1 by {
      assert "9:05"[1..] == ":05";
    }
    assert "9:05"[..1] == "9" && "9:05"[2..] == "05";
    assert ColonAt("24:00") == 2 by {
      assert "24:00"[1..] == "4:00";
      assert "4:00"[1..] == ":00";
    }
    assert "24:00"[..2] == "24";
    assert ColonAt("12:60") == 2 by {
      assert "12:60"[1..] == "2:60";
      assert "2:60"[1..] == ":60";
    }
    assert "12:60"[..2] == "12" && "12:60"[3..] == "60";
  }
}
