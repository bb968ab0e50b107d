/** convertToLocalTime (static/base.js): the text written into every
    `.local-time` element, built from the local calendar and clock fields of
    the element's UTC stamp. */
module LocalTime {
  import opened Text

  /** The local fields a Date reports for a `.local-time` element's UTC
      stamp; `month0` is getMonth(). */
  datatype LocalFields = LocalFields(year: int, month0: int, day: int, hours: int, minutes: int)

  predicate InRange(f: LocalFields)
  {
    0 <= f.month0 <= 11 && 1 <= f.day <= 31 && 0 <= f.hours <= 23 && 0 <= f.minutes <= 59
  }

  /** The "DD.MM." part of the text. */
  function DayMonthPrefix(day: nat, month: nat): (r: string)
    requires day < 100 && month < 100
    ensures |r| == 6 && r[2] == '.' && r[5] == '.'
    ensures r[..2] == Pad2(day) && r[3..5] == Pad2(month)
  {
    var d := Pad2(day);
    var m := Pad2(month);
    var r := d + "." + m + ".";
    assert r[..2] == d && r[3..5] == m;
    r
  }

  /** The " о HH:MM" part of the text. */
  function ClockSuffix(hours: nat, minutes: nat): (r: string)
    requires hours < 100 && minutes < 100
    ensures |r| == 8 && r[0] == ' ' && r[1] == 'о' && r[2] == ' ' && r[5] == ':'
    ensures r[3..5] == Pad2(hours) && r[6..] == Pad2(minutes)
  {
    var h := Pad2(hours);
    var m := Pad2(minutes);
    var r := " о " + h + ":" + m;
    assert r[6..] == m;
    assert r[3..5] == h;
    r
  }

  /** convertToLocalTime's text, DD.MM.YYYY о HH:MM: every field but the
      year padded to two digits, the year as String(year). */
  function LocalTimeText(f: LocalFields): (s: string)
    requires InRange(f)
    ensures |s| == 14 + |IntToString(f.year)|
    ensures s[..6] == DayMonthPrefix(f.day, f.month0 + 1)
    ensures s[6..|s| - 8] == IntToString(f.year)
    ensures s[|s| - 8..] == ClockSuffix(f.hours, f.minutes)
  {
    var p := DayMonthPrefix(f.day, f.month0 + 1);
    var y := IntToString(f.year);
    var c := ClockSuffix(f.hours, f.minutes);
    ThreeParts(p, y, c);
    p + y + c
  }

  /** The three parts of a concatenation are found at their offsets. */
  lemma ThreeParts(p: string, y: string, c: string)
    ensures var s := p + y + c;
      && |s| == |p| + |y| + |c|
      && s[..|p|] == p
      && s[|p|..|s| - |c|] == y
      && s[|s| - |c|..] == c
  {
  }

  /** With a four-digit year the text is always 18 characters long. */
  lemma LocalTimeWidth(f: LocalFields)
    requires InRange(f) && 1000 <= f.year <= 9999
    ensures |LocalTimeText(f)| == 18
  {
    FourDigitYears(f.year);
  }

  /** Reads a "DD.MM." part back as (day, month). */
  function ParseDayMonth(p: string): Option<(nat, nat)>
  {
    if |p| != 6 || p[2] != '.' || p[5] != '.' || !AllDigits(p[..2]) || !AllDigits(p[3..5]) then None
    else Some((ParseDecimal(p[..2]), ParseDecimal(p[3..5])))
  }

  /** Reads a " о HH:MM" part back as (hours, minutes). */
  function ParseClock(c: string): Option<(nat, nat)>
  {
    if |c| != 8 || c[..3] != " о " || c[5] != ':' || !AllDigits(c[3..5]) || !AllDigits(c[6..]) then None
    else Some((ParseDecimal(c[3..5]), ParseDecimal(c[6..])))
  }

  /** Reads LocalTimeText back: the date part, the year, the clock part. */
  function ParseLocalTime(s: string): Option<LocalFields>
  {
    if |s| < 15 then None
    else
      var date := ParseDayMonth(s[..6]);
      var year := ParseInt(s[6..|s| - 8]);
      var clock := ParseClock(s[|s| - 8..]);
      if date.None? || year.None? || clock.None? then None
      else Some(LocalFields(year.value, date.value.1 as int - 1, date.value.0, clock.value.0, clock.value.1))
  }

  lemma DayMonthRoundTrip(day: nat, month: nat)
    requires day < 100 && month < 100
    ensures ParseDayMonth(DayMonthPrefix(day, month)) == Some((day, month))
  {
    Pad2RoundTrip(day);
    Pad2RoundTrip(month);
  }

  lemma ClockRoundTrip(hours: nat, minutes: nat)
    requires hours < 100 && minutes < 100
    ensures ParseClock(ClockSuffix(hours, minutes)) == Some((hours, minutes))
  {
    var c := ClockSuffix(hours, minutes);
    assert c[..3] == " о ";
    Pad2RoundTrip(hours);
    Pad2RoundTrip(minutes);
  }

  /** ParseLocalTime assembles the fields its three parts yield. */
  lemma ParseFromParts(s: string, day: nat, month: nat, year: int, hours: nat, minutes: nat)
    requires |s| >= 15
    requires ParseDayMonth(s[..6]) == Some((day, month))
    requires ParseInt(s[6..|s| - 8]) == Some(year)
    requires ParseClock(s[|s| - 8..]) == Some((hours, minutes))
    ensures ParseLocalTime(s) == Some(LocalFields(year, month - 1, day, hours, minutes))
  {
  }

  /** Every field survives the formatting: the text determines the fields. */
  lemma {:induction false} LocalTimeRoundTrip(f: LocalFields)
    requires InRange(f)
    ensures ParseLocalTime(LocalTimeText(f)) == Some(f)
  {
    var s := LocalTimeText(f);
    assert ParseDayMonth(s[..6]) == Some((f.day, f.month0 + 1)) by {
      DayMonthRoundTrip(f.day, f.month0 + 1);
    }
    assert ParseInt(s[6..|s| - 8]) == Some(f.year) by {
      ParseIntOfIntToString(f.year);
    }
    assert ParseClock(s[|s| - 8..]) == Some((f.hours, f.minutes)) by {
      ClockRoundTrip(f.hours, f.minutes);
    }
    ParseFromParts(s, f.day, f.month0 + 1, f.year, f.hours, f.minutes);
  }
}
