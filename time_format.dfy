/**
 * The 12-hour to 24-hour conversion the booking route applies to a catalog slot
 * ("01:30 PM" is stored as "13:30:00"), modelled over every input string.
 */
module TimeFormat {
  import opened Wrappers
  import opened JsStrings

  /** The pieces `convertTo24Hour` destructures: hours, minutes and modifier. */
  datatype Pieces = Pieces(hours: string, minutes: Option<string>, modifier: Option<string>)

  /** `const [time, modifier] = s.split(' '); let [hours, minutes] = time.split(':')`. */
  function SplitTime12(time12h: string): Pieces {
    var parts := Split(time12h, ' ');
    var clock := Split(parts[0], ':');
    Pieces(clock[0],
           if |clock| > 1 then Some(clock[1]) else None,
           if |parts| > 1 then Some(parts[1]) else None)
  }

  /** The two conditional updates of `hoursNum`; `None` stands for `NaN`. */
  function ShiftHours(hoursNum: Option<int>, modifier: Option<string>): Option<int> {
    var afterPm :=
      if modifier == Some("PM") && hoursNum.Some? && hoursNum.value < 12
      then Some(hoursNum.value + 12) else hoursNum;
    if modifier == Some("AM") && afterPm == Some(12) then Some(0) else afterPm
  }

  /** The returned template: padded hours, ":", minutes, ":00". */
  function Render(hoursNum: Option<int>, minutes: Option<string>): string {
    var hoursText := if hoursNum.Some? then IntToString(hoursNum.value) else "NaN";
    var minutesText := if minutes.Some? then minutes.value else "undefined";
    PadStart(hoursText, 2, '0') + ":" + minutesText + ":00"
  }

  /**
   * `convertTo24Hour`: split at spaces into time and modifier, split the time at
   * colons into hours and minutes, parse the hours, shift them by the modifier,
   * and print them padded to two places followed by the minutes and ":00".
   * A missing piece prints as "undefined" and an unparsable hour as "NaN",
   * as JavaScript's template literal does.
   */
  function ConvertTo24Hour(time12h: string): string {
    var p := SplitTime12(time12h);
    Render(ShiftHours(ParseInt(p.hours), p.modifier), p.minutes)
  }

  /** `convertTo24Hour` as the route runs it: destructure, parse, then update `hoursNum` in place. */
  method ConvertTo24HourSteps(time12h: string) returns (r: string)
    ensures r == ConvertTo24Hour(time12h)
  {
    var parts := Split(time12h, ' ');
    var modifier := if |parts| > 1 then Some(parts[1]) else None;
    var clock := Split(parts[0], ':');
    var minutes := if |clock| > 1 then Some(clock[1]) else None;
    assert SplitTime12(time12h) == Pieces(clock[0], minutes, modifier);
    var hoursNum := ParseInt(clock[0]);
    if modifier == Some("PM") && hoursNum.Some? && hoursNum.value < 12 {
      hoursNum := Some(hoursNum.value + 12);
    }
    if modifier == Some("AM") && hoursNum == Some(12) {
      hoursNum := Some(0);
    }
    assert hoursNum == ShiftHours(ParseInt(clock[0]), modifier);
    r := Render(hoursNum, minutes);
  }

  /** Splitting "hh:mm mod" recovers its three pieces. */
  lemma SplitSlot(hh: string, mm: string, mod: string)
    requires ' ' !in hh && ':' !in hh && ' ' !in mm && ':' !in mm && ' ' !in mod
    ensures SplitTime12(hh + ":" + mm + " " + mod) == Pieces(hh, Some(mm), Some(mod))
  {
    assert ' ' !in hh + ":" + mm;
    assert hh + ":" + mm + " " + mod == (hh + ":" + mm) + [' '] + mod;
    SplitAtFirst(hh + ":" + mm, mod, ' ');
    SplitNoSeparator(mod, ' ');
    assert hh + ":" + mm == hh + [':'] + mm;
    SplitAtFirst(hh, mm, ':');
    SplitNoSeparator(mm, ':');
  }

  /** Rendering an hour below 100 prints its two-digit spelling. */
  lemma RenderTwoDigits(h: nat, mm: string)
    requires h < 100
    ensures Render(Some(h), Some(mm)) == TwoDigits(h) + ":" + mm + ":00"
  {
    PadTwoDigits(h);
  }

  /** A slot of the form "hh:mm mod" is converted from its three pieces. */
  lemma ConvertPieces(hh: string, mm: string, mod: string)
    requires ' ' !in hh && ':' !in hh
    requires ' ' !in mm && ':' !in mm
    requires mod == "AM" || mod == "PM"
    ensures ConvertTo24Hour(hh + ":" + mm + " " + mod)
         == Render(ShiftHours(ParseInt(hh), Some(mod)), Some(mm))
  {
    SplitSlot(hh, mm, mod);
  }

  /** Shifting an hour of 1..12 and rendering it gives the 24-hour spelling. */
  lemma ShiftAndRender(h: nat, mm: string, mod: string)
    requires 1 <= h <= 12
    requires mod == "AM" || mod == "PM"
    ensures Render(ShiftHours(Some(h), Some(mod)), Some(mm))
         == TwoDigits(h % 12 + (if mod == "PM" then 12 else 0)) + ":" + mm + ":00"
  {
    var h24 := h % 12 + (if mod == "PM" then 12 else 0);
    assert ShiftHours(Some(h), Some(mod)) == Some(h24);
    RenderTwoDigits(h24, mm);
  }

  /**
   * For "hh:mm AM" or "hh:mm PM" whose hours parse to h in 1..12 the stored hour
   * is h mod 12, plus 12 in the afternoon, printed with two digits; the minutes
   * are copied verbatim and ":00" is appended.
   */
  lemma ConvertCanonical(hh: string, mm: string, mod: string, h: nat)
    requires ' ' !in hh && ':' !in hh && ParseInt(hh) == Some(h) && 1 <= h <= 12
    requires ' ' !in mm && ':' !in mm
    requires mod == "AM" || mod == "PM"
    ensures ConvertTo24Hour(hh + ":" + mm + " " + mod)
         == TwoDigits(h % 12 + (if mod == "PM" then 12 else 0)) + ":" + mm + ":00"
  {
    ConvertPieces(hh, mm, mod);
    ShiftAndRender(h, mm, mod);
  }

  /**
   * The case rules on hours 1..12: 12 AM becomes 0, 12 PM stays 12, any other
   * PM hour gains 12 and any other AM hour is kept.
   */
  lemma ShiftHoursRules(h: nat, mod: string)
    requires 1 <= h <= 12
    requires mod == "AM" || mod == "PM"
    ensures h == 12 && mod == "AM" ==> ShiftHours(Some(h), Some(mod)) == Some(0)
    ensures h == 12 && mod == "PM" ==> ShiftHours(Some(h), Some(mod)) == Some(12)
    ensures h < 12 && mod == "PM" ==> ShiftHours(Some(h), Some(mod)) == Some(h + 12)
    ensures h < 12 && mod == "AM" ==> ShiftHours(Some(h), Some(mod)) == Some(h)
  {
  }

  /** Hours 1..12 with AM or PM are shifted onto 0..23, one to one. */
  lemma ShiftHoursOneToOne(h1: nat, mod1: string, h2: nat, mod2: string)
    requires 1 <= h1 <= 12 && (mod1 == "AM" || mod1 == "PM")
    requires 1 <= h2 <= 12 && (mod2 == "AM" || mod2 == "PM")
    ensures ShiftHours(Some(h1), Some(mod1)).Some?
    ensures 0 <= ShiftHours(Some(h1), Some(mod1)).value < 24
    ensures ShiftHours(Some(h1), Some(mod1)) == ShiftHours(Some(h2), Some(mod2)) ==> h1 == h2 && mod1 == mod2
  {
  }

  /** Every hour of the day is the shift of some 12-hour hour. */
  lemma ShiftHoursOnto(h24: nat)
    requires h24 < 24
    ensures var h := if h24 % 12 == 0 then 12 else h24 % 12;
      var mod := if h24 < 12 then "AM" else "PM";
      1 <= h <= 12 && ShiftHours(Some(h), Some(mod)) == Some(h24)
  {
  }

  /** The hours text matters only through the number `parseInt` reads from it. */
  lemma ConvertSameParse(hh1: string, hh2: string, mm: string, mod: string, h: int)
    requires ' ' !in hh1 && ':' !in hh1 && ' ' !in hh2 && ':' !in hh2
    requires ParseInt(hh1) == Some(h) && ParseInt(hh2) == Some(h)
    requires ' ' !in mm && ':' !in mm
    requires mod == "AM" || mod == "PM"
    ensures ConvertTo24Hour(hh1 + ":" + mm + " " + mod) == ConvertTo24Hour(hh2 + ":" + mm + " " + mod)
  {
    ConvertPieces(hh1, mm, mod);
    ConvertPieces(hh2, mm, mod);
  }

  /** A one-digit hour and its zero-padded spelling are stored alike ("9:00 AM", "09:00 AM"). */
  lemma ConvertLeadingZero(hh: string, padded: string, mm: string, mod: string)
    requires |hh| == 1 && IsDigit(hh[0]) && padded == ['0'] + hh
    requires ' ' !in mm && ':' !in mm
    requires mod == "AM" || mod == "PM"
    ensures ConvertTo24Hour(hh + ":" + mm + " " + mod) == ConvertTo24Hour(padded + ":" + mm + " " + mod)
  {
    var v := OneDigitParses(hh);
    assert padded == ['0', hh[0]];
    var w := PaddedDigitParses(hh[0]);
    ConvertSameParse(hh, padded, mm, mod, v);
  }

  /** A one-digit hour holds no separator and parses to its digit. */
  lemma OneDigitParses(hh: string) returns (v: int)
    requires |hh| == 1 && IsDigit(hh[0])
    ensures ' ' !in hh && ':' !in hh
    ensures ParseInt(hh) == Some(v) && v == DigitValue(hh[0])
  {
    assert hh == [hh[0]];
    ParseOneDigit(hh[0]);
    v := DigitValue(hh[0]);
  }

  /** The zero-padded spelling holds no separator and parses to the same digit. */
  lemma PaddedDigitParses(d: char) returns (v: int)
    requires IsDigit(d)
    ensures ParseInt(['0', d]) == Some(v) && v == DigitValue(d)
  {
    v := DigitValue(d);
    ParseZeroPaddedDigit(d);
  }

  /** Without a modifier nothing is shifted: "12:00" is stored as noon, "13:00" as 13. */
  lemma ConvertWithoutModifier(hh: string, mm: string, h: nat)
    requires ' ' !in hh && ':' !in hh && ParseInt(hh) == Some(h) && h < 100
    requires ' ' !in mm && ':' !in mm
    ensures ConvertTo24Hour(hh + ":" + mm) == TwoDigits(h) + ":" + mm + ":00"
  {
    SplitNoModifier(hh, mm);
    var p := SplitTime12(hh + ":" + mm);
    assert ShiftHours(ParseInt(p.hours), p.modifier) == Some(h);
    RenderTwoDigits(h, mm);
  }

  /** Splitting "hh:mm" gives hours and minutes and no modifier. */
  lemma SplitNoModifier(hh: string, mm: string)
    requires ' ' !in hh && ':' !in hh && ' ' !in mm && ':' !in mm
    ensures SplitTime12(hh + ":" + mm) == Pieces(hh, Some(mm), None)
  {
    assert ' ' !in hh + ":" + mm;
    SplitNoSeparator(hh + ":" + mm, ' ');
    assert hh + ":" + mm == hh + [':'] + mm;
    SplitAtFirst(hh, mm, ':');
    SplitNoSeparator(mm, ':');
  }

  /** A catalog time written "hh:mm AM" or "hh:mm PM". */
  datatype Clock12 = Clock12(hour: nat, minute: nat, pm: bool)
  {
    predicate Valid() {
      1 <= hour <= 12 && minute < 60
    }

    /** The minute of the day this time denotes, counted from midnight. */
    function MinuteOfDay(): (m: nat)
      requires Valid()
      ensures m < 24 * 60
    {
      (hour % 12 + (if pm then 12 else 0)) * 60 + minute
    }
  }

  function Meridiem(pm: bool): string {
    if pm then "PM" else "AM"
  }

  /** The text of a catalog time, e.g. "08:30 AM". */
  function Format12(c: Clock12): string
    requires c.Valid()
  {
    TwoDigits(c.hour) + ":" + TwoDigits(c.minute) + " " + Meridiem(c.pm)
  }

  /** The eight characters of a catalog time. */
  lemma Format12Chars(c: Clock12)
    requires c.Valid()
    ensures Format12(c) == [DigitChar(c.hour / 10), DigitChar(c.hour % 10), ':',
                            DigitChar(c.minute / 10), DigitChar(c.minute % 10), ' ',
                            if c.pm then 'P' else 'A', 'M']
  {
  }

  /** The stored text of a time of day, e.g. "13:30:00". */
  function Format24(minuteOfDay: nat): string
    requires minuteOfDay < 24 * 60
  {
    TwoDigits(minuteOfDay / 60) + ":" + TwoDigits(minuteOfDay % 60) + ":00"
  }

  /** Converting a catalog time stores the same time of day in 24-hour form. */
  lemma ConvertFormat12(c: Clock12)
    requires c.Valid()
    ensures ConvertTo24Hour(Format12(c)) == Format24(c.MinuteOfDay())
  {
    TwoDigitsPlain(c.hour);
    TwoDigitsPlain(c.minute);
    ParseTwoDigits(c.hour);
    ConvertCanonical(TwoDigits(c.hour), TwoDigits(c.minute), Meridiem(c.pm), c.hour);
    HourAndMinute(c);
  }

  /** The minute of the day splits back into the 24-hour hour and the minute. */
  lemma HourAndMinute(c: Clock12)
    requires c.Valid()
    ensures c.MinuteOfDay() / 60 == c.hour % 12 + (if c.pm then 12 else 0)
    ensures c.MinuteOfDay() % 60 == c.minute
  {
  }

  /** The 24-hour text determines the minute of the day. */
  lemma Format24Injective(a: nat, b: nat)
    requires a < 24 * 60 && b < 24 * 60
    requires Format24(a) == Format24(b)
    ensures a == b
  {
    var ra, rb := Format24(a), Format24(b);
    assert ra[..2] == TwoDigits(a / 60) && rb[..2] == TwoDigits(b / 60);
    assert ra[3..5] == TwoDigits(a % 60) && rb[3..5] == TwoDigits(b % 60);
    TwoDigitsInjective(a / 60, b / 60);
    TwoDigitsInjective(a % 60, b % 60);
  }

  /** Two valid catalog times with the same 24-hour text are the same time. */
  lemma ClockOfFormat24(a: Clock12, b: Clock12)
    requires a.Valid() && b.Valid()
    requires Format24(a.MinuteOfDay()) == Format24(b.MinuteOfDay())
    ensures a == b
  {
    Format24Injective(a.MinuteOfDay(), b.MinuteOfDay());
    HourAndMinute(a);
    HourAndMinute(b);
    var ha, hb := a.hour % 12, b.hour % 12;
    assert ha + (if a.pm then 12 else 0) == hb + (if b.pm then 12 else 0);
    assert a.pm == b.pm && ha == hb;
    assert a.hour == (if ha == 0 then 12 else ha);
    assert b.hour == (if hb == 0 then 12 else hb);
  }

  /** Distinct catalog times are stored as distinct strings. */
  lemma ConvertInjective(a: Clock12, b: Clock12)
    requires a.Valid() && b.Valid()
    requires ConvertTo24Hour(Format12(a)) == ConvertTo24Hour(Format12(b))
    ensures a == b
  {
    ConvertFormat12(a);
    ConvertFormat12(b);
    ClockOfFormat24(a, b);
  }

  /** A catalog time contains "AM" exactly in the morning and "PM" exactly in the afternoon. */
  lemma MeridiemIncludes(c: Clock12)
    requires c.Valid()
    ensures Includes(Format12(c), "AM") <==> !c.pm
    ensures Includes(Format12(c), "PM") <==> c.pm
  {
    var s := Format12(c);
    var own, other := Meridiem(c.pm), Meridiem(!c.pm);
    assert |s| == 8 && s[6..8] == own;
    assert forall i :: 0 <= i < 6 ==> s[i] != 'A' && s[i] != 'P';
    IncludesSpec(s, own);
    IncludesSpec(s, other);
    assert OccursAt(s, own, 6);
    forall k | 0 <= k <= 6
      ensures !OccursAt(s, other, k)
    {
      assert |other| == 2 && s[k..k + 2][0] == s[k];
    }
  }
}
