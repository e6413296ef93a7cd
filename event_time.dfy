/** `normalizeTimeToHHMM` of database/event.model.ts. The trimmed text is
    tried against the 12-hour pattern `^(\d{1,2}):(\d{2})\s*([AaPp][Mm])$`
    first and the 24-hour pattern `^(\d{1,2}):(\d{2})$` second; anything else
    is an unsupported format. Only the 24-hour branch range-checks. */
module EventTime {
  import opened Wrappers
  import opened JsText

  /** The two errors the normaliser throws, each carrying the text it was given. */
  datatype TimeError = InvalidTime(input: string) | UnsupportedTimeFormat(input: string)

  /** Capture groups 1 and 2 of both patterns: the hour digits and the minute digits. */
  datatype HourMinute = HourMinute(hour: string, minute: string)

  /** One or two hour digits and exactly two minute digits. */
  predicate WellFormed(hm: HourMinute) {
    1 <= |hm.hour| <= 2 && AllDigits(hm.hour) && |hm.minute| == 2 && AllDigits(hm.minute)
  }

  /** `[AaPp][Mm]`. */
  predicate IsMeridianText(m: string) {
    |m| == 2 && (m[0] == 'A' || m[0] == 'a' || m[0] == 'P' || m[0] == 'p') && (m[1] == 'M' || m[1] == 'm')
  }

  /** `H:MM` or `HH:MM` as text. */
  function ClockText(hm: HourMinute): string {
    hm.hour + ":" + hm.minute
  }

  /** `^(\d{1,2}):(\d{2})` at the start of `t`: the two groups and the rest of `t`.
      The hour group has one digit exactly when the second character is the colon. */
  function MatchClockPrefix(t: string): (m: Option<(HourMinute, string)>)
    ensures m.Some? ==> WellFormed(m.value.0) && t == ClockText(m.value.0) + m.value.1
  {
    var n := if |t| >= 2 && IsDigit(t[0]) && t[1] == ':' then 1
      else if |t| >= 3 && IsDigit(t[0]) && IsDigit(t[1]) && t[2] == ':' then 2
      else 0;
    if n > 0 && |t| >= n + 3 && AllDigits(t[n + 1..n + 3]) then
      var hm := HourMinute(t[..n], t[n + 1..n + 3]);
      assert t == t[..n] + ":" + t[n + 1..n + 3] + t[n + 3..];
      Some((hm, t[n + 3..]))
    else None
  }

  /** `^(\d{1,2}):(\d{2})\s*([AaPp][Mm])$`: groups 1–2 and group 3, the meridian as written. */
  function MatchTwelveHour(t: string): Option<(HourMinute, string)> {
    match MatchClockPrefix(t)
    case None => None
    case Some((hm, rest)) =>
      if |rest| >= 2 && AllWhitespace(rest[..|rest| - 2]) && IsMeridianText(rest[|rest| - 2..])
      then Some((hm, rest[|rest| - 2..]))
      else None
  }

  /** `^(\d{1,2}):(\d{2})$`. */
  function MatchTwentyFourHour(t: string): Option<HourMinute> {
    match MatchClockPrefix(t)
    case None => None
    case Some((hm, rest)) => if rest == [] then Some(hm) else None
  }

  /** `hour.toString().padStart(2, '0')`. */
  function PadHour(hour: nat): string {
    PadStart(NatToDecimal(hour), 2, '0')
  }

  /** The 12-hour branch: `pm` adds 12 unless the hour is 12, `12 am` becomes 0; no range check. */
  function FromTwelveHour(hm: HourMinute, meridianText: string): string
    requires WellFormed(hm)
  {
    var parsed := DecimalValue(hm.hour);
    var meridian := ToLower(meridianText);
    var hour := if meridian == "pm" && parsed != 12 then parsed + 12 else parsed;
    var hour := if meridian == "am" && hour == 12 then 0 else hour;
    PadHour(hour) + ":" + hm.minute
  }

  /** The 24-hour branch: hours above 23 or minutes above 59 throw `InvalidTime`. */
  function FromTwentyFourHour(timeStr: string, hm: HourMinute): Result<string, TimeError>
    requires WellFormed(hm)
  {
    var hour := DecimalValue(hm.hour);
    if hour < 0 || hour > 23 || DecimalValue(hm.minute) < 0 || DecimalValue(hm.minute) > 59 then
      Failure(InvalidTime(timeStr))
    else
      Success(PadHour(hour) + ":" + hm.minute)
  }

  /** `normalizeTimeToHHMM(timeStr)`: the 24-hour text, or the error it throws. */
  function NormalizeTimeToHHMM(timeStr: string): Result<string, TimeError> {
    var trimmed := Trim(timeStr);
    match MatchTwelveHour(trimmed)
    case Some((hm, meridianText)) =>
      TwelveHourMatchWellFormed(trimmed);
      Success(FromTwelveHour(hm, meridianText))
    case None =>
      match MatchTwentyFourHour(trimmed)
      case Some(hm) =>
        TwentyFourHourMatchWellFormed(trimmed);
        FromTwentyFourHour(timeStr, hm)
      case None => Failure(UnsupportedTimeFormat(timeStr))
  }

  lemma TwelveHourMatchWellFormed(t: string)
    requires MatchTwelveHour(t).Some?
    ensures WellFormed(MatchTwelveHour(t).value.0) && IsMeridianText(MatchTwelveHour(t).value.1)
  {
  }

  lemma TwentyFourHourMatchWellFormed(t: string)
    requires MatchTwentyFourHour(t).Some?
    ensures WellFormed(MatchTwentyFourHour(t).value)
  {
  }

  // ---------------------------------------------------------------- the patterns, exactly

  /** The clock prefix matches every well-formed `H:MM`/`HH:MM` and returns what follows. */
  lemma MatchClockPrefixOf(hm: HourMinute, rest: string)
    requires WellFormed(hm)
    ensures MatchClockPrefix(ClockText(hm) + rest) == Some((hm, rest))
  {
    var t := ClockText(hm) + rest;
    var n := |hm.hour|;
    assert t[..n] == hm.hour && t[n] == ':' && t[n + 1..n + 3] == hm.minute && t[n + 3..] == rest;
    if n == 2 { assert t[0] == hm.hour[0] && t[1] == hm.hour[1]; }
  }

  /** The 24-hour pattern matches exactly the well-formed `H:MM`/`HH:MM` texts. */
  lemma TwentyFourHourPatternExactly(t: string, hm: HourMinute)
    ensures MatchTwentyFourHour(t) == Some(hm) <==> WellFormed(hm) && t == ClockText(hm)
  {
    if WellFormed(hm) && t == ClockText(hm) {
      MatchClockPrefixOf(hm, []);
      assert ClockText(hm) + [] == t;
    }
    if MatchTwentyFourHour(t) == Some(hm) {
      var rest := MatchClockPrefix(t).value.1;
      assert ClockText(hm) + rest == t && rest == [];
    }
  }

  /** The 12-hour pattern matches a well-formed clock, any whitespace, and a meridian in any case. */
  lemma TwelveHourPatternMatches(hm: HourMinute, gap: string, meridianText: string)
    requires WellFormed(hm) && AllWhitespace(gap) && IsMeridianText(meridianText)
    ensures MatchTwelveHour(ClockText(hm) + gap + meridianText) == Some((hm, meridianText))
  {
    var rest := gap + meridianText;
    assert ClockText(hm) + gap + meridianText == ClockText(hm) + rest;
    MatchClockPrefixOf(hm, rest);
    assert rest[..|rest| - 2] == gap && rest[|rest| - 2..] == meridianText;
  }

  /** Whatever the 12-hour pattern matches is a well-formed clock, whitespace and a meridian. */
  lemma TwelveHourPatternOnly(t: string, hm: HourMinute, meridianText: string)
    requires MatchTwelveHour(t) == Some((hm, meridianText))
    ensures WellFormed(hm) && IsMeridianText(meridianText)
    ensures var gap := t[|ClockText(hm)|..|t| - 2];
      AllWhitespace(gap) && t == ClockText(hm) + gap + meridianText
  {
    var m := MatchClockPrefix(t);
    var rest := m.value.1;
    assert m.value.0 == hm && t == ClockText(hm) + rest;
    assert |rest| >= 2 && meridianText == rest[|rest| - 2..];
    var gap := rest[..|rest| - 2];
    assert AllWhitespace(gap);
    assert rest == gap + meridianText;
    MiddleOfThree(ClockText(hm), gap, meridianText);
  }

  /** The middle part of a three-part concatenation, cut out by the lengths of the outer parts. */
  lemma MiddleOfThree(x: string, g: string, y: string)
    ensures var t := x + (g + y); t == x + g + y && t[|x|..|t| - |y|] == g
  {
    var t := x + (g + y);
    assert t == x + g + y;
    assert t[|x|..|t| - |y|] == g;
  }

  // ---------------------------------------------------------------- the branches

  /** The two patterns never both match. */
  lemma PatternsDisjoint(t: string)
    ensures MatchTwentyFourHour(t).Some? ==> MatchTwelveHour(t).None?
  {
  }

  /** Text the 24-hour pattern matches goes to the 24-hour branch. */
  lemma TakesTwentyFourHourBranch(timeStr: string, hm: HourMinute)
    requires MatchTwentyFourHour(Trim(timeStr)) == Some(hm)
    ensures WellFormed(hm) && NormalizeTimeToHHMM(timeStr) == FromTwentyFourHour(timeStr, hm)
  {
    PatternsDisjoint(Trim(timeStr));
    TwentyFourHourMatchWellFormed(Trim(timeStr));
  }

  /** What the 24-hour branch promises for the groups `hm`: success exactly for hours 0–23 and
      minutes 0–59, then `HH:MM` with the hour read back and the minute digits copied;
      otherwise `InvalidTime` with the untrimmed input. */
  predicate TwentyFourHourResult(timeStr: string, hm: HourMinute, r: Result<string, TimeError>)
    requires WellFormed(hm)
  {
    && (r.Success? <==> DecimalValue(hm.hour) <= 23 && DecimalValue(hm.minute) <= 59)
    && (r.Failure? ==> r.error == InvalidTime(timeStr))
    && (r.Success? ==> |r.value| == 5 && r.value[2] == ':' && AllDigits(r.value[..2])
                       && DecimalValue(r.value[..2]) == DecimalValue(hm.hour)
                       && r.value[3..] == hm.minute)
  }

  /** The range check and the output of the 24-hour branch on its own. */
  lemma FromTwentyFourHourOutput(timeStr: string, hm: HourMinute)
    requires WellFormed(hm)
    ensures TwentyFourHourResult(timeStr, hm, FromTwentyFourHour(timeStr, hm))
  {
    var hour := DecimalValue(hm.hour);
    if hour <= 23 && DecimalValue(hm.minute) <= 59 {
      assert FromTwentyFourHour(timeStr, hm) == Success(PadHour(hour) + ":" + hm.minute);
      PaddedOutput(hour, hm.minute);
    } else {
      assert FromTwentyFourHour(timeStr, hm) == Failure(InvalidTime(timeStr));
    }
  }

  /** A padded hour below 100 and two minute digits make `HH:MM` whose hour reads back. */
  lemma PaddedOutput(hour: nat, minute: string)
    requires hour < 100 && |minute| == 2
    ensures var o := PadHour(hour) + ":" + minute;
      && |o| == 5 && o[2] == ':' && AllDigits(o[..2])
      && DecimalValue(o[..2]) == hour && o[3..] == minute
  {
    PaddedBelowHundred(hour);
    ClockParts(PadHour(hour), minute);
  }

  /** Where the hour and the minute sit in `HH:MM`. */
  lemma ClockParts(hh: string, mm: string)
    requires |hh| == 2 && |mm| == 2
    ensures var o := hh + ":" + mm; |o| == 5 && o[..2] == hh && o[2] == ':' && o[3..] == mm
  {
    var o := hh + ":" + mm;
    assert o[..2] == hh && o[3..] == mm;
  }

  /** The 24-hour branch accepts exactly the hours 0–23 and minutes 0–59; it pads the hour
      to two digits and copies the minute digits; anything else is `InvalidTime`. */
  lemma TwentyFourHourBranch(timeStr: string, hm: HourMinute)
    requires MatchTwentyFourHour(Trim(timeStr)) == Some(hm)
    ensures WellFormed(hm)
    ensures TwentyFourHourResult(timeStr, hm, NormalizeTimeToHHMM(timeStr))
  {
    TakesTwentyFourHourBranch(timeStr, hm);
    FromTwentyFourHourOutput(timeStr, hm);
  }

  /** The conventional 12-hour to 24-hour conversion for hours 1–12. */
  function Hour24(hour: nat, isPm: bool): nat {
    hour % 12 + (if isPm then 12 else 0)
  }

  /** The 12-hour conversion read off the meridian's first letter, in either case: the hour
      becomes `hour + 12` after `p` unless it is 12, 12 after `a` becomes 0, and the minute
      digits are copied. No range check. */
  function TwelveHourByLetter(hm: HourMinute, meridianText: string): string
    requires WellFormed(hm) && IsMeridianText(meridianText)
  {
    var h := DecimalValue(hm.hour);
    var isPm := meridianText[0] == 'p' || meridianText[0] == 'P';
    PadHour(if isPm && h != 12 then h + 12 else if !isPm && h == 12 then 0 else h) + ":" + hm.minute
  }

  /** The 12-hour branch never range-checks and never fails: its result is the conversion by the
      meridian's first letter. */
  lemma TwelveHourBranch(timeStr: string, hm: HourMinute, meridianText: string)
    requires MatchTwelveHour(Trim(timeStr)) == Some((hm, meridianText))
    ensures WellFormed(hm) && IsMeridianText(meridianText)
    ensures NormalizeTimeToHHMM(timeStr) == Success(TwelveHourByLetter(hm, meridianText))
  {
    TwelveHourMatchWellFormed(Trim(timeStr));
    assert NormalizeTimeToHHMM(timeStr) == Success(FromTwelveHour(hm, meridianText));
    FromTwelveHourOutput(hm, meridianText);
  }

  /** The 12-hour branch on its own: the meridian counts only by its first letter. */
  lemma FromTwelveHourOutput(hm: HourMinute, meridianText: string)
    requires WellFormed(hm) && IsMeridianText(meridianText)
    ensures FromTwelveHour(hm, meridianText) == TwelveHourByLetter(hm, meridianText)
  {
    LowerMeridian(meridianText);
  }

  /** Lower-cased, a meridian is `pm` exactly when it starts with `p` or `P`, and `am` otherwise. */
  lemma LowerMeridian(m: string)
    requires IsMeridianText(m)
    ensures var isPm := m[0] == 'p' || m[0] == 'P';
      (ToLower(m) == "pm" <==> isPm) && (ToLower(m) == "am" <==> !isPm)
  {
    var lower := ToLower(m);
    assert lower == [ToLowerChar(m[0]), ToLowerChar(m[1])];
  }

  /** For the hours a 12-hour clock shows, 1–12, the branch gives the conventional conversion,
      and with a minute up to 59 the result is a canonical 24-hour time. */
  lemma TwelveHourBranchConventional(timeStr: string, hm: HourMinute, meridianText: string)
    requires MatchTwelveHour(Trim(timeStr)) == Some((hm, meridianText))
    requires WellFormed(hm) && IsMeridianText(meridianText) && 1 <= DecimalValue(hm.hour) <= 12
    ensures var isPm := meridianText[0] == 'p' || meridianText[0] == 'P';
      NormalizeTimeToHHMM(timeStr) == Success(PadHour(Hour24(DecimalValue(hm.hour), isPm)) + ":" + hm.minute)
    ensures DecimalValue(hm.minute) <= 59 ==> IsCanonicalTime(NormalizeTimeToHHMM(timeStr).value)
  {
    var isPm := meridianText[0] == 'p' || meridianText[0] == 'P';
    ByLetterConventional(hm, meridianText);
    TwelveHourBranch(timeStr, hm, meridianText);
    if DecimalValue(hm.minute) <= 59 {
      CanonicalPadded(Hour24(DecimalValue(hm.hour), isPm), hm.minute);
    }
  }

  /** On hours 1–12 the conversion by first letter is the conventional one, below 24. */
  lemma ByLetterConventional(hm: HourMinute, meridianText: string)
    requires WellFormed(hm) && IsMeridianText(meridianText) && 1 <= DecimalValue(hm.hour) <= 12
    ensures var isPm := meridianText[0] == 'p' || meridianText[0] == 'P';
      && Hour24(DecimalValue(hm.hour), isPm) <= 23
      && TwelveHourByLetter(hm, meridianText) == PadHour(Hour24(DecimalValue(hm.hour), isPm)) + ":" + hm.minute
  {
    var h := DecimalValue(hm.hour);
    var isPm := meridianText[0] == 'p' || meridianText[0] == 'P';
    var r := if isPm && h != 12 then h + 12 else if !isPm && h == 12 then 0 else h;
    if h == 12 {
      assert h % 12 == 0;
    } else {
      assert h % 12 == h;
    }
    assert r == Hour24(h, isPm);
    assert TwelveHourByLetter(hm, meridianText) == PadHour(r) + ":" + hm.minute;
  }

  /** A padded hour up to 23 and two minute digits up to 59 make a canonical time. */
  lemma CanonicalPadded(hour: nat, minute: string)
    requires hour <= 23 && |minute| == 2 && AllDigits(minute) && DecimalValue(minute) <= 59
    ensures IsCanonicalTime(PadHour(hour) + ":" + minute)
  {
    PaddedOutput(hour, minute);
  }


  /** Text matching neither pattern after trimming is rejected as an unsupported format. */
  lemma UnsupportedFormat(timeStr: string)
    requires MatchTwelveHour(Trim(timeStr)).None? && MatchTwentyFourHour(Trim(timeStr)).None?
    ensures NormalizeTimeToHHMM(timeStr) == Failure(UnsupportedTimeFormat(timeStr))
  {
  }

  // ---------------------------------------------------------------- canonical output

  /** Canonical 24-hour time: two hour digits up to 23, a colon, two minute digits up to 59. */
  predicate IsCanonicalTime(o: string) {
    |o| == 5 && AllDigits(o[..2]) && o[2] == ':' && AllDigits(o[3..])
    && DecimalValue(o[..2]) <= 23 && DecimalValue(o[3..]) <= 59
  }

  lemma PadHourRoundTrip(d: string)
    requires |d| == 2 && AllDigits(d)
    ensures PadHour(DecimalValue(d)) == d
  {
    TwoDigitsRoundTrip(d);
  }

  lemma CanonicalTwentyFourHour(o: string)
    requires IsCanonicalTime(o)
    ensures WellFormed(HourMinute(o[..2], o[3..]))
    ensures FromTwentyFourHour(o, HourMinute(o[..2], o[3..])) == Success(o)
  {
    var hm := HourMinute(o[..2], o[3..]);
    assert WellFormed(hm);
    var h := DecimalValue(o[..2]);
    assert h <= 23 && DecimalValue(o[3..]) <= 59;
    assert FromTwentyFourHour(o, hm) == Success(PadHour(h) + ":" + o[3..]);
    PadHourRoundTrip(o[..2]);
    assert o[..2] + ":" + o[3..] == o;
  }

  /** A canonical time normalises to itself. */
  lemma CanonicalIsFixedPoint(o: string)
    requires IsCanonicalTime(o)
    ensures NormalizeTimeToHHMM(o) == Success(o)
  {
    CanonicalTrimmed(o);
    CanonicalMatches(o);
    CanonicalTwentyFourHour(o);
    TakesTwentyFourHourBranch(o, HourMinute(o[..2], o[3..]));
  }

  /** A canonical time matches the 24-hour pattern. */
  lemma CanonicalMatches(o: string)
    requires IsCanonicalTime(o)
    ensures MatchTwentyFourHour(o) == Some(HourMinute(o[..2], o[3..]))
  {
    var hm := HourMinute(o[..2], o[3..]);
    assert WellFormed(hm);
    assert o == ClockText(hm) + [];
    MatchClockPrefixOf(hm, []);
  }

  /** A canonical time has no whitespace to trim. */
  lemma CanonicalTrimmed(o: string)
    requires IsCanonicalTime(o)
    ensures Trim(o) == o
  {
    assert IsDigit(o[0]) && IsDigit(o[4]);
    TrimOfTrimmed(o);
  }

  /** What the 24-hour branch accepts comes out canonical, so normalising it again changes nothing. */
  lemma TwentyFourHourIdempotent(timeStr: string, hm: HourMinute)
    requires MatchTwentyFourHour(Trim(timeStr)) == Some(hm)
    requires NormalizeTimeToHHMM(timeStr).Success?
    ensures IsCanonicalTime(NormalizeTimeToHHMM(timeStr).value)
    ensures var o := NormalizeTimeToHHMM(timeStr).value; NormalizeTimeToHHMM(o) == Success(o)
  {
    TwentyFourHourBranch(timeStr, hm);
    TwentyFourHourPatternExactly(Trim(timeStr), hm);
    CanonicalIsFixedPoint(NormalizeTimeToHHMM(timeStr).value);
  }

  // ---------------------------------------------------------------- examples

  /** `"13:00 pm"` is accepted by the 12-hour branch, which does not range-check: it gives `"25:00"`. */
  lemma ThirteenPmIsTwentyFive(t: string)
    requires t == "13:00 pm"
    ensures NormalizeTimeToHHMM(t) == Success("25:00")
  {
    var hm := HourMinute("13", "00");
    assert WellFormed(hm) && AllWhitespace(" ") && IsMeridianText("pm");
    assert ClockText(hm) + " " + "pm" == t;
    assert t[0] == '1' && t[|t| - 1] == 'm';
    TrimOfTrimmed(t);
    TakesTwelveHourBranch(t, hm, " ", "pm");
    ThirteenPmText();
  }

  /** Text of the 12-hour shape with nothing to trim goes to the 12-hour branch. */
  lemma TakesTwelveHourBranch(t: string, hm: HourMinute, gap: string, meridianText: string)
    requires WellFormed(hm) && AllWhitespace(gap) && IsMeridianText(meridianText)
    requires t == ClockText(hm) + gap + meridianText && Trim(t) == t
    ensures NormalizeTimeToHHMM(t) == Success(FromTwelveHour(hm, meridianText))
  {
    TwelveHourPatternMatches(hm, gap, meridianText);
  }

  lemma ThirteenPmText()
    ensures FromTwelveHour(HourMinute("13", "00"), "pm") == "25:00"
  {
    var hm := HourMinute("13", "00");
    assert "25" + ":" + "00" == "25:00";
    TwoDigitsValue(hm.hour);
    NatToDecimalOfTwoDigits(2, 5);
    assert DigitChar(2) == '2' && DigitChar(5) == '5';
    assert PadHour(25) == "25";
    assert TwelveHourByLetter(hm, "pm") == PadHour(25) + ":" + "00";
    FromTwelveHourOutput(hm, "pm");
  }

  /** Text not starting with a digit matches neither pattern. */
  lemma NoClockPrefix(t: string)
    requires t != [] && !IsDigit(t[0])
    ensures MatchTwelveHour(t).None? && MatchTwentyFourHour(t).None?
  {
  }

  /** `"25:99"` matches the 24-hour pattern but is out of range: `InvalidTime`. */
  lemma OutOfRangeIsInvalid(t: string)
    requires t == "25:99"
    ensures NormalizeTimeToHHMM(t) == Failure(InvalidTime(t))
  {
    var hm := HourMinute("25", "99");
    TwoDigitsValue(hm.hour);
    assert WellFormed(hm) && FromTwentyFourHour(t, hm) == Failure(InvalidTime(t));
    assert ClockText(hm) == t;
    TwentyFourHourPatternExactly(t, hm);
    TrimOfTrimmed(t);
    TakesTwentyFourHourBranch(t, hm);
  }

  /** `"noon"` matches neither pattern: an unsupported format. */
  lemma NoonIsUnsupported(t: string)
    requires t == "noon"
    ensures NormalizeTimeToHHMM(t) == Failure(UnsupportedTimeFormat(t))
  {
    assert t[0] == 'n' && t[|t| - 1] == 'n';
    NoClockPrefix(t);
    TrimOfTrimmed(t);
    UnsupportedFormat(t);
  }

  /** The empty text matches neither pattern: an unsupported format. */
  lemma EmptyIsUnsupported()
    ensures NormalizeTimeToHHMM("") == Failure(UnsupportedTimeFormat(""))
  {
    TrimOfTrimmed("");
    UnsupportedFormat("");
  }
}
