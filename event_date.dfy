/** `normalizeDateToISO` of database/event.model.ts. JavaScript's `new Date(text)`
    followed by `toISOString()` is implementation-defined and depends on the time
    zone, so it is a parameter here: `render(text)` is `None` when the parsed date
    is invalid (`getTime()` is `NaN`) and otherwise the ISO rendering. What the
    normaliser itself does is throw on `None` and keep the part before the first
    `T`. */
module EventDate {
  import opened Wrappers
  import opened JsText

  /** The error the normaliser throws, carrying the text it was given. */
  datatype DateError = InvalidDate(input: string)

  /** `s.split(sep)[0]`: the text before the first `sep`, or all of `s` when there is none. */
  function BeforeFirst(s: string, sep: char): (r: string)
    ensures |r| <= |s| && r == s[..|r|]
    ensures sep !in r
    ensures |r| < |s| ==> s[|r|] == sep
  {
    if s == [] || s[0] == sep then []
    else
      var r := [s[0]] + BeforeFirst(s[1..], sep);
      assert s == [s[0]] + s[1..];
      r
  }

  /** `normalizeDateToISO(dateStr)`: the date part of the ISO rendering, or the error it throws. */
  function NormalizeDateToISO(render: string -> Option<string>, dateStr: string): (r: Result<string, DateError>)
    ensures render(dateStr).None? <==> r == Failure(InvalidDate(dateStr))
  {
    match render(dateStr)
    case None => Failure(InvalidDate(dateStr))
    case Some(iso) => Success(BeforeFirst(iso, 'T'))
  }

  /** The part before the first separator is cut out exactly: a text free of the separator,
      followed by the separator and anything at all, gives back that text. */
  lemma BeforeFirstOf(head: string, sep: char, tail: string)
    requires sep !in head
    ensures BeforeFirst(head + [sep] + tail, sep) == head
  {
    var s := head + [sep] + tail;
    assert s[..|head|] == head && s[|head|] == sep;
  }

  /** A valid date normalises to whatever its ISO rendering holds before the first `T`. */
  lemma NormalizeValidDate(render: string -> Option<string>, dateStr: string, day: string, clock: string)
    requires render(dateStr) == Some(day + "T" + clock) && 'T' !in day
    ensures NormalizeDateToISO(render, dateStr) == Success(day)
  {
    BeforeFirstOf(day, 'T', clock);
  }

  // ---------------------------------------------------------------- ISO 8601 shapes

  /** `YYYY-MM-DD`: four digits, a hyphen, two digits, a hyphen, two digits. */
  predicate IsIsoDate(d: string) {
    |d| == 10 && d[4] == '-' && d[7] == '-'
    && AllDigits(d[..4]) && AllDigits(d[5..7]) && AllDigits(d[8..])
  }

  /** What `toISOString` produces for years 0 to 9999: `YYYY-MM-DD`, then `T` and the clock. */
  predicate IsIsoTimestamp(iso: string) {
    |iso| > 10 && IsIsoDate(iso[..10]) && iso[10] == 'T'
  }

  /** A rendering of the usual `YYYY-MM-DDTHH:mm:ss.sssZ` shape normalises to its ten-character
      calendar date. */
  lemma NormalizeIsoTimestamp(render: string -> Option<string>, dateStr: string)
    requires render(dateStr).Some? && IsIsoTimestamp(render(dateStr).value)
    ensures var r := NormalizeDateToISO(render, dateStr);
      r == Success(render(dateStr).value[..10]) && IsIsoDate(r.value)
  {
    var iso := render(dateStr).value;
    var day := iso[..10];
    assert 'T' !in day by {
      assert forall k :: 0 <= k < 10 ==> day[k] == '-' || IsDigit(day[k]) by {
        forall k | 0 <= k < 10
          ensures day[k] == '-' || IsDigit(day[k])
        {
          if k < 4 { assert day[k] == day[..4][k]; }
          else if 5 <= k < 7 { assert day[k] == day[5..7][k - 5]; }
          else if 8 <= k { assert day[k] == day[8..][k - 8]; }
        }
      }
    }
    assert iso == day + "T" + iso[11..];
    NormalizeValidDate(render, dateStr, day, iso[11..]);
  }

  /** A calendar date that renders as its own UTC midnight, which is how ECMAScript reads the
      date-only form, is kept as it is: normalising an already normalised date changes nothing. */
  lemma NormalizeIsoDateIsStable(render: string -> Option<string>, d: string)
    requires IsIsoDate(d) && render(d) == Some(d + "T00:00:00.000Z")
    ensures NormalizeDateToISO(render, d) == Success(d)
  {
    var iso := d + "T00:00:00.000Z";
    assert iso[..10] == d && iso[10] == 'T';
    NormalizeIsoTimestamp(render, d);
  }
}
