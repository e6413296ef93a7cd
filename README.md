# dev-events: event normalisation, booking validation and similar events

This project models in Dafny the logic of the dev-events application that is
more than glue around Mongoose and Next.js, and proves what that logic does:

- **Event documents** (`database/event.model.ts`).
  - `generateSlug` turns a title into a URL slug.
  - `normalizeDateToISO` keeps the calendar date of a parsed date.
  - `normalizeTimeToHHMM` accepts `H:MM`/`HH:MM` in 24-hour or 12-hour (`am`/`pm`) form and
    writes 24-hour `HH:MM`.
  - The pre-save hook decides which of these run and assigns `slug`, `date` and `time` on the
    document in place.
- **Bookings** (`database/booking.model.ts`).
  - The email is trimmed and then tested against `^[^\s@]+@[^\s@]+\.[^\s@]+$`.
  - The pre-save hook refuses a booking whose event id is not a stored event.
- **Similar events** (`lib/actions/event.actions.ts`).
  - `getSimilarEventsBySlug` looks up the event with a slug.
  - It then returns every other event that shares a tag with it.
  - A missing slug or any database error gives `[]`.

Modules, one per file:

| file | module | contents |
|---|---|---|
| `wrappers.dfy` | `Wrappers` | `Option`, `Result`, and `Outcome`, which is pass or a thrown error |
| `object_ids.dfy` | `ObjectIds` | document ids |
| `js_text.dfy` | `JsText` | the JavaScript string primitives used: whitespace as `\s` and `trim` see it, `trim`, ASCII `toLowerCase`, `\d`, `parseInt(s, 10)`, `toString`, `padStart` |
| `event_slug.dfy` | `EventSlug` | `generateSlug` as its regex pipeline, and a word-based reference description of its result |
| `event_time.dfy` | `EventTime` | `normalizeTimeToHHMM`, both patterns, both branches, the errors |
| `event_date.dfy` | `EventDate` | `normalizeDateToISO` over a date renderer given as a parameter |
| `event_model.dfy` | `EventModel` | the event document as a class, and its pre-save hook on fields and on values |
| `booking_model.dfy` | `BookingModel` | the email validator, and saving a booking |
| `event_actions.dfy` | `EventActions` | `getSimilarEventsBySlug` over the stored events |

How the models relate to the code:

- **Strings** are sequences of code points.
  - `toLowerCase` maps only `A`–`Z`.
  - `\d` is the ASCII digits.
  - `\s` and `trim` use the ECMAScript WhiteSpace and LineTerminator code points.
- **`generateSlug`** is modelled stage by stage: replace runs outside `[a-z0-9]` by `-`, strip
  hyphens from the ends, collapse doubled hyphens. The lemmas then show that the result equals
  the title's alphanumeric words joined by single hyphens.
- **`normalizeTimeToHHMM`** returns the normalised text, or the error it throws. Each error
  carries the untrimmed input, as the messages do.
  - The 12-hour branch does no range check, exactly as written: `"13:00 pm"` gives `"25:00"`.
- **`normalizeDateToISO`** takes `new Date(s)` followed by `toISOString()` as a parameter,
  `render: string -> Option<string>`. `None` stands for an invalid date.
- **The pre-save hook** is `EventDocument.PreSaveHook`, a method that assigns the document's
  fields in place.
  - It is proved to agree with the value-level `PreSave`, and every property of the hook is
    proved about `PreSave`.
  - The three helpers reach the method as a `Normalisers` value. `Standard` is the set the
    source uses.
  - A throw aborts the save and leaves the assignments made before it on the document.
- **Saving a booking** runs path validation first and the pre-save hook second, which is
  Mongoose's order. An invalid email is therefore reported before a missing event.
  - The stored events are a set of ids.
- **The stored events** are either a sequence of records or the database error.
  - `findOne` returns the first record with the slug.
  - `find` keeps the records the filter matches.
  - No result order is promised: the properties speak of membership and multiplicity.

## Model

| member | source | states |
|---|---|---|
| JsText.TrimStart | database/event.model.ts:30 | the leading whitespace is stripped and nothing else: the result is a suffix of the input, the part removed is all whitespace, and the result does not start with whitespace |
| JsText.TrimEnd | database/event.model.ts:30 | the trailing whitespace is stripped and nothing else: the result is a prefix of the input, the part removed is all whitespace, and the result does not end with whitespace |
| JsText.TrimOfPadded | database/event.model.ts:30 | `trim` removes exactly the surrounding whitespace: whitespace + text + whitespace trims to the text when the text has no whitespace at either end |
| JsText.TrimOfTrimmed | database/event.model.ts:47 | text without whitespace at either end is its own trim |
| JsText.TrimStartSkipsWhitespace | database/event.model.ts:30 | leading whitespace is dropped whatever follows it |
| JsText.TrimEndSkipsWhitespace | database/event.model.ts:30 | trailing whitespace is dropped whatever precedes it |
| JsText.Trim | database/event.model.ts:30 | `trim` is `TrimEnd` after `TrimStart`; the trimmed text is no longer than the input and neither starts nor ends with whitespace |
| JsText.TrimStripsWhitespace | database/event.model.ts:30 | the trimmed text sits in the input, at the position where the leading whitespace ends, between an all-whitespace prefix and an all-whitespace suffix (`CutOutOfWhitespace`); with the `Trim` contract this pins the result down |
| JsText.ToLower | database/event.model.ts:29 | `toLowerCase` keeps the length and lower-cases each character on its own, `A`–`Z` to `a`–`z` |
| JsText.ToLowerOfLower | database/event.model.ts:29 | lower-casing leaves text without ASCII capitals unchanged |
| JsText.DecimalValue | database/event.model.ts:52 | `parseInt(s, 10)` of a digit string; what it reads is stated by `TwoDigitsValue`, `NatToDecimalDigits`, `TwoDigitsRoundTrip` and `PaddedBelowHundred` |
| JsText.NatToDecimal | database/event.model.ts:57 | `Number.prototype.toString()`; its contract is `NatToDecimalDigits`: decimal digits without a leading zero that read back as the number |
| JsText.PadStart | database/event.model.ts:57 | `padStart` reaches the width when it is longer, keeps the text as suffix and fills only the front |
| JsText.NatToDecimalDigits | database/event.model.ts:57 | `toString` of a number writes decimal digits without a leading zero that read back as the number; one digit exactly below 10 |
| JsText.TwoDigitsRoundTrip | database/event.model.ts:63-68 | two digits read by `parseInt` and written back with `padStart(2, '0')` are the same two digits |
| JsText.PaddedBelowHundred | database/event.model.ts:68 | a number below 100 padded to two places is two digits that read back as the number |
| EventSlug.GenerateSlug | database/event.model.ts:27-34 | `toLowerCase`, `trim`, then the three replacements, in the source's order; its contract is carried by `GenerateSlugIsSlug`, `GenerateSlugJoinsWords`, `GenerateSlugKeepsAlnums` and `GenerateSlugIdempotent` |
| EventSlug.ReplaceNonAlnumRuns | database/event.model.ts:31 | `.replace(/[^a-z0-9]+/g, '-')`; `ReplaceNonAlnumRunsShape` proves the result is the words joined by hyphens, plus one hyphen at an end that was not alphanumeric |
| EventSlug.ReplaceNonAlnumRunsShape | database/event.model.ts:31 | each maximal run outside `[a-z0-9]` becomes one hyphen: the result is a hyphen if the text starts outside `[a-z0-9]`, the words joined by hyphens, and a hyphen if it ends outside them after a word |
| EventSlug.StripHyphens | database/event.model.ts:32 | `.replace` of the leading run `^-+` and the trailing run `-+$` of hyphens; `StripAroundSlug` proves it removes exactly the extra end hyphens the replacement added |
| EventSlug.StripAroundSlug | database/event.model.ts:32 | stripping hyphens from a slug with at most one extra hyphen at either end gives the slug back |
| EventSlug.CollapseHyphens | database/event.model.ts:33 | `.replace(/-{2,}/g, '-')`; `CollapseWithoutDoubles` proves it changes nothing once no hyphen is doubled |
| EventSlug.CollapseWithoutDoubles | database/event.model.ts:33 | collapsing changes nothing in a text without doubled hyphens |
| EventSlug.GenerateSlugIsSlug | database/event.model.ts:27-34 | every slug holds only `a`–`z`, `0`–`9` and `-`, does not start or end with `-` and has no `--` |
| EventSlug.GenerateSlugJoinsWords | database/event.model.ts:28-33 | the slug is the maximal `[a-z0-9]` runs of the lower-cased title joined by single hyphens |
| EventSlug.GenerateSlugKeepsAlnums | database/event.model.ts:28-33 | the slug keeps exactly the ASCII alphanumerics of the lower-cased title, in order |
| EventSlug.GenerateSlugIdempotent | database/event.model.ts:27-34 | `generateSlug(generateSlug(t)) == generateSlug(t)` |
| EventSlug.SlugOfJoinedWords | database/event.model.ts:27-34 | hyphen-joined lower-case words are their own slug |
| EventSlug.GenerateSlugOfPunctuation | database/event.model.ts:28-33 | a title without ASCII letters or digits gives the empty slug |
| EventSlug.MyCoolTalk | database/event.model.ts:28-33 | `"My Cool Talk!!"` gives `"my-cool-talk"` |
| EventTime.NormalizeTimeToHHMM | database/event.model.ts:46-72 | trim, try the 12-hour pattern, then the 24-hour one, else `UnsupportedTimeFormat`; its contract is carried by `TwelveHourBranch`, `TwentyFourHourBranch`, `UnsupportedFormat`, `PatternsDisjoint` and `TwentyFourHourIdempotent` |
| EventTime.MatchTwelveHour | database/event.model.ts:50 | `^(\d{1,2}):(\d{2})\s*([AaPp][Mm])$`; both directions are `TwelveHourPatternMatches` and `TwelveHourPatternOnly` |
| EventTime.MatchTwentyFourHour | database/event.model.ts:61 | `^(\d{1,2}):(\d{2})$`; both directions are `TwentyFourHourPatternExactly` |
| EventTime.FromTwelveHour | database/event.model.ts:52-57 | the 12-hour arithmetic with `toLowerCase` of the meridian compared to `pm` and `am`; `FromTwelveHourOutput` equates it with the conversion by first letter |
| EventTime.TwelveHourByLetter | database/event.model.ts:52-57 | an independent statement of the 12-hour conversion, reading only the meridian's first letter in either case |
| EventTime.FromTwentyFourHour | database/event.model.ts:63-68 | the 24-hour range check and padding; `FromTwentyFourHourOutput` states what it gives |
| EventTime.MatchClockPrefix | database/event.model.ts:50 | a match of `^(\d{1,2}):(\d{2})` gives 1–2 hour digits and 2 minute digits that, with the rest, spell the text |
| EventTime.MatchClockPrefixOf | database/event.model.ts:61 | every well-formed `H:MM`/`HH:MM` prefix is matched, and the rest is returned |
| EventTime.TwentyFourHourPatternExactly | database/event.model.ts:61 | `^(\d{1,2}):(\d{2})$` matches with groups `hm` if and only if the text is `hm` written as `H:MM`/`HH:MM` |
| EventTime.TwelveHourPatternMatches | database/event.model.ts:50 | clock text, any whitespace, then `[AaPp][Mm]` is matched, with the groups recovered |
| EventTime.TwelveHourPatternOnly | database/event.model.ts:50 | anything the 12-hour pattern matches is clock text, whitespace, and a meridian in any case |
| EventTime.PatternsDisjoint | database/event.model.ts:50-61 | no text matches both patterns |
| EventTime.TwentyFourHourBranch | database/event.model.ts:61-69 | for 24-hour input the result succeeds if and only if hour ≤ 23 and minute ≤ 59; it is then `HH:MM` with the hour read back and the minute copied; otherwise it is `InvalidTime` |
| EventTime.FromTwentyFourHourOutput | database/event.model.ts:63-68 | the range check and output of the 24-hour branch on its own |
| EventTime.TwelveHourBranch | database/event.model.ts:50-58 | for 12-hour input the result is always a success, the conversion by the meridian's first letter: `pm` adds 12 unless the hour is 12, `12 am` is 0, the case is ignored, and there is no range check |
| EventTime.FromTwelveHourOutput | database/event.model.ts:52-57 | the hour arithmetic of the 12-hour branch, by the meridian's first letter |
| EventTime.TwelveHourBranchConventional | database/event.model.ts:50-58 | for 12-hour input with an hour from 1 to 12 the result is the conventional conversion, `hour % 12` plus 12 after `pm`, padded, with the minute copied; with a minute up to 59 it is a canonical 24-hour time |
| EventTime.UnsupportedFormat | database/event.model.ts:71 | trimmed text matching neither pattern throws `UnsupportedTimeFormat` with the input |
| EventTime.NoClockPrefix | database/event.model.ts:50-61 | text not starting with a digit matches neither pattern |
| EventTime.CanonicalIsFixedPoint | database/event.model.ts:61-68 | canonical `HH:MM` (hour ≤ 23, minute ≤ 59) normalises to itself |
| EventTime.TwentyFourHourIdempotent | database/event.model.ts:47-69 | a successful 24-hour result is canonical and normalises to itself again |
| EventTime.ThirteenPmIsTwentyFive | database/event.model.ts:50-57 | `"13:00 pm"` gives `"25:00"` |
| EventTime.OutOfRangeIsInvalid | database/event.model.ts:61-66 | `"25:99"` throws `InvalidTime` |
| EventTime.NoonIsUnsupported | database/event.model.ts:71 | `"noon"` throws `UnsupportedTimeFormat` |
| EventTime.EmptyIsUnsupported | database/event.model.ts:71 | `""` throws `UnsupportedTimeFormat` |
| EventDate.NormalizeDateToISO | database/event.model.ts:37-43 | the normaliser throws `InvalidDate` with the input exactly when the date is invalid |
| EventDate.BeforeFirst | database/event.model.ts:42 | `split(sep)[0]` is a prefix free of `sep`, followed by `sep` unless it is the whole text |
| EventDate.BeforeFirstOf | database/event.model.ts:42 | `(head + sep + tail).split(sep)[0]` is `head` when `head` has no `sep` |
| EventDate.NormalizeValidDate | database/event.model.ts:37-43 | a valid date gives the part of its ISO rendering before the first `T` |
| EventDate.NormalizeIsoTimestamp | database/event.model.ts:42 | a rendering `YYYY-MM-DDT…` gives its ten-character `YYYY-MM-DD` |
| EventDate.NormalizeIsoDateIsStable | database/event.model.ts:37-43 | a `YYYY-MM-DD` that renders as its own UTC midnight normalises to itself |
| EventModel.PreSave | database/event.model.ts:129-144 | the hook changes no field but `slug`, `date` and `time` |
| EventModel.Standard | database/event.model.ts:129-144 | the three helpers the hook calls, `generateSlug`, `normalizeDateToISO` and `normalizeTimeToHHMM`; the lemmas about `PreSave` are stated with these |
| EventModel.SlugStep | database/event.model.ts:131-133 | the title step changes at most `slug` |
| EventModel.DateStep | database/event.model.ts:136-138 | the date step changes at most `date` |
| EventModel.TimeStep | database/event.model.ts:141-143 | the time step changes at most `time` |
| EventModel.SlugFollowsTitle | database/event.model.ts:131-133 | the slug becomes `generateSlug(title)`, a well-formed slug, exactly when the title was modified, and is kept otherwise |
| EventModel.DateNormalisedWhenNeeded | database/event.model.ts:136-138 | the date is kept unless modified or empty; then it is normalised, or the save fails with the date error and date and time unchanged |
| EventModel.EmptyDateFails | database/event.model.ts:136-137 | an empty date that does not parse fails the save, modified or not |
| EventModel.TimeNormalisedWhenNeeded | database/event.model.ts:141-143 | after the date step, the time is kept unless modified or empty; then it is normalised, or the save fails with the time error |
| EventModel.PassesExactly | database/event.model.ts:129-144 | the save passes if and only if every normaliser that runs succeeds |
| EventModel.UntouchedDocumentPasses | database/event.model.ts:129-144 | nothing modified and nothing empty: the hook passes and changes nothing |
| EventModel.EventDocument.PreSaveHook | database/event.model.ts:129-144 | the in-place hook yields the outcome and the fields `PreSave` gives for the old fields, and assigns only `slug`, `date` and `time` |
| BookingModel.EmailRegexTest | database/booking.model.ts:15 | `emailRegex.test`: some `@` and a later `.` split the text into three non-empty runs without whitespace or `@`; `EmailRegexExactly` restates it as a shape in both directions |
| BookingModel.EmailRegexExactly | database/booking.model.ts:15 | the pattern accepts exactly the strings with no whitespace and exactly one `@`, not first, with a `.` after the `@` that is neither next to it nor last |
| BookingModel.RegexGivesShape | database/booking.model.ts:15 | an accepted email has no whitespace, one `@` with text before it, and a later `.` that is not next to the `@` and not last |
| BookingModel.ShapeGivesRegex | database/booking.model.ts:15 | every string of that shape is accepted |
| BookingModel.ValidateEmail | database/booking.model.ts:25-32 | the email is valid if and only if its trimmed text matches; the trimmed text is what is kept |
| BookingModel.PaddedEmailAccepted | database/booking.model.ts:28-30 | whitespace around a valid address is trimmed off before the test |
| BookingModel.CheckReferencedEvent | database/booking.model.ts:42-48 | the hook passes if and only if the event id is stored, and otherwise fails with `EventNotFound` for the id |
| BookingModel.SaveBooking | database/booking.model.ts:25-48 | a saved booking references a stored event, the one it was given |
| BookingModel.SaveBookingExactly | database/booking.model.ts:25-48 | a booking is saved if and only if the trimmed email matches and the event exists; the error is the email error first, then `EventNotFound` |
| BookingModel.SaveKeepsReferences | database/booking.model.ts:42-48 | adding an accepted booking keeps every booking's event reference valid, and its email has the email shape |
| EventActions.FindOneBySlug | lib/actions/event.actions.ts:9 | the lookup finds nothing if and only if no stored event has the slug, and otherwise finds a stored event with it |
| EventActions.FindSimilar | lib/actions/event.actions.ts:17-20 | the query returns exactly the stored events whose id differs and which share a tag; nothing when the source has no tags |
| EventActions.GetSimilarEventsBySlug | lib/actions/event.actions.ts:5-31 | a database error gives `[]`, a missing slug gives `[]`, and otherwise the result holds exactly the other stored events sharing a tag with the found one |
| EventActions.FindSimilarCounts | lib/actions/event.actions.ts:17-24 | each event is returned as often as it is stored if it matches and never otherwise: the result is the matching part of the store, in some order |
| EventActions.FindSimilarDistinct | lib/actions/event.actions.ts:17-20 | with distinct ids in the store no event is returned twice |
| EventActions.FindOneUnique | lib/actions/event.actions.ts:9 | with unique slugs the lookup of a stored event's slug finds that event |
| EventActions.SimilarToStoredEvent | lib/actions/event.actions.ts:9-24 | for a stored event the result is exactly the other events sharing a tag with it, never the event itself, and empty when it has no tags |
| EventActions.SimilarEventsAreOthers | lib/actions/event.actions.ts:12-24 | every returned event is stored, has an id other than the found event's and shares a tag with it |

## Left out

- `lib/mongodb.ts`: the connection cache deduplicates concurrent connects through a foreign `mongoose.connect`. Concurrency and I/O are not modelled; connecting can only fail, which is the `DbError` of the store.
- The API routes, UI components, seed constants and `database/index.ts` re-exports: HTTP handling, rendering and static data, with no logic of the core.
- JavaScript `Date` parsing and `toISOString`: implementation-defined and time-zone dependent, so they are the `render` parameter of `NormalizeDateToISO`.
- `toLowerCase` beyond ASCII: Unicode case mapping is not modelled, so `ToLower` maps only `A`–`Z`.
- Mongoose schema machinery: `required`, `trim` and the other validators on the remaining fields, timestamps, and `strict`. The unique index on `slug` enters only as the `DistinctSlugs` assumption of `SimilarToStoredEvent`.
- Change tracking of the document: the paths the hook itself assigns are not added to `modifiedPaths`, since nothing after the hook reads them.
- An `undefined` date or time: a missing string is modelled as the empty string. Both are falsy, so the hook's `!this.date` and `!this.time` tests agree on them, but the normalisers then fail differently, as the next two lines say.
- EventModel.TimeNormalisedWhenNeeded: for an `undefined` time the source throws a `TypeError` from `timeStr.trim()` (database/event.model.ts:47); the model reports `BadTime(UnsupportedTimeFormat(""))`, the error an empty time gives.
- EventModel.EmptyDateFails: for an `undefined` date the source's message quotes `undefined` (database/event.model.ts:40); the model reports `BadDate(InvalidDate(""))`.
- A missing tag list is `[]`, as `event.tags || []` makes it.
- BookingModel.ValidateEmail: an empty email fails Mongoose's `required` check with its own message before the pattern runs; here it is reported as `InvalidEmail`, since the pattern rejects it as well.
- EventActions.GetSimilarEventsBySlug: one store value serves both queries, so the store cannot change between `findOne` and `find`. A failure of either query is the `Failure` case.
- EventActions.FindOneBySlug: Mongoose's `findOne` makes no promise about which of several matches it returns. The model takes the first in store order; with unique slugs, as the index enforces, the choice does not matter (`FindOneUnique`).
- Console logging in `getSimilarEventsBySlug`: it has no effect on the result.
- The `.lean()` conversion to plain objects: the records carry only the id, slug and tags that the rule reads.
