/** Booking validation of database/booking.model.ts: the email is trimmed and then
    tested against `^[^\s@]+@[^\s@]+\.[^\s@]+$`, and the pre-save hook refuses a
    booking whose event id is not among the stored events. The event store is an
    abstract set of ids. */
module BookingModel {
  import opened Wrappers
  import opened JsText
  import opened ObjectIds

  /** A booking as stored: the referenced event and the trimmed email. */
  datatype Booking = Booking(eventId: ObjectId, email: string)

  datatype BookingError =
    | InvalidEmail(email: string)
    | EventNotFound(eventId: ObjectId)

  // ---------------------------------------------------------------- the email pattern

  /** `[^\s@]`. */
  predicate IsEmailChar(c: char) {
    c != '@' && !IsWhitespace(c)
  }

  /** `[^\s@]+` without the `+`: every character is an email character. */
  predicate AllEmailChars(s: string) {
    forall k :: 0 <= k < |s| ==> IsEmailChar(s[k])
  }

  /** `emailRegex.test(s)`: some `@` at `i` and some `.` at `j` split `s` into three non-empty
      runs of `[^\s@]`, the first before `@`, the second between `@` and `.`, the third after
      the `.`. The backtracking regex accepts exactly when such a split exists. */
  predicate EmailRegexTest(s: string) {
    exists i, j | 0 < i && i + 1 < j < |s| - 1 ::
      s[i] == '@' && s[j] == '.'
      && AllEmailChars(s[..i]) && AllEmailChars(s[i + 1..j]) && AllEmailChars(s[j + 1..])
  }

  /** No whitespace anywhere. */
  predicate NoWhitespace(s: string) {
    forall k :: 0 <= k < |s| ==> !IsWhitespace(s[k])
  }

  /** The shape the pattern describes, stated without it: no whitespace, exactly one `@`, not
      first, and a `.` after it that is neither right after the `@` nor last. */
  predicate EmailShape(s: string) {
    NoWhitespace(s) && multiset(s)['@'] == 1
    && exists i, j | 0 < i && i + 1 < j < |s| - 1 :: s[i] == '@' && s[j] == '.'
  }

  /** A slice is a run of email characters exactly when each of its positions holds one. */
  lemma EmailCharsOfSlice(s: string, lo: int, hi: int)
    requires 0 <= lo <= hi <= |s|
    ensures AllEmailChars(s[lo..hi]) <==> forall k :: lo <= k < hi ==> IsEmailChar(s[k])
  {
    assert forall k :: lo <= k < hi ==> s[lo..hi][k - lo] == s[k];
  }

  /** An `@` at `i` and none elsewhere: the count of `@` is one. */
  lemma SingleAt(s: string, i: int)
    requires 0 <= i < |s| && s[i] == '@'
    requires forall k :: 0 <= k < |s| && k != i ==> s[k] != '@'
    ensures multiset(s)['@'] == 1
  {
    AtCountSplit(s, i);
    var before, after := s[..i], s[i + 1..];
    assert '@' !in before by {
      forall k | 0 <= k < |before| ensures before[k] != '@' { assert before[k] == s[k]; }
    }
    assert '@' !in after by {
      forall k | 0 <= k < |after| ensures after[k] != '@' { assert after[k] == s[i + 1 + k]; }
    }
  }

  /** Around an `@` at `i`, the count of `@` is one plus the count on either side. */
  lemma AtCountSplit(s: string, i: int)
    requires 0 <= i < |s| && s[i] == '@'
    ensures multiset(s)['@'] == multiset(s[..i])['@'] + 1 + multiset(s[i + 1..])['@']
  {
    assert s == s[..i] + [s[i]] + s[i + 1..];
  }

  /** The three runs of a split cover every position but the `@` and the `.`. */
  lemma SplitRunsCover(s: string, i: int, j: int)
    requires 0 < i && i + 1 < j < |s| - 1 && s[i] == '@' && s[j] == '.'
    requires AllEmailChars(s[..i]) && AllEmailChars(s[i + 1..j]) && AllEmailChars(s[j + 1..])
    ensures forall k :: 0 <= k < |s| && k != i && k != j ==> IsEmailChar(s[k])
  {
    EmailCharsOfSlice(s, 0, i);
    EmailCharsOfSlice(s, i + 1, j);
    EmailCharsOfSlice(s, j + 1, |s|);
    assert s[..i] == s[0..i] && s[j + 1..] == s[j + 1..|s|];
  }

  /** What the pattern accepts has the email shape. */
  lemma RegexGivesShape(s: string)
    requires EmailRegexTest(s)
    ensures EmailShape(s)
  {
    var i, j :| 0 < i && i + 1 < j < |s| - 1 && s[i] == '@' && s[j] == '.'
      && AllEmailChars(s[..i]) && AllEmailChars(s[i + 1..j]) && AllEmailChars(s[j + 1..]);
    SplitRunsCover(s, i, j);
    assert NoWhitespace(s);
    SingleAt(s, i);
  }

  /** With a single `@` in `s`, no other position holds one. */
  lemma OnlyAt(s: string, i: int, k: int)
    requires multiset(s)['@'] == 1 && 0 <= i < |s| && s[i] == '@' && 0 <= k < |s| && k != i
    ensures s[k] != '@'
  {
    AtCountSplit(s, i);
    if k < i {
      assert s[..i][k] == s[k];
    } else {
      assert s[i + 1..][k - i - 1] == s[k];
    }
  }

  /** Everything of the email shape is accepted by the pattern. */
  lemma ShapeGivesRegex(s: string)
    requires EmailShape(s)
    ensures EmailRegexTest(s)
  {
    var i, j :| 0 < i && i + 1 < j < |s| - 1 && s[i] == '@' && s[j] == '.';
    forall k | 0 <= k < |s| && k != i
      ensures IsEmailChar(s[k])
    {
      OnlyAt(s, i, k);
    }
    EmailCharsOfSlice(s, 0, i);
    EmailCharsOfSlice(s, i + 1, j);
    EmailCharsOfSlice(s, j + 1, |s|);
    assert s[..i] == s[0..i] && s[j + 1..] == s[j + 1..|s|];
  }

  /** The pattern accepts exactly the strings with no whitespace, exactly one `@` that is not
      first, and a `.` after the `@` that neither follows it directly nor ends the string. */
  lemma EmailRegexExactly(s: string)
    ensures EmailRegexTest(s) <==> EmailShape(s)
  {
    if EmailRegexTest(s) { RegexGivesShape(s); }
    if EmailShape(s) { ShapeGivesRegex(s); }
  }

  // ---------------------------------------------------------------- the validator

  /** The `email` path: `trim: true` stores the trimmed text, and the validator tests that. */
  function ValidateEmail(raw: string): (r: Result<string, BookingError>)
    ensures r.Success? <==> EmailRegexTest(Trim(raw))
    ensures r.Success? ==> r.value == Trim(raw)
  {
    var email := Trim(raw);
    if EmailRegexTest(email) then Success(email) else Failure(InvalidEmail(email))
  }

  /** Whitespace around a valid address does not matter: it is trimmed off before the test. */
  lemma PaddedEmailAccepted(a: string, e: string, b: string)
    requires AllWhitespace(a) && AllWhitespace(b) && EmailRegexTest(e)
    ensures ValidateEmail(a + e + b) == Success(e)
  {
    RegexGivesShape(e);
    TrimOfPadded(a, e, b);
  }

  // ---------------------------------------------------------------- the pre-save hook

  /** `Event.exists({ _id: this.eventId })`, then throw when it is not there. */
  function CheckReferencedEvent(existing: set<ObjectId>, eventId: ObjectId): (r: Outcome<BookingError>)
    ensures r == Pass <==> eventId in existing
    ensures r.Fail? ==> r.error == EventNotFound(eventId)
  {
    if eventId in existing then Pass else Fail(EventNotFound(eventId))
  }

  /** Saving a booking: path validation runs first, then the pre-save hook. */
  function SaveBooking(existing: set<ObjectId>, eventId: ObjectId, rawEmail: string)
    : (r: Result<Booking, BookingError>)
    ensures r.Success? ==> r.value.eventId == eventId && r.value.eventId in existing
  {
    match ValidateEmail(rawEmail)
    case Failure(e) => Failure(e)
    case Success(email) =>
      match CheckReferencedEvent(existing, eventId)
      case Fail(e) => Failure(e)
      case Pass => Success(Booking(eventId, email))
  }

  /** A booking is saved exactly when its trimmed email is valid and its event exists; a valid
      email for a missing event fails with `EventNotFound`. */
  lemma SaveBookingExactly(existing: set<ObjectId>, eventId: ObjectId, rawEmail: string)
    ensures var r := SaveBooking(existing, eventId, rawEmail);
      && (r.Success? <==> EmailRegexTest(Trim(rawEmail)) && eventId in existing)
      && (r.Success? ==> r.value == Booking(eventId, Trim(rawEmail)))
      && (EmailRegexTest(Trim(rawEmail)) && eventId !in existing ==> r == Failure(EventNotFound(eventId)))
      && (!EmailRegexTest(Trim(rawEmail)) ==> r == Failure(InvalidEmail(Trim(rawEmail))))
  {
  }

  /** Every stored booking references an existing event. */
  predicate ReferencesExisting(existing: set<ObjectId>, bookings: seq<Booking>) {
    forall k :: 0 <= k < |bookings| ==> bookings[k].eventId in existing
  }

  /** Storing only what `SaveBooking` accepts keeps every booking's event reference valid, and
      every stored email has the email shape. */
  lemma SaveKeepsReferences(existing: set<ObjectId>, bookings: seq<Booking>, eventId: ObjectId, rawEmail: string)
    requires ReferencesExisting(existing, bookings)
    requires SaveBooking(existing, eventId, rawEmail).Success?
    ensures var b := SaveBooking(existing, eventId, rawEmail).value;
      ReferencesExisting(existing, bookings + [b]) && EmailShape(b.email)
  {
    var b := SaveBooking(existing, eventId, rawEmail).value;
    RegexGivesShape(b.email);
    AppendKeepsReferences(existing, bookings, b);
  }

  lemma AppendKeepsReferences(existing: set<ObjectId>, bookings: seq<Booking>, b: Booking)
    requires ReferencesExisting(existing, bookings) && b.eventId in existing
    ensures ReferencesExisting(existing, bookings + [b])
  {
    assert forall k :: 0 <= k < |bookings| ==> (bookings + [b])[k] == bookings[k];
  }
}
