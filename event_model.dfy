/** The event document of database/event.model.ts and its pre-save hook. The hook
    works on the document in place: it regenerates `slug` when `title` changed and
    re-normalises `date` and `time` when they changed or are empty, and a throw from
    either normaliser aborts the save with the assignments made so far still on the
    document. `PreSave` states that behaviour on values; the `EventDocument` class
    carries it out on fields and is proved to agree with it. */
module EventModel {
  import opened Wrappers
  import opened EventSlug
  import opened EventTime
  import opened EventDate

  /** The document paths `isModified` can be asked about. */
  datatype Path =
    | Title | Slug | Description | Overview | Image | Venue | Location
    | Date | Time | Mode | Audience | Agenda | Organizer | Tags

  /** The stored fields of an event (`EventAttrs`). */
  datatype EventAttrs = EventAttrs(
    title: string, slug: string, description: string, overview: string,
    image: string, venue: string, location: string, date: string, time: string,
    mode: string, audience: string, agenda: seq<string>, organizer: string,
    tags: seq<string>)

  /** Why the hook aborts the save: the error one of the two normalisers throws. */
  datatype HookError = BadDate(dateError: DateError) | BadTime(timeError: TimeError)

  /** `!value` for a string field: only the empty string is falsy. */
  predicate IsEmpty(s: string) {
    s == []
  }

  /** The three helpers the hook calls. They are a parameter so that the hook's control flow
      is stated apart from them; `Standard` supplies the ones of database/event.model.ts. */
  datatype Normalisers = Normalisers(
    slugOf: string -> string,
    dateOf: string -> Result<string, DateError>,
    timeOf: string -> Result<string, TimeError>)

  /** `generateSlug`, `normalizeDateToISO` over the date renderer, and `normalizeTimeToHHMM`. */
  function Standard(render: string -> Option<string>): Normalisers {
    Normalisers(GenerateSlug, s => NormalizeDateToISO(render, s), NormalizeTimeToHHMM)
  }

  /** The hook on values: the outcome and the fields it leaves on the document. Only `slug`,
      `date` and `time` can change, and a failed normalisation still leaves the earlier
      assignments in place. */
  function PreSave(a: EventAttrs, modified: set<Path>, n: Normalisers)
    : (r: (Outcome<HookError>, EventAttrs))
    ensures r.1 == a.(slug := r.1.slug, date := r.1.date, time := r.1.time)
  {
    var a1 := SlugStep(a, modified, n);
    match DateStep(a1, modified, n)
    case Failure(e) => (Fail(e), a1)
    case Success(a2) => TimeStep(a2, modified, n)
  }

  /** `if (this.isModified('title')) this.slug = generateSlug(this.title)`. */
  function SlugStep(a: EventAttrs, modified: set<Path>, n: Normalisers): (r: EventAttrs)
    ensures r == a.(slug := r.slug)
  {
    if Title in modified then a.(slug := n.slugOf(a.title)) else a
  }

  /** `if (this.isModified('date') || !this.date) this.date = normalizeDateToISO(this.date)`. */
  function DateStep(a: EventAttrs, modified: set<Path>, n: Normalisers)
    : (r: Result<EventAttrs, HookError>)
    ensures r.Success? ==> r.value == a.(date := r.value.date)
  {
    if Date in modified || IsEmpty(a.date) then
      match n.dateOf(a.date)
      case Failure(e) => Failure(BadDate(e))
      case Success(d) => Success(a.(date := d))
    else Success(a)
  }

  /** `if (this.isModified('time') || !this.time) this.time = normalizeTimeToHHMM(this.time)`. */
  function TimeStep(a: EventAttrs, modified: set<Path>, n: Normalisers): (r: (Outcome<HookError>, EventAttrs))
    ensures r.1 == a.(time := r.1.time)
  {
    if Time in modified || IsEmpty(a.time) then
      match n.timeOf(a.time)
      case Failure(e) => (Fail(BadTime(e)), a)
      case Success(t) => (Pass, a.(time := t))
    else (Pass, a)
  }

  // ---------------------------------------------------------------- properties of the hook

  /** The slug is regenerated from the title exactly when the title was modified, and is then a
      well-formed slug; otherwise it is kept, whatever happens to date and time. */
  lemma SlugFollowsTitle(a: EventAttrs, modified: set<Path>, render: string -> Option<string>)
    ensures var b := PreSave(a, modified, Standard(render)).1;
      && (Title in modified ==> b.slug == GenerateSlug(a.title) && IsSlug(b.slug))
      && (Title !in modified ==> b.slug == a.slug)
  {
    var a1 := SlugStep(a, modified, Standard(render));
    assert PreSave(a, modified, Standard(render)).1.slug == a1.slug;
    if Title in modified {
      GenerateSlugIsSlug(a.title);
    }
  }

  /** The date is left alone unless it was modified or is empty; then it becomes the normalised
      date, or the save fails with the date error, leaving date and time as they were. */
  lemma DateNormalisedWhenNeeded(a: EventAttrs, modified: set<Path>, render: string -> Option<string>)
    ensures var (outcome, b) := PreSave(a, modified, Standard(render));
      && (!(Date in modified || IsEmpty(a.date)) ==> b.date == a.date)
      && ((Date in modified || IsEmpty(a.date)) ==>
            match NormalizeDateToISO(render, a.date)
            case Failure(e) => outcome == Fail(BadDate(e)) && b.time == a.time && b.date == a.date
            case Success(d) => b.date == d)
  {
    var a1 := SlugStep(a, modified, Standard(render));
    assert a1.date == a.date && a1.time == a.time;
  }

  /** An empty date never passes: the save fails with the date error whether or not the date
      was touched. */
  lemma EmptyDateFails(a: EventAttrs, modified: set<Path>, render: string -> Option<string>)
    requires IsEmpty(a.date) && render(a.date).None?
    ensures PreSave(a, modified, Standard(render)).0 == Fail(BadDate(InvalidDate(a.date)))
  {
    var a1 := SlugStep(a, modified, Standard(render));
    assert a1.date == a.date;
  }

  /** Once the date step has passed, the time is left alone unless it was modified or is empty;
      then it becomes the normalised time, or the save fails with the time error. */
  lemma TimeNormalisedWhenNeeded(a: EventAttrs, modified: set<Path>, render: string -> Option<string>)
    requires (Date in modified || IsEmpty(a.date)) ==> render(a.date).Some?
    ensures var (outcome, b) := PreSave(a, modified, Standard(render));
      && (!(Time in modified || IsEmpty(a.time)) ==> b.time == a.time && outcome == Pass)
      && ((Time in modified || IsEmpty(a.time)) ==>
            match NormalizeTimeToHHMM(a.time)
            case Failure(e) => outcome == Fail(BadTime(e)) && b.time == a.time
            case Success(t) => outcome == Pass && b.time == t)
  {
    var a1 := SlugStep(a, modified, Standard(render));
    var a2 := DateStep(a1, modified, Standard(render));
    assert a2.Success? && a2.value.time == a.time;
    assert PreSave(a, modified, Standard(render)) == TimeStep(a2.value, modified, Standard(render));
  }

  /** The save passes exactly when every normaliser that runs succeeds. */
  lemma PassesExactly(a: EventAttrs, modified: set<Path>, render: string -> Option<string>)
    ensures PreSave(a, modified, Standard(render)).0 == Pass <==>
      && ((Date in modified || IsEmpty(a.date)) ==> render(a.date).Some?)
      && ((Time in modified || IsEmpty(a.time)) ==> NormalizeTimeToHHMM(a.time).Success?)
  {
    var a1 := SlugStep(a, modified, Standard(render));
    var a2 := DateStep(a1, modified, Standard(render));
    assert a1.date == a.date && a1.time == a.time;
    if a2.Success? {
      assert a2.value.time == a.time;
    }
  }

  /** Nothing modified and nothing empty: the hook changes nothing and passes. */
  lemma UntouchedDocumentPasses(a: EventAttrs, render: string -> Option<string>)
    requires !IsEmpty(a.date) && !IsEmpty(a.time)
    ensures PreSave(a, {}, Standard(render)) == (Pass, a)
  {
    assert SlugStep(a, {}, Standard(render)) == a;
    assert DateStep(a, {}, Standard(render)) == Success(a);
  }

  // ---------------------------------------------------------------- the document

  /** A Mongoose event document: the stored fields, updated in place, and the paths changed
      since it was loaded. */
  class EventDocument {
    var title: string
    var slug: string
    var description: string
    var overview: string
    var image: string
    var venue: string
    var location: string
    var date: string
    var time: string
    var mode: string
    var audience: string
    var agenda: seq<string>
    var organizer: string
    var tags: seq<string>
    var modifiedPaths: set<Path>

    constructor (attrs: EventAttrs, modified: set<Path>)
      ensures Attrs() == attrs && modifiedPaths == modified
    {
      title, slug, description, overview := attrs.title, attrs.slug, attrs.description, attrs.overview;
      image, venue, location := attrs.image, attrs.venue, attrs.location;
      date, time, mode, audience := attrs.date, attrs.time, attrs.mode, attrs.audience;
      agenda, organizer, tags := attrs.agenda, attrs.organizer, attrs.tags;
      modifiedPaths := modified;
    }

    function Attrs(): EventAttrs
      reads this
    {
      EventAttrs(title, slug, description, overview, image, venue, location, date, time,
                 mode, audience, agenda, organizer, tags)
    }

    /** `isModified(path)`. */
    predicate IsModified(p: Path)
      reads this
    {
      p in modifiedPaths
    }

    /** The pre-save hook: assigns `slug`, `date` and `time` in place and reports whether the
        save may go on. */
    method PreSaveHook(n: Normalisers) returns (outcome: Outcome<HookError>)
      modifies this`slug, this`date, this`time
      ensures (outcome, Attrs()) == PreSave(old(Attrs()), modifiedPaths, n)
    {
      ghost var a0 := Attrs();
      if IsModified(Title) {
        slug := n.slugOf(title);
      }
      ghost var a1 := Attrs();
      assert a1 == SlugStep(a0, modifiedPaths, n);

      if IsModified(Date) || IsEmpty(date) {
        var d := n.dateOf(date);
        if d.Failure? {
          return Fail(BadDate(d.error));
        }
        date := d.value;
      }
      ghost var a2 := Attrs();
      assert DateStep(a1, modifiedPaths, n) == Success(a2);

      if IsModified(Time) || IsEmpty(time) {
        var t := n.timeOf(time);
        if t.Failure? {
          return Fail(BadTime(t.error));
        }
        time := t.value;
      }
      return Pass;
    }
  }
}
