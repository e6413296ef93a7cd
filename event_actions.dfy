/** `getSimilarEventsBySlug` of lib/actions/event.actions.ts: find the event with the
    slug, then every other event (`_id: { $ne }`) that has at least one of its tags
    (`tags: { $in }`). A missing slug gives `[]`, and so does any error from the
    database. The store is the sequence of stored events, or the error reaching it
    raised; the result order is the store order, but nothing here promises it. */
module EventActions {
  import opened Wrappers
  import opened ObjectIds

  /** The fields of a stored event the lookup reads. */
  datatype EventRecord = EventRecord(id: ObjectId, slug: string, tags: seq<string>)

  /** A failed connection or query. */
  datatype DbError = ConnectionFailed | QueryFailed

  /** `Event.findOne({ slug })`: the first stored event with that slug, if any. */
  function FindOneBySlug(events: seq<EventRecord>, slug: string): (r: Option<EventRecord>)
    ensures r.None? <==> forall e :: e in events ==> e.slug != slug
    ensures r.Some? ==> r.value in events && r.value.slug == slug
  {
    if events == [] then None
    else if events[0].slug == slug then Some(events[0])
    else FindOneBySlug(events[1..], slug)
  }

  /** `tags: { $in: source }`: the array field holds at least one of the listed tags. */
  predicate SharesTag(tags: seq<string>, source: seq<string>) {
    exists t :: t in tags && t in source
  }

  /** The query `{ _id: { $ne: source._id }, tags: { $in: source.tags } }`. */
  predicate IsSimilar(e: EventRecord, source: EventRecord) {
    e.id != source.id && SharesTag(e.tags, source.tags)
  }

  /** `Event.find(...)` with that query: the stored events it matches. */
  function FindSimilar(events: seq<EventRecord>, source: EventRecord): (r: seq<EventRecord>)
    ensures forall e :: e in r <==> e in events && IsSimilar(e, source)
    ensures source.tags == [] ==> r == []
  {
    if events == [] then []
    else (if IsSimilar(events[0], source) then [events[0]] else []) + FindSimilar(events[1..], source)
  }

  /** `getSimilarEventsBySlug(currentSlug)`. */
  function GetSimilarEventsBySlug(db: Result<seq<EventRecord>, DbError>, slug: string): (r: seq<EventRecord>)
    ensures db.Failure? ==> r == []
    ensures db.Success? && FindOneBySlug(db.value, slug).None? ==> r == []
    ensures db.Success? && FindOneBySlug(db.value, slug).Some? ==>
      var source := FindOneBySlug(db.value, slug).value;
      forall e :: e in r <==> e in db.value && IsSimilar(e, source)
  {
    match db
    case Failure(_) => []
    case Success(events) =>
      match FindOneBySlug(events, slug)
      case None => []
      case Some(source) => FindSimilar(events, source)
  }

  // ---------------------------------------------------------------- properties

  /** Each matching event is returned as often as it is stored and nothing else is returned:
      the result is the matching part of the store, in some order. */
  lemma {:induction false} FindSimilarCounts(events: seq<EventRecord>, source: EventRecord, e: EventRecord)
    ensures multiset(FindSimilar(events, source))[e]
      == if IsSimilar(e, source) then multiset(events)[e] else 0
  {
    if events != [] {
      FindSimilarCounts(events[1..], source, e);
      assert events == [events[0]] + events[1..];
    }
  }

  /** Ids distinct across the store. */
  predicate DistinctIds(events: seq<EventRecord>) {
    forall i, j :: 0 <= i < j < |events| ==> events[i].id != events[j].id
  }

  /** Slugs distinct across the store, as the unique index on `slug` enforces. */
  predicate DistinctSlugs(events: seq<EventRecord>) {
    forall i, j :: 0 <= i < j < |events| ==> events[i].slug != events[j].slug
  }

  /** The filter keeps distinct ids distinct: no event is returned twice. */
  lemma {:induction false} FindSimilarDistinct(events: seq<EventRecord>, source: EventRecord)
    requires DistinctIds(events)
    ensures DistinctIds(FindSimilar(events, source))
  {
    if events != [] {
      var rest := events[1..];
      assert DistinctIds(rest) by {
        forall i, j | 0 <= i < j < |rest| ensures rest[i].id != rest[j].id {
          assert rest[i] == events[i + 1] && rest[j] == events[j + 1];
        }
      }
      FindSimilarDistinct(rest, source);
      var tail := FindSimilar(rest, source);
      forall k | 0 <= k < |tail| ensures tail[k].id != events[0].id {
        assert tail[k] in rest;
        var m :| 0 <= m < |rest| && rest[m] == tail[k];
        assert rest[m] == events[m + 1];
      }
    }
  }

  /** With unique slugs, the lookup finds exactly the stored event carrying the slug. */
  lemma {:induction false} FindOneUnique(events: seq<EventRecord>, source: EventRecord)
    requires DistinctSlugs(events) && source in events
    ensures FindOneBySlug(events, source.slug) == Some(source)
  {
    if events[0] != source {
      var rest := events[1..];
      assert source in rest;
      assert DistinctSlugs(rest) by {
        forall i, j | 0 <= i < j < |rest| ensures rest[i].slug != rest[j].slug {
          assert rest[i] == events[i + 1] && rest[j] == events[j + 1];
        }
      }
      var m :| 0 <= m < |rest| && rest[m] == source;
      assert events[m + 1] == source;
      assert events[0].slug != source.slug;
      FindOneUnique(rest, source);
    }
  }

  /** The whole rule on a store with unique slugs: the events returned for the slug of a stored
      event are exactly the other events sharing a tag with it; the event itself never
      appears, and an event without tags has no similar events. */
  lemma SimilarToStoredEvent(events: seq<EventRecord>, source: EventRecord)
    requires DistinctSlugs(events) && source in events
    ensures var r := GetSimilarEventsBySlug(Success(events), source.slug);
      && (forall e :: e in r <==> e in events && e.id != source.id && SharesTag(e.tags, source.tags))
      && source !in r
      && (source.tags == [] ==> r == [])
  {
    FindOneUnique(events, source);
  }

  /** Whatever the store, a returned event has a stored id other than the source's and shares a
      tag with it; an error or a missing slug gives nothing. */
  lemma SimilarEventsAreOthers(db: Result<seq<EventRecord>, DbError>, slug: string, e: EventRecord)
    requires e in GetSimilarEventsBySlug(db, slug)
    ensures db.Success? && e in db.value
    ensures var source := FindOneBySlug(db.value, slug);
      source.Some? && source.value.slug == slug
      && e.id != source.value.id && SharesTag(e.tags, source.value.tags)
  {
  }
}
