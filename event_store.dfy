/**
 * The event repository. The event collection is the sequence of stored
 * records in insertion order; the unique (sessionId, eventId) index is the
 * invariant `UniqueKeys`. Insertion is idempotent per key, and reads are
 * filter, sort newest-first, skip and limit, and counts.
 */
module EventStore {
  import opened Wrappers
  import opened EventSchema

  /** An add-event request; the timestamp is absent when not supplied. */
  datatype CreateEvent = CreateEvent(
    eventId: string,
    eventType: EventType,
    payload: Payload,
    timestamp: Option<int>)

  /** The collection after an insert attempt, with the record returned. */
  datatype Added = Added(records: seq<Event>, event: Event)

  /** One page of a session's events, with the session's total event count. */
  datatype EventPage = EventPage(events: seq<Event>, total: nat)

  /** `findOne({sessionId, eventId})`: the first stored record with the key, if any. */
  function FindOne(records: seq<Event>, key: EventKey): (r: Option<Event>)
    ensures r.None? <==> forall i :: 0 <= i < |records| ==> records[i].Key() != key
    ensures r.Some? ==> r.value in records && r.value.Key() == key
  {
    if records == [] then None
    else if records[0].Key() == key then Some(records[0])
    else FindOne(records[1..], key)
  }

  /** Under the unique index, the record found for a key is the one at any index holding that key. */
  lemma {:induction false} FindOneUnique(records: seq<Event>, i: int)
    requires UniqueKeys(records) && 0 <= i < |records|
    ensures FindOne(records, records[i].Key()) == Some(records[i])
  {
    if i > 0 {
      assert records[0].Key() != records[i].Key();
      assert UniqueKeys(records[1..]) by {
        forall a, b | 0 <= a < b < |records| - 1
          ensures records[1..][a].Key() != records[1..][b].Key()
        {
          assert records[1..][a] == records[a + 1] && records[1..][b] == records[b + 1];
        }
      }
      FindOneUnique(records[1..], i - 1);
    }
  }

  /** `find({sessionId})` before sorting: the session's records in insertion order. */
  function SessionFilter(records: seq<Event>, sessionId: string): (r: seq<Event>)
    ensures |r| <= |records|
    ensures forall e :: e in r <==> e in records && e.sessionId == sessionId
  {
    if records == [] then []
    else if records[0].sessionId == sessionId then [records[0]] + SessionFilter(records[1..], sessionId)
    else SessionFilter(records[1..], sessionId)
  }

  /**
   * The filter keeps every stored record of the session as many times as it
   * is stored, and nothing else.
   */
  lemma {:induction false} SessionFilterCounts(records: seq<Event>, sessionId: string)
    ensures forall e :: multiset(SessionFilter(records, sessionId))[e]
                     == if e.sessionId == sessionId then multiset(records)[e] else 0
  {
    if records != [] {
      SessionFilterCounts(records[1..], sessionId);
      assert records == [records[0]] + records[1..];
    }
  }

  /** `countDocuments({sessionId})`: the number of stored records of the session. */
  function CountEventsBySessionId(records: seq<Event>, sessionId: string): (n: nat)
    ensures n == |SessionFilter(records, sessionId)|
  {
    if records == [] then 0
    else (if records[0].sessionId == sessionId then 1 else 0) + CountEventsBySessionId(records[1..], sessionId)
  }

  /** `countDocuments({sessionId, eventId})`: the number of stored records with the key. */
  function CountByKey(records: seq<Event>, key: EventKey): (n: nat)
    ensures n > 0 <==> exists i :: 0 <= i < |records| && records[i].Key() == key
    ensures UniqueKeys(records) ==> n <= 1
  {
    if records == [] then 0
    else
      assert UniqueKeys(records) ==> UniqueKeys(records[1..]) by {
        if UniqueKeys(records) {
          forall a, b | 0 <= a < b < |records| - 1
            ensures records[1..][a].Key() != records[1..][b].Key()
          {
            assert records[1..][a] == records[a + 1] && records[1..][b] == records[b + 1];
          }
        }
      }
      (if records[0].Key() == key then 1 else 0) + CountByKey(records[1..], key)
  }

  /** `eventExists`: true exactly when a record with that (sessionId, eventId) is stored. */
  function EventExists(records: seq<Event>, sessionId: string, eventId: string): (b: bool)
    ensures b <==> exists e :: e in records && e.sessionId == sessionId && e.eventId == eventId
  {
    CountByKey(records, EventKey(sessionId, eventId)) > 0
  }

  /** Events in non-increasing timestamp order (newest first). */
  ghost predicate NewestFirst(s: seq<Event>) {
    forall i, j :: 0 <= i < j < |s| ==> s[i].timestamp >= s[j].timestamp
  }

  /** No two distinct events in `s` share a timestamp. */
  ghost predicate TimestampsDistinct(s: seq<Event>) {
    forall x, y :: x in s && y in s && x.timestamp == y.timestamp ==> x == y
  }

  /**
   * Without ties, a newest-first order is unique: two newest-first
   * arrangements of the same events are the same sequence.
   */
  lemma {:induction false} NewestFirstUnique(a: seq<Event>, b: seq<Event>)
    requires NewestFirst(a) && NewestFirst(b) && multiset(a) == multiset(b)
    requires TimestampsDistinct(a)
    ensures a == b
    decreases |a|
  {
    assert |a| == |multiset(a)| == |multiset(b)| == |b|;
    if a != [] {
      HeadsAgree(a, b);
      assert a == [a[0]] + a[1..] && b == [b[0]] + b[1..];
      assert multiset(a) == multiset{a[0]} + multiset(a[1..]);
      assert multiset(b) == multiset{b[0]} + multiset(b[1..]);
      assert multiset(a[1..]) == multiset(a) - multiset{a[0]};
      assert multiset(b[1..]) == multiset(b) - multiset{b[0]};
      TailNewestFirst(a);
      TailNewestFirst(b);
      assert TimestampsDistinct(a[1..]) by {
        assert forall x :: x in a[1..] ==> x in a;
      }
      NewestFirstUnique(a[1..], b[1..]);
    }
  }

  /** Two newest-first arrangements of the same events, without ties, start with the same event. */
  lemma HeadsAgree(a: seq<Event>, b: seq<Event>)
    requires NewestFirst(a) && NewestFirst(b) && multiset(a) == multiset(b)
    requires TimestampsDistinct(a) && a != [] && b != []
    ensures a[0] == b[0]
  {
    assert b[0] in multiset(a) && a[0] in multiset(b);
    var i :| 0 <= i < |a| && a[i] == b[0];
    var j :| 0 <= j < |b| && b[j] == a[0];
    assert a[0].timestamp >= a[i].timestamp && b[0].timestamp >= b[j].timestamp;
  }

  /** Dropping the head keeps a sequence newest first. */
  lemma TailNewestFirst(a: seq<Event>)
    requires NewestFirst(a) && a != []
    ensures NewestFirst(a[1..])
  {
    forall p, q | 0 <= p < q < |a| - 1 ensures a[1..][p].timestamp >= a[1..][q].timestamp {
      assert a[1..][p] == a[p + 1] && a[1..][q] == a[q + 1];
    }
  }

  /**
   * When no two of the session's events share a timestamp, every newest-first
   * ordering of them is `Timeline`, so the order the store picks does not matter.
   */
  lemma TimelineUnique(records: seq<Event>, sessionId: string, order: seq<Event>)
    requires TimestampsDistinct(SessionFilter(records, sessionId))
    requires NewestFirst(order) && multiset(order) == multiset(SessionFilter(records, sessionId))
    ensures order == Timeline(records, sessionId)
  {
    var t := Timeline(records, sessionId);
    TimelineIsPermutation(records, sessionId);
    assert TimestampsDistinct(order) by {
      forall x, y | x in order && y in order && x.timestamp == y.timestamp ensures x == y {
        assert x in multiset(SessionFilter(records, sessionId)) && y in multiset(SessionFilter(records, sessionId));
      }
    }
    NewestFirstUnique(order, t);
  }

  /** Places `e` into a newest-first sequence, ahead of any event with an equal timestamp. */
  function InsertByTimestamp(e: Event, s: seq<Event>): (r: seq<Event>)
    requires NewestFirst(s)
    ensures NewestFirst(r)
    ensures multiset(r) == multiset(s) + multiset{e}
    ensures forall x :: x in r ==> x == e || x in s
  {
    if s == [] || e.timestamp >= s[0].timestamp then
      PrependNewestFirst(e, s);
      [e] + s
    else
      var rest := InsertByTimestamp(e, s[1..]);
      assert s == [s[0]] + s[1..];
      HeadIsNewest(s);
      PrependNewestFirst(s[0], rest);
      [s[0]] + rest
  }

  /** The head of a newest-first sequence is no older than anything after it. */
  lemma HeadIsNewest(s: seq<Event>)
    requires NewestFirst(s) && s != []
    ensures forall x :: x in s[1..] ==> x.timestamp <= s[0].timestamp
  {
    forall x | x in s[1..] ensures x.timestamp <= s[0].timestamp {
      var k :| 0 <= k < |s[1..]| && s[1..][k] == x;
      assert s[k + 1] == x;
    }
  }

  /** An event no older than everything in a newest-first sequence may lead it. */
  lemma PrependNewestFirst(x: Event, s: seq<Event>)
    requires NewestFirst(s)
    requires forall y :: y in s ==> y.timestamp <= x.timestamp
    ensures NewestFirst([x] + s)
  {
    forall i, j | 0 <= i < j < |[x] + s|
      ensures ([x] + s)[i].timestamp >= ([x] + s)[j].timestamp
    {
      assert ([x] + s)[j] == s[j - 1];
      if i > 0 {
        assert ([x] + s)[i] == s[i - 1];
      } else {
        assert s[j - 1] in s;
      }
    }
  }

  /**
   * `sort({timestamp: -1})`: a permutation of the input, newest first. The
   * store promises no order among equal timestamps; this model happens to
   * keep them in insertion order.
   */
  function SortNewestFirst(s: seq<Event>): (r: seq<Event>)
    ensures NewestFirst(r)
    ensures multiset(r) == multiset(s)
    ensures |r| == |s|
  {
    if s == [] then []
    else
      assert s == [s[0]] + s[1..];
      InsertByTimestamp(s[0], SortNewestFirst(s[1..]))
  }

  /** The whole timeline of a session, newest first. */
  function Timeline(records: seq<Event>, sessionId: string): (t: seq<Event>)
    ensures NewestFirst(t)
    ensures |t| == CountEventsBySessionId(records, sessionId)
    ensures forall e :: e in t <==> e in records && e.sessionId == sessionId
  {
    var t := SortNewestFirst(SessionFilter(records, sessionId));
    assert forall e :: e in t <==> e in multiset(SessionFilter(records, sessionId));
    t
  }

  /** The timeline holds each of the session's stored records exactly as often as the collection does. */
  lemma TimelineIsPermutation(records: seq<Event>, sessionId: string)
    ensures multiset(Timeline(records, sessionId)) == multiset(SessionFilter(records, sessionId))
  {
  }

  function Min(a: int, b: int): int {
    if a <= b then a else b
  }

  /**
   * `skip(skip).limit(limit)` for a positive limit: at most `limit`
   * consecutive elements starting at index `skip` (a limit of 0 would mean
   * "no limit" to the store, so it is excluded).
   */
  function Window<T>(s: seq<T>, skip: nat, limit: nat): (r: seq<T>)
    requires limit >= 1
    ensures |r| == if skip >= |s| then 0 else Min(limit, |s| - skip)
    ensures forall i :: 0 <= i < |r| ==> r[i] == s[skip + i]
  {
    if skip >= |s| then []
    else if skip + limit <= |s| then s[skip..skip + limit]
    else s[skip..]
  }

  /**
   * `findEventsBySessionId`: the page `page` (from 1) of `limit` events of
   * the session, newest first, with the session's total event count.
   */
  function FindEventsBySessionId(records: seq<Event>, sessionId: string, page: int := 1, limit: int := 20): (r: EventPage)
    requires page >= 1 && limit >= 1
    ensures r.total == CountEventsBySessionId(records, sessionId)
    ensures |r.events| <= limit
    ensures |r.events| == if Offset(page, limit) >= r.total then 0 else Min(limit, r.total - Offset(page, limit))
    ensures forall i :: 0 <= i < |r.events| ==> r.events[i] == Timeline(records, sessionId)[Offset(page, limit) + i]
    ensures forall e :: e in r.events ==> e in records && e.sessionId == sessionId
    ensures NewestFirst(r.events)
  {
    var skip := Offset(page, limit);
    var t := Timeline(records, sessionId);
    var events := Window(t, skip, limit);
    WindowNewestFirst(t, skip, events);
    EventPage(events, CountEventsBySessionId(records, sessionId))
  }

  /** The page (from 1) on which position `i` of a timeline falls, in pages of `limit`. */
  function PageOf(i: nat, limit: int): (page: int)
    requires limit >= 1
    ensures page >= 1
    ensures Offset(page, limit) <= i < Offset(page, limit) + limit
  {
    var q := i / limit;
    assert i == q * limit + i % limit;
    assert Offset(q + 1, limit) == q * limit;
    q + 1
  }

  /**
   * Offset pagination covers the timeline: the event at position `i` of
   * the session's newest-first timeline is on page `PageOf(i, limit)`, at
   * position `i - Offset(PageOf(i, limit), limit)` within it. The store
   * orders ties arbitrarily from query to query, so this holds only when no
   * two of the session's events share a timestamp: then `order`, any
   * newest-first arrangement of the session's events, is the timeline.
   */
  lemma EveryEventOnItsPage(records: seq<Event>, sessionId: string, order: seq<Event>, limit: int, i: int)
    requires TimestampsDistinct(SessionFilter(records, sessionId))
    requires NewestFirst(order) && multiset(order) == multiset(SessionFilter(records, sessionId))
    requires limit >= 1 && 0 <= i < CountEventsBySessionId(records, sessionId)
    ensures var page := PageOf(i, limit);
      var p := FindEventsBySessionId(records, sessionId, page, limit);
      var k := i - Offset(page, limit);
      0 <= k < |p.events| && p.events[k] == order[i]
  {
    TimelineUnique(records, sessionId, order);
    PageHoldsTimelineEntry(records, sessionId, limit, i);
  }

  /** Position `i` of the model's timeline is on page `PageOf(i, limit)`. */
  lemma PageHoldsTimelineEntry(records: seq<Event>, sessionId: string, limit: int, i: int)
    requires limit >= 1 && 0 <= i < CountEventsBySessionId(records, sessionId)
    ensures var page := PageOf(i, limit);
      var p := FindEventsBySessionId(records, sessionId, page, limit);
      var k := i - Offset(page, limit);
      0 <= k < |p.events| && p.events[k] == Timeline(records, sessionId)[i]
  {
    var page := PageOf(i, limit);
    var skip := Offset(page, limit);
    var k := i - skip;
    var p := FindEventsBySessionId(records, sessionId, page, limit);
    assert |p.events| == Min(limit, p.total - skip);
    assert p.events[k] == Timeline(records, sessionId)[skip + k];
  }

  /** A run of consecutive events taken from a newest-first sequence is newest first, and drawn from it. */
  lemma WindowNewestFirst(t: seq<Event>, skip: nat, w: seq<Event>)
    requires NewestFirst(t)
    requires w != [] ==> skip + |w| <= |t|
    requires forall i :: 0 <= i < |w| ==> w[i] == t[skip + i]
    ensures NewestFirst(w)
    ensures forall e :: e in w ==> e in t
  {
    forall e | e in w ensures e in t {
      var k :| 0 <= k < |w| && w[k] == e;
      assert t[skip + k] == e;
    }
    forall i, j | 0 <= i < j < |w| ensures w[i].timestamp >= w[j].timestamp {
      assert w[i] == t[skip + i];
      assert w[j] == t[skip + j];
    }
  }

  /** The number of events skipped before page `page` (pages count from 1). */
  function Offset(page: int, limit: int): (skip: nat)
    requires page >= 1 && limit >= 1
    ensures skip == (page - 1) * limit
  {
    MulNonNegative(page - 1, limit);
    (page - 1) * limit
  }

  lemma MulNonNegative(a: int, b: int)
    requires a >= 0 && b >= 0
    ensures a * b >= 0
  {
  }

  /**
   * `save()` under the unique index: a fresh key stores one new record (the
   * supplied timestamp, else the current time); a duplicate key (error 11000)
   * stores nothing and yields the record already stored for it.
   */
  function Add(records: seq<Event>, sessionId: string, req: CreateEvent, now: int): (r: Added)
    ensures r.event.Key() == EventKey(sessionId, req.eventId)
    ensures FindOne(r.records, r.event.Key()) == Some(r.event)
    ensures FindOne(records, r.event.Key()).Some? ==> r == Added(records, FindOne(records, r.event.Key()).value)
    ensures FindOne(records, r.event.Key()).None? ==>
      && r.records == records + [r.event]
      && r.event == NewEvent(sessionId, req.eventId, req.eventType, req.payload, req.timestamp, now)
    ensures UniqueKeys(records) ==> UniqueKeys(r.records)
  {
    var key := EventKey(sessionId, req.eventId);
    match FindOne(records, key)
    case Some(existing) => Added(records, existing)
    case None =>
      var e := NewEvent(sessionId, req.eventId, req.eventType, req.payload, req.timestamp, now);
      FindOneAppend(records, e, key);
      Added(records + [e], e)
  }

  lemma {:induction false} FindOneAppend(records: seq<Event>, e: Event, key: EventKey)
    requires FindOne(records, key).None? && e.Key() == key
    ensures FindOne(records + [e], key) == Some(e)
  {
    if records != [] {
      assert (records + [e])[1..] == records[1..] + [e];
      FindOneAppend(records[1..], e, key);
    }
  }

  /**
   * Insertion is idempotent: a second add with the same key, whatever type,
   * payload and timestamp it carries, returns the first call's record and
   * stores nothing.
   */
  lemma AddIdempotent(records: seq<Event>, sessionId: string, first: CreateEvent, second: CreateEvent,
                      t1: int, t2: int)
    requires first.eventId == second.eventId
    ensures var a1 := Add(records, sessionId, first, t1);
      Add(a1.records, sessionId, second, t2) == a1
  {
  }

  /** An insert only appends: every record already stored keeps its place and its value. */
  lemma AddOnlyAppends(records: seq<Event>, sessionId: string, req: CreateEvent, now: int)
    ensures var a := Add(records, sessionId, req, now);
      && records <= a.records
      && |a.records| <= |records| + 1
  {
  }

  /** A request to add an event to a session. */
  datatype AddCall = AddCall(sessionId: string, req: CreateEvent, now: int)

  /** The collection after a sequence of `addEvent` calls. */
  function AddAll(records: seq<Event>, calls: seq<AddCall>): seq<Event>
    decreases |calls|
  {
    if calls == [] then records
    else AddAll(Add(records, calls[0].sessionId, calls[0].req, calls[0].now).records, calls[1..])
  }

  /** After any sequence of `addEvent` calls there is at most one record per key. */
  lemma {:induction false} AddAllKeepsKeysUnique(records: seq<Event>, calls: seq<AddCall>)
    requires UniqueKeys(records)
    ensures UniqueKeys(AddAll(records, calls))
    decreases |calls|
  {
    if calls != [] {
      AddAllKeepsKeysUnique(Add(records, calls[0].sessionId, calls[0].req, calls[0].now).records, calls[1..]);
    }
  }

  /** The event collection and its repository operations. */
  class EventRepository {
    var records: seq<Event>

    ghost predicate Valid()
      reads this
    {
      UniqueKeys(records)
    }

    constructor ()
      ensures Valid() && records == []
    {
      records := [];
    }

    /** Idempotent insert; returns the record stored for the key. */
    method AddEvent(sessionId: string, req: CreateEvent, now: int) returns (event: Event)
      requires Valid()
      modifies this
      ensures Valid()
      ensures Added(records, event) == Add(old(records), sessionId, req, now)
    {
      var candidate := NewEvent(sessionId, req.eventId, req.eventType, req.payload, req.timestamp, now);
      // the unique index rejects the save when the key is already stored
      var conflict := FindOne(records, candidate.Key());
      if conflict.None? {
        FindOneAppend(records, candidate, candidate.Key());
        records := records + [candidate];
        event := candidate;
      } else {
        // duplicate key: return the record already stored
        event := conflict.value;
      }
    }
  }
}
