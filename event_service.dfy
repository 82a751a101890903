/**
 * The event service: an event is added only under an existing session
 * (checked first, then delegated to the idempotent insert), and the stored
 * record is returned in the response shape.
 */
module EventCoordinator {
  import opened Wrappers
  import opened Errors
  import opened SessionSchema
  import opened SessionStore
  import opened EventSchema
  import opened EventStore
  import opened SessionCoordinator

  /** The event fields returned to callers. */
  datatype EventView = EventView(
    eventId: string,
    sessionId: string,
    eventType: EventType,
    payload: Payload,
    timestamp: int)

  /** The stored record in the response shape: all five fields. */
  function ToEventView(e: Event): (v: EventView)
    ensures v.eventId == e.eventId && v.sessionId == e.sessionId && v.eventType == e.eventType
    ensures v.payload == e.payload && v.timestamp == e.timestamp
  {
    EventView(e.eventId, e.sessionId, e.eventType, e.payload, e.timestamp)
  }

  /** The event collection after an `addEvent` call, with its response. */
  datatype AddOutcome = AddOutcome(records: seq<Event>, response: Result<EventView, Error>)

  /**
   * `addEvent`: not found, with nothing stored, when the session is absent;
   * otherwise the idempotent insert, answered with the record now stored
   * under (sessionId, eventId).
   */
  function AddEventSpec(sessions: Sessions, records: seq<Event>, sessionId: string, req: CreateEvent,
                        now: int): (r: AddOutcome)
    ensures r.response.Failure? <==> sessionId !in sessions
    ensures sessionId !in sessions ==> r == AddOutcome(records, Failure(NotFound(sessionId)))
    ensures r.response.Success? ==>
      && r.response.value.sessionId == sessionId
      && r.response.value.eventId == req.eventId
      && FindOne(r.records, EventKey(sessionId, req.eventId)).Some?
      && r.response.value == ToEventView(FindOne(r.records, EventKey(sessionId, req.eventId)).value)
    ensures r.response.Success? ==> r.records == Add(records, sessionId, req, now).records
    ensures records <= r.records
    ensures UniqueKeys(records) ==> UniqueKeys(r.records)
  {
    if sessionId !in sessions then AddOutcome(records, Failure(NotFound(sessionId)))
    else
      var a := Add(records, sessionId, req, now);
      AddOutcome(a.records, Success(ToEventView(a.event)))
  }

  /**
   * A duplicate `addEvent` (same session, same eventId, any type, payload
   * and timestamp) returns the first call's response and stores nothing;
   * when the first call inserted, that response carries the first payload.
   */
  lemma DuplicateAddEventReturnsFirst(sessions: Sessions, records: seq<Event>, sessionId: string,
                                      first: CreateEvent, second: CreateEvent, t1: int, t2: int)
    requires first.eventId == second.eventId
    ensures var o1 := AddEventSpec(sessions, records, sessionId, first, t1);
      var o2 := AddEventSpec(sessions, o1.records, sessionId, second, t2);
      && o2 == AddOutcome(o1.records, o1.response)
      && (sessionId in sessions && !EventExists(records, sessionId, first.eventId) ==>
            && o2.response.Success?
            && o2.response.value.payload == first.payload
            && o2.response.value.eventType == first.eventType)
  {
    AddIdempotent(records, sessionId, first, second, t1, t2);
  }

  /** Every stored event belongs to a stored session. */
  ghost predicate EventsReferToSessions(sessions: Sessions, records: seq<Event>) {
    forall i :: 0 <= i < |records| ==> records[i].sessionId in sessions
  }

  /** The session guard keeps every stored event under a stored session. */
  lemma AddEventKeepsReferences(sessions: Sessions, records: seq<Event>, sessionId: string,
                                req: CreateEvent, now: int)
    requires EventsReferToSessions(sessions, records)
    ensures EventsReferToSessions(sessions, AddEventSpec(sessions, records, sessionId, req, now).records)
  {
    var r := AddEventSpec(sessions, records, sessionId, req, now);
    if sessionId in sessions {
      var a := Add(records, sessionId, req, now);
      assert r.records == records || r.records == records + [a.event];
      assert a.event.sessionId == sessionId;
    }
  }

  /** A call into either service that may write a collection. */
  datatype Call = SessionServiceCall(call: SessionCall) | AddEventCall(sessionId: string, req: CreateEvent, now: int)

  /** Both collections together. */
  datatype Stores = Stores(sessions: Sessions, records: seq<Event>)

  function Perform(s: Stores, call: Call): Stores {
    match call
    case SessionServiceCall(c) => Stores(Apply(s.sessions, c), s.records)
    case AddEventCall(id, req, now) => Stores(s.sessions, AddEventSpec(s.sessions, s.records, id, req, now).records)
  }

  /** The two collections after a sequence of service calls. */
  function PerformAll(s: Stores, calls: seq<Call>): Stores
    decreases |calls|
  {
    if calls == [] then s else PerformAll(Perform(s, calls[0]), calls[1..])
  }

  /** The consistency the two services maintain together. */
  ghost predicate Consistent(s: Stores) {
    && UniqueSessionIds(s.sessions)
    && UniqueKeys(s.records)
    && EventsReferToSessions(s.sessions, s.records)
  }

  /**
   * After any sequence of service calls there is one session per id, at
   * most one event per (sessionId, eventId), and no event without its session.
   */
  lemma {:induction false} PerformAllKeepsConsistent(s: Stores, calls: seq<Call>)
    requires Consistent(s)
    ensures Consistent(PerformAll(s, calls))
    decreases |calls|
  {
    if calls != [] {
      var s' := Perform(s, calls[0]);
      match calls[0] {
        case SessionServiceCall(c) =>
          assert s.sessions.Keys <= s'.sessions.Keys;
        case AddEventCall(id, req, now) =>
          AddEventKeepsReferences(s.sessions, s.records, id, req, now);
      }
      PerformAllKeepsConsistent(s', calls[1..]);
    }
  }

  /** The event service over the two repositories. */
  class EventService {
    const eventRepository: EventRepository
    const sessionRepository: SessionRepository

    constructor (eventRepository: EventRepository, sessionRepository: SessionRepository)
      ensures this.eventRepository == eventRepository && this.sessionRepository == sessionRepository
    {
      this.eventRepository := eventRepository;
      this.sessionRepository := sessionRepository;
    }

    /** Session-existence guard, then the idempotent insert, then the response. */
    method AddEvent(sessionId: string, req: CreateEvent, now: int) returns (r: Result<EventView, Error>)
      requires eventRepository.Valid() && sessionRepository.Valid()
      modifies eventRepository
      ensures eventRepository.Valid()
      ensures unchanged(sessionRepository)
      ensures AddOutcome(eventRepository.records, r)
           == AddEventSpec(sessionRepository.sessions, old(eventRepository.records), sessionId, req, now)
    {
      var session := sessionRepository.FindBySessionId(sessionId);
      if session.None? {
        return Failure(NotFound(sessionId));
      }
      var event := eventRepository.AddEvent(sessionId, req, now);
      r := Success(ToEventView(event));
    }
  }
}
