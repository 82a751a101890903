/**
 * The session service: upsert mapped to the response shape, lookup with a
 * page of the session's events, and idempotent completion guarded by a
 * not-found check and a status check.
 */
module SessionCoordinator {
  import opened Wrappers
  import opened Errors
  import opened SessionSchema
  import opened SessionStore
  import opened EventSchema
  import opened EventStore

  /** The six session fields returned to callers. */
  datatype SessionView = SessionView(
    sessionId: string,
    status: SessionStatus,
    language: string,
    startedAt: int,
    endedAt: Option<int>,
    metadata: Metadata)

  /** An event as listed under its session (the session id is left out). */
  datatype EventSummary = EventSummary(eventId: string, eventType: EventType, payload: Payload, timestamp: int)

  datatype Pagination = Pagination(total: nat, page: int, limit: int, totalPages: nat)

  /** A session with one page of its events. */
  datatype SessionDetail = SessionDetail(session: SessionView, events: seq<EventSummary>, pagination: Pagination)

  /** `mapToResponseDto`: copies the six stored fields. */
  function MapToResponseDto(s: Session): (v: SessionView)
    ensures v.sessionId == s.sessionId && v.status == s.status && v.language == s.language
    ensures v.startedAt == s.startedAt && v.endedAt == s.endedAt && v.metadata == s.metadata
  {
    SessionView(s.sessionId, s.status, s.language, s.startedAt, s.endedAt, s.metadata)
  }

  /** The response shape loses nothing: distinct records give distinct responses. */
  lemma MapToResponseDtoLossless(a: Session, b: Session)
    ensures MapToResponseDto(a) == MapToResponseDto(b) ==> a == b
  {
  }

  /** An event as listed under its session: every field but `sessionId`. */
  function Summarize(e: Event): (v: EventSummary)
    ensures v.eventId == e.eventId && v.eventType == e.eventType
    ensures v.payload == e.payload && v.timestamp == e.timestamp
  {
    EventSummary(e.eventId, e.eventType, e.payload, e.timestamp)
  }

  /** `Math.ceil(total / limit)`: the fewest pages of `limit` events that hold `total` events. */
  function CeilDiv(total: nat, limit: int): (pages: nat)
    requires limit >= 1
    ensures pages * limit >= total
    ensures (pages - 1) * limit < total
  {
    var q := (total + limit - 1) / limit;
    assert total + limit - 1 == q * limit + (total + limit - 1) % limit;
    q
  }

  /** Twenty-five events in pages of ten make three pages. */
  lemma CeilDivExample()
    ensures CeilDiv(25, 10) == 3
  {
  }

  lemma MulMonotone(a: int, b: int, c: int)
    requires a <= b && c >= 0
    ensures a * c <= b * c
  {
  }

  /**
   * `totalPages` is exact: a page holds events exactly when its number is
   * at most `totalPages`.
   */
  lemma PageNonEmptyIffWithinTotalPages(records: seq<Event>, id: string, page: int, limit: int)
    requires page >= 1 && limit >= 1
    ensures var total := CountEventsBySessionId(records, id);
      FindEventsBySessionId(records, id, page, limit).events != [] <==> page <= CeilDiv(total, limit)
  {
    var total := CountEventsBySessionId(records, id);
    assert FindEventsBySessionId(records, id, page, limit).events != [] <==> Offset(page, limit) < total;
    PageStartsBeforeTotal(total, page, limit);
  }

  /** Page `page` starts before the last event exactly when `page <= totalPages`. */
  lemma PageStartsBeforeTotal(total: nat, page: int, limit: int)
    requires page >= 1 && limit >= 1
    ensures Offset(page, limit) < total <==> page <= CeilDiv(total, limit)
  {
    var q := CeilDiv(total, limit);
    if page <= q {
      MulMonotone(page - 1, q - 1, limit);
    } else {
      MulMonotone(q, page - 1, limit);
    }
  }

  /**
   * `completeSession`: not found when absent; an already completed session
   * is returned as stored with no write, so `endedAt` is never re-stamped;
   * any other session is completed at `now`.
   */
  function CompleteSessionSpec(m: Sessions, id: string, now: int): (r: Step<Result<SessionView, Error>>)
    ensures OthersUnchanged(m, r.sessions, id) && r.sessions.Keys == m.Keys
    ensures id !in m ==> r == Step(m, Failure(NotFound(id)))
    ensures id in m && m[id].status == Completed ==> r == Step(m, Success(MapToResponseDto(m[id])))
    ensures id in m && m[id].status != Completed ==>
      && r.sessions[id] == m[id].(status := Completed, endedAt := Some(now))
      && r.out == Success(MapToResponseDto(r.sessions[id]))
    ensures r.out.Success? ==> r.out.value.status == Completed
    ensures UniqueSessionIds(m) && r.out.Success? ==> r.out.value.sessionId == id
    ensures UniqueSessionIds(m) ==> UniqueSessionIds(r.sessions)
  {
    if id !in m then Step(m, Failure(NotFound(id)))
    else if m[id].status == Completed then Step(m, Success(MapToResponseDto(m[id])))
    else
      var c := Complete(m, id, now);
      Step(c.sessions, Success(MapToResponseDto(c.sessions[id])))
  }

  /**
   * Completion is idempotent: a second call, at any later time, returns the
   * first call's response (the same `endedAt`) and writes nothing.
   */
  lemma CompleteSessionIdempotent(m: Sessions, id: string, t1: int, t2: int)
    ensures var first := CompleteSessionSpec(m, id, t1);
      CompleteSessionSpec(first.sessions, id, t2) == first
  {
    var first := CompleteSessionSpec(m, id, t1);
    if id in m && m[id].status != Completed {
      assert first.sessions[id].status == Completed;
    }
  }

  /** The first completion of a session that was not completed stamps `endedAt` with its time. */
  lemma CompleteSessionStampsEndedAt(m: Sessions, id: string, t1: int, t2: int)
    requires id in m && m[id].status != Completed
    ensures var first := CompleteSessionSpec(m, id, t1);
      var second := CompleteSessionSpec(first.sessions, id, t2);
      second.out.Success? && second.out.value.endedAt == Some(t1)
  {
  }

  /** A call the session service accepts that may write the session collection. */
  datatype SessionCall = UpsertCall(req: CreateSession, now: int) | CompleteCall(sessionId: string, now: int)

  function Apply(m: Sessions, call: SessionCall): (m': Sessions)
    ensures UniqueSessionIds(m) ==> UniqueSessionIds(m')
    ensures m.Keys <= m'.Keys
  {
    match call
    case UpsertCall(req, now) => Upsert(m, req, now).sessions
    case CompleteCall(id, now) => CompleteSessionSpec(m, id, now).sessions
  }

  /** The session collection after a sequence of service calls. */
  function Run(m: Sessions, calls: seq<SessionCall>): Sessions
    decreases |calls|
  {
    if calls == [] then m else Run(Apply(m, calls[0]), calls[1..])
  }

  /** Through the services, a session is stamped `endedAt` only by being completed. */
  ghost predicate EndedOnlyWhenCompleted(m: Sessions) {
    forall k :: k in m && m[k].endedAt.Some? ==> m[k].status == Completed
  }

  lemma {:induction false} RunKeepsEndedOnlyWhenCompleted(m: Sessions, calls: seq<SessionCall>)
    requires EndedOnlyWhenCompleted(m)
    ensures EndedOnlyWhenCompleted(Run(m, calls))
    decreases |calls|
  {
    if calls != [] {
      var m' := Apply(m, calls[0]);
      assert EndedOnlyWhenCompleted(m') by {
        forall k | k in m' && m'[k].endedAt.Some? ensures m'[k].status == Completed {
          assert k in m ==> m'[k] == m[k] || m'[k].status == Completed;
        }
      }
      RunKeepsEndedOnlyWhenCompleted(m', calls[1..]);
    }
  }

  /**
   * Once a session is completed, no sequence of service calls changes its
   * record again: in particular its `endedAt` keeps the value it had.
   */
  lemma {:induction false} CompletedSessionsStayFrozen(m: Sessions, calls: seq<SessionCall>, id: string)
    requires id in m && m[id].status == Completed
    ensures id in Run(m, calls) && Run(m, calls)[id] == m[id]
    decreases |calls|
  {
    if calls != [] {
      var m' := Apply(m, calls[0]);
      assert id in m' && m'[id] == m[id];
      CompletedSessionsStayFrozen(m', calls[1..], id);
    }
  }

  /**
   * An upsert may supply `completed` as the initial status: the session is
   * then completed with no `endedAt`, and completion never stamps one.
   */
  lemma CompletedAtCreationHasNoEndedAt(language: string, id: string, t1: int, t2: int)
    ensures var created := Upsert(map[], CreateSession(id, Some(Completed), language, None), t1);
      var completed := CompleteSessionSpec(created.sessions, id, t2);
      && created.out.status == Completed && created.out.endedAt == None
      && completed.out == Success(MapToResponseDto(created.out))
  {
  }

  /** The session service over the two repositories. */
  class SessionService {
    const sessionRepository: SessionRepository
    const eventRepository: EventRepository

    constructor (sessionRepository: SessionRepository, eventRepository: EventRepository)
      ensures this.sessionRepository == sessionRepository && this.eventRepository == eventRepository
    {
      this.sessionRepository := sessionRepository;
      this.eventRepository := eventRepository;
    }

    /** Create-or-fetch, returning the stored record's six fields. */
    method UpsertSession(req: CreateSession, now: int) returns (view: SessionView)
      requires sessionRepository.Valid()
      modifies sessionRepository
      ensures sessionRepository.Valid()
      ensures var u := Upsert(old(sessionRepository.sessions), req, now);
        sessionRepository.sessions == u.sessions && view == MapToResponseDto(u.out)
    {
      var session := sessionRepository.UpsertSession(req, now);
      view := MapToResponseDto(session);
    }

    /**
     * `getSessionById`: not found when absent; otherwise the session, page
     * `page` of its events newest first, and the pagination block.
     */
    method GetSessionById(id: string, page: int := 1, limit: int := 20) returns (r: Result<SessionDetail, Error>)
      requires sessionRepository.Valid()
      requires page >= 1 && limit >= 1
      ensures r.Failure? <==> id !in sessionRepository.sessions
      ensures r.Failure? ==> r.error == NotFound(id)
      ensures r.Success? ==> r.value.session == MapToResponseDto(sessionRepository.sessions[id])
      ensures r.Success? ==> var total := CountEventsBySessionId(eventRepository.records, id);
        r.value.pagination == Pagination(total, page, limit, CeilDiv(total, limit))
      ensures r.Success? ==> var p := FindEventsBySessionId(eventRepository.records, id, page, limit);
        && |r.value.events| == |p.events|
        && forall i :: 0 <= i < |p.events| ==> r.value.events[i] == Summarize(p.events[i])
    {
      var session := sessionRepository.FindBySessionId(id);
      if session.None? {
        return Failure(NotFound(id));
      }
      var p := FindEventsBySessionId(eventRepository.records, id, page, limit);
      var totalPages := CeilDiv(p.total, limit);
      var events := seq(|p.events|, i requires 0 <= i < |p.events| => Summarize(p.events[i]));
      r := Success(SessionDetail(MapToResponseDto(session.value), events,
                                 Pagination(p.total, page, limit, totalPages)));
    }

    /** Idempotent completion. */
    method CompleteSession(id: string, now: int) returns (r: Result<SessionView, Error>)
      requires sessionRepository.Valid()
      modifies sessionRepository
      ensures sessionRepository.Valid()
      ensures Step(sessionRepository.sessions, r) == CompleteSessionSpec(old(sessionRepository.sessions), id, now)
    {
      var session := sessionRepository.FindBySessionId(id);
      if session.None? {
        return Failure(NotFound(id));
      }
      if session.value.status == Completed {
        return Success(MapToResponseDto(session.value));
      }
      var updated := sessionRepository.CompleteSession(id, now);
      r := Success(MapToResponseDto(updated.value));
    }
  }
}
