/**
 * The session repository: create-or-fetch, lookup, completion and status
 * overwrite over the session collection, which is a map from `sessionId`
 * to the stored record. Each operation is one atomic step on the map; the
 * step functions below specify them and the class methods are proved
 * against them.
 */
module SessionStore {
  import opened Wrappers
  import opened Errors
  import opened SessionSchema

  /** An upsert request; the optional fields are absent when not supplied. */
  datatype CreateSession = CreateSession(
    sessionId: string,
    status: Option<SessionStatus>,
    language: string,
    metadata: Option<Metadata>)

  type Sessions = map<string, Session>

  /** The collection after an operation, with what the operation returned. */
  datatype Step<T> = Step(sessions: Sessions, out: T)

  /** No id other than `id` gains, loses or changes a record between the two states. */
  ghost predicate OthersUnchanged(before: Sessions, after: Sessions, id: string) {
    forall k :: k != id ==> (k in before <==> k in after) && (k in before ==> after[k] == before[k])
  }

  /**
   * `findOneAndUpdate` with `$setOnInsert` and `upsert`: a new record is
   * inserted only when the id is absent; an existing record is returned
   * unchanged and the supplied language, status and metadata are discarded.
   */
  function Upsert(m: Sessions, req: CreateSession, now: int): (r: Step<Session>)
    ensures req.sessionId in r.sessions && r.sessions[req.sessionId] == r.out
    ensures r.sessions.Keys == m.Keys + {req.sessionId}
    ensures OthersUnchanged(m, r.sessions, req.sessionId)
    ensures req.sessionId in m ==> r == Step(m, m[req.sessionId])
    ensures req.sessionId !in m ==>
      r.out == NewSession(req.sessionId, req.language, req.status, req.metadata, now)
    ensures UniqueSessionIds(m) ==> UniqueSessionIds(r.sessions)
  {
    if req.sessionId in m then Step(m, m[req.sessionId])
    else
      var s := NewSession(req.sessionId, req.language, req.status, req.metadata, now);
      Step(m[req.sessionId := s], s)
  }

  /**
   * `findOneAndUpdate` with `$set: {status: completed, endedAt: now}`: stamps
   * the record unconditionally (re-stamping `endedAt` if called again); fails
   * and writes nothing when the id is absent.
   */
  function Complete(m: Sessions, id: string, now: int): (r: Step<Result<Session, Error>>)
    ensures r.sessions.Keys == m.Keys
    ensures OthersUnchanged(m, r.sessions, id)
    ensures id !in m ==> r == Step(m, Failure(StoreNotFound(id)))
    ensures id in m ==> r.out == Success(r.sessions[id])
    ensures id in m ==> var s := r.sessions[id];
      && s.status == Completed && s.endedAt == Some(now)
      && s.sessionId == m[id].sessionId && s.language == m[id].language
      && s.startedAt == m[id].startedAt && s.metadata == m[id].metadata
    ensures UniqueSessionIds(m) ==> UniqueSessionIds(r.sessions)
  {
    if id !in m then Step(m, Failure(StoreNotFound(id)))
    else
      var s := m[id].(status := Completed, endedAt := Some(now));
      Step(m[id := s], Success(s))
  }

  /**
   * `findOneAndUpdate` with `$set: {status}`: any status is written over any
   * other, with no transition check; fails and writes nothing when absent.
   */
  function SetStatus(m: Sessions, id: string, status: SessionStatus): (r: Step<Result<Session, Error>>)
    ensures r.sessions.Keys == m.Keys
    ensures OthersUnchanged(m, r.sessions, id)
    ensures id !in m ==> r == Step(m, Failure(StoreNotFound(id)))
    ensures id in m ==> r.out == Success(r.sessions[id])
    ensures id in m ==> r.sessions[id] == m[id].(status := status)
    ensures UniqueSessionIds(m) ==> UniqueSessionIds(r.sessions)
  {
    if id !in m then Step(m, Failure(StoreNotFound(id)))
    else
      var s := m[id].(status := status);
      Step(m[id := s], Success(s))
  }

  /**
   * Upsert is idempotent: a second upsert of the same id, whatever it
   * supplies, returns the first call's record and writes nothing.
   */
  lemma UpsertIdempotent(m: Sessions, first: CreateSession, second: CreateSession, t1: int, t2: int)
    requires first.sessionId == second.sessionId
    ensures var r1 := Upsert(m, first, t1);
      Upsert(r1.sessions, second, t2) == Step(r1.sessions, r1.out)
  {
  }

  /** No transition is refused: even a completed session can be set back to initiated. */
  lemma UpdateStatusAllowsAnyTransition(m: Sessions, id: string, from: SessionStatus, to: SessionStatus)
    requires id in m && m[id].status == from
    ensures SetStatus(m, id, to).out.Success?
    ensures SetStatus(m, id, to).out.value.status == to
  {
  }

  /** The session collection and its repository operations. */
  class SessionRepository {
    var sessions: Sessions

    ghost predicate Valid()
      reads this
    {
      UniqueSessionIds(sessions)
    }

    constructor ()
      ensures Valid() && sessions == map[]
    {
      sessions := map[];
    }

    /** Create-or-fetch; returns the record now stored for the id. */
    method UpsertSession(req: CreateSession, now: int) returns (session: Session)
      requires Valid()
      modifies this
      ensures Valid()
      ensures Step(sessions, session) == Upsert(old(sessions), req, now)
    {
      var id := req.sessionId;
      // the pre-image returned by findOneAndUpdate with `new: false`; absent when it inserted
      var previous := FindBySessionId(id);
      if previous.Some? {
        session := previous.value;
      } else {
        sessions := sessions[id := NewSession(id, req.language, req.status, req.metadata, now)];
        // the follow-up findOne, which always finds the record just inserted
        session := sessions[id];
      }
    }

    /** `findOne({sessionId})`: the stored record for the id, if any. */
    function FindBySessionId(id: string): (r: Option<Session>)
      reads this
      requires Valid()
      ensures r.Some? <==> id in sessions
      ensures r.Some? ==> r.value == sessions[id] && r.value.sessionId == id
    {
      if id in sessions then Some(sessions[id]) else None
    }

    method CompleteSession(id: string, now: int) returns (r: Result<Session, Error>)
      requires Valid()
      modifies this
      ensures Valid()
      ensures Step(sessions, r) == Complete(old(sessions), id, now)
    {
      if id in sessions {
        var updated := sessions[id].(status := Completed, endedAt := Some(now));
        sessions := sessions[id := updated];
        r := Success(updated);
      } else {
        r := Failure(StoreNotFound(id));
      }
    }

    method UpdateStatus(id: string, status: SessionStatus) returns (r: Result<Session, Error>)
      requires Valid()
      modifies this
      ensures Valid()
      ensures Step(sessions, r) == SetStatus(old(sessions), id, status)
    {
      if id in sessions {
        var updated := sessions[id].(status := status);
        sessions := sessions[id := updated];
        r := Success(updated);
      } else {
        r := Failure(StoreNotFound(id));
      }
    }
  }
}
