# Conversation sessions and events: a Dafny model of the consistency layer

This project models the persistence core of a conversational-platform backend
(a NestJS service over MongoDB). It covers the lifecycle of a conversation
**session** and the timeline of **events** inside it. The core consists of:

- create-or-fetch of sessions keyed by `sessionId`;
- an idempotent insert of events keyed by (`sessionId`, `eventId`);
- completion that never re-stamps `endedAt`;
- a guard that refuses events for sessions that do not exist;
- offset pagination of a session's events, newest first, with `totalPages`.

The two collections are modelled as in-memory state, and each storage primitive
is one atomic step on that state:

- **Sessions** are a `map<string, Session>` from `sessionId` to the record. The
  unique index on `sessionId` is the invariant `UniqueSessionIds`.
- **Events** are a `seq<Event>` of stored records in insertion order (the
  collection's natural order). The unique compound index is the invariant
  `UniqueKeys`: no two records share a (`sessionId`, `eventId`) key.

Layout, one module per source file:

| file | module | models |
|---|---|---|
| `wrappers.dfy` | `Wrappers`, `Errors` | `Option`/`Result`; the two not-found errors |
| `session_schema.dfy` | `SessionSchema` | `SessionStatus`, the `Session` record, its defaults, the unique id |
| `event_schema.dfy` | `EventSchema` | `EventType`, the `Event` record, the default timestamp, the unique key |
| `session_store.dfy` | `SessionStore` | `SessionRepository` (class over the map) and the step functions it is proved against |
| `event_store.dfy` | `EventStore` | `EventRepository` (class over the sequence), the insert step, the read-only queries |
| `session_service.dfy` | `SessionCoordinator` | `SessionService`: upsert, get-with-events, idempotent completion |
| `event_service.dfy` | `EventCoordinator` | `EventService`: guarded add, and the invariants of both services together |

Each repository and service method that writes state is proved against a pure
step function. Examples are `SessionStore.Upsert`, `SessionStore.Complete`,
`EventStore.Add`, `SessionCoordinator.CompleteSessionSpec` and
`EventCoordinator.AddEventSpec`. Each such function returns the new collection
and the method's result, and the lemmas about several calls are stated over
these functions.

Conventions:

- The current time is an integer parameter `now`.
- `metadata` and `payload` are opaque `map<string, string>` values.
- The event field `type` is called `eventType`, because `type` is a reserved word in Dafny.

Two behaviours of the code are worth knowing.

- Completion is idempotent only at the service layer.
  - The doc comment of `SessionRepository.completeSession`
    (`src/modules/session/repositories/session.repository.ts:79`) calls it an
    idempotent operation, yet its update (lines 89-92) sets `endedAt` to the
    current time on every call.
  - `SessionService.completeSession` skips the write when the status is already
    `completed`, so completion through the service never re-stamps `endedAt`.
- A completed session need not have an `endedAt`.
  - An upsert may supply `completed` as the initial status. The session is then
    completed with `endedAt = null`, and the service's completion short-circuit
    never stamps it (`CompletedAtCreationHasNoEndedAt`).
  - `updateStatus` can also move a completed session to any status.
  - What does hold through the services is this: `endedAt` is set only on a
    completed session (`RunKeepsEndedOnlyWhenCompleted`), and a completed
    record never changes again (`CompletedSessionsStayFrozen`).

## Model

| member | source | states |
|---|---|---|
| `SessionSchema.StatusName` | src/modules/session/schemas/conversation-session.schema.ts:6-11 | each status is stored as its enum string, which the validator reads back as the same status |
| `SessionSchema.ParseStatusAcceptsOnlyNames` | src/modules/session/schemas/conversation-session.schema.ts:6-23 | a stored status string is accepted exactly when it is the name of one of initiated, active, completed, failed |
| `SessionSchema.NewSession` | src/modules/session/repositories/session.repository.ts:35-42 | the inserted record: the given id and language, the supplied status or `initiated`, `startedAt = now`, `endedAt` null, the supplied metadata or `{}` |
| `SessionSchema.NewSessionDefaults` | src/modules/session/schemas/conversation-session.schema.ts:18-35 | a new session with nothing optional supplied is `initiated`, started at `now`, with `endedAt` null and empty metadata |
| `SessionSchema.NewSessionSupplied` | src/modules/session/repositories/session.repository.ts:35-42 | supplied status and metadata take precedence over the defaults; `endedAt` is still null |
| `SessionSchema.AtMostOneSessionPerId` | src/modules/session/schemas/conversation-session.schema.ts:43 | under the unique index, two stored records with the same `sessionId` are the same record |
| `EventSchema.TypeName` | src/modules/event/schemas/conversation-event.schema.ts:6-10 | each event type is stored as its enum string, which the validator reads back as the same type |
| `EventSchema.ParseTypeAcceptsOnlyNames` | src/modules/event/schemas/conversation-event.schema.ts:6-21 | a stored type string is accepted exactly when it is user_speech, bot_speech or system |
| `EventSchema.NewEvent` | src/modules/event/repositories/event.repository.ts:31-37 | a new record has the given key, type and payload, and its timestamp is the supplied one if any, else `now` |
| `SessionStore.Upsert` | src/modules/session/repositories/session.repository.ts:24-67 | afterwards exactly one record is stored for the id and it is the one returned; an existing record is returned unchanged with no write; an absent id gets the defaulted new record; other ids are untouched; uniqueness is kept |
| `SessionStore.Complete` | src/modules/session/repositories/session.repository.ts:82-105 | on a stored id, sets status completed and `endedAt = now` and keeps id, language, startedAt and metadata; on an absent id, fails and writes nothing; other ids are untouched |
| `SessionStore.SetStatus` | src/modules/session/repositories/session.repository.ts:110-127 | on a stored id, overwrites only the status; on an absent id, fails and writes nothing; other ids are untouched |
| `SessionStore.UpsertIdempotent` | src/modules/session/repositories/session.repository.ts:32-49 | a second upsert of the same id returns the first call's record and writes nothing, whatever language, status and metadata it carries |
| `SessionStore.UpdateStatusAllowsAnyTransition` | src/modules/session/repositories/session.repository.ts:114-120 | any status can be written over any other, with no transition check |
| `SessionStore.SessionRepository.UpsertSession` | src/modules/session/repositories/session.repository.ts:24-60 | the new map and the returned record are those of `Upsert`; the unique index is kept |
| `SessionStore.SessionRepository.FindBySessionId` | src/modules/session/repositories/session.repository.ts:72-76 | returns the stored record when the id is stored, else nothing; the record found carries that id |
| `SessionStore.SessionRepository.CompleteSession` | src/modules/session/repositories/session.repository.ts:82-105 | the new map and the result are those of `Complete` |
| `SessionStore.SessionRepository.UpdateStatus` | src/modules/session/repositories/session.repository.ts:110-127 | the new map and the result are those of `SetStatus` |
| `EventStore.FindOne` | src/modules/event/repositories/event.repository.ts:47-49 | finds nothing exactly when no stored record has the key; otherwise finds a stored record with that key |
| `EventStore.FindOneUnique` | src/modules/event/schemas/conversation-event.schema.ts:36-40 | under the unique index, the record found for a key is the stored record with that key |
| `EventStore.SessionFilter` | src/modules/event/repositories/event.repository.ts:75 | an event occurs in the result exactly when it is a stored record of the session |
| `EventStore.SessionFilterCounts` | src/modules/event/repositories/event.repository.ts:75 | the filter holds each stored record of the session exactly as many times as the collection does, and no other record |
| `EventStore.CountEventsBySessionId` | src/modules/event/repositories/event.repository.ts:89-91 | equals the number of records that a find by the session's id returns |
| `EventStore.CountByKey` | src/modules/event/repositories/event.repository.ts:97-99 | is positive exactly when a record with the key is stored, and at most one under the unique index |
| `EventStore.EventExists` | src/modules/event/repositories/event.repository.ts:96-101 | true exactly when a record with that `sessionId` and `eventId` is stored |
| `EventStore.InsertByTimestamp` | src/modules/event/repositories/event.repository.ts:76 | inserting into a newest-first sequence keeps it newest first and adds exactly that event |
| `EventStore.SortNewestFirst` | src/modules/event/repositories/event.repository.ts:76 | the result is newest first and a permutation of the input |
| `EventStore.Timeline` | src/modules/event/repositories/event.repository.ts:74-76 | the session's events, newest first; exactly the stored records of the session, as many as the count |
| `EventStore.TimelineIsPermutation` | src/modules/event/repositories/event.repository.ts:74-76 | the timeline is a permutation of the session's stored records |
| `EventStore.NewestFirstUnique` | src/modules/event/repositories/event.repository.ts:76 | when no two events share a timestamp, two newest-first arrangements of the same events are equal |
| `EventStore.TimelineUnique` | src/modules/event/repositories/event.repository.ts:74-76 | when no two of the session's events share a timestamp, every newest-first ordering of them is the timeline, so the sort has only one possible result |
| `EventStore.Window` | src/modules/event/repositories/event.repository.ts:77-78 | at most `limit` consecutive elements starting at index `skip`, and no fewer than are there |
| `EventStore.Offset` | src/modules/event/repositories/event.repository.ts:71 | skip is `(page - 1) * limit` and is never negative |
| `EventStore.FindEventsBySessionId` | src/modules/event/repositories/event.repository.ts:66-84 | page 1 and limit 20 by default; total is the session's count whatever the page; the page is at most `limit` events of the session, newest first, taken from the timeline starting at `(page - 1) * limit`, and full unless the timeline ends |
| `EventStore.PageOf` | src/modules/event/repositories/event.repository.ts:71 | position `i` falls on a page numbered from 1 whose skip is at most `i` and more than `i - limit` |
| `EventStore.EveryEventOnItsPage` | src/modules/event/repositories/event.repository.ts:71-79 | when no two of the session's events share a timestamp, offset pagination covers the timeline: for any newest-first ordering of the session's events, its event at position `i` is returned on page `PageOf(i, limit)`, at position `i` minus that page's skip |
| `EventStore.Add` | src/modules/event/repositories/event.repository.ts:24-60 | a fresh key appends one new record; a stored key returns the stored record and writes nothing; afterwards the key finds the returned record; the unique index is kept |
| `EventStore.AddIdempotent` | src/modules/event/repositories/event.repository.ts:42-52 | a second add with the same key returns the first call's record and writes nothing, whatever type, payload and timestamp it carries |
| `EventStore.AddOnlyAppends` | src/modules/event/repositories/event.repository.ts:31-39 | every stored record keeps its place and value, and at most one record is added |
| `EventStore.AddAllKeepsKeysUnique` | src/modules/event/schemas/conversation-event.schema.ts:36-40 | after any sequence of adds, at most one record is stored per (`sessionId`, `eventId`) |
| `EventStore.EventRepository.AddEvent` | src/modules/event/repositories/event.repository.ts:24-60 | the new sequence and the returned record are those of `Add`; the unique index is kept |
| `SessionCoordinator.MapToResponseDtoLossless` | src/modules/session/services/session.service.ts:92-101 | the response carries all six stored fields: distinct records give distinct responses |
| `SessionCoordinator.MapToResponseDto` | src/modules/session/services/session.service.ts:92-101 | the response carries the stored `sessionId`, `status`, `language`, `startedAt`, `endedAt` and `metadata` |
| `SessionCoordinator.Summarize` | src/modules/session/services/session.service.ts:53-58 | a listed event carries the stored `eventId`, type, payload and timestamp, and leaves out `sessionId` |
| `SessionCoordinator.CeilDiv` | src/modules/session/services/session.service.ts:49 | the fewest pages of `limit` events that hold `total` events |
| `SessionCoordinator.CeilDivExample` | src/modules/session/services/session.service.ts:49 | 25 events in pages of 10 make 3 pages |
| `SessionCoordinator.PageStartsBeforeTotal` | src/modules/session/services/session.service.ts:49 | a page starts before the last event exactly when its number is at most `totalPages` |
| `SessionCoordinator.PageNonEmptyIffWithinTotalPages` | src/modules/session/services/session.service.ts:42-64 | a page holds events exactly when its number is at most `totalPages` |
| `SessionCoordinator.CompleteSessionSpec` | src/modules/session/services/session.service.ts:71-87 | absent: NotFound and no write; already completed: the stored record, no write; otherwise: completed with `endedAt = now`; other ids untouched; a success always reports status completed |
| `SessionCoordinator.CompleteSessionIdempotent` | src/modules/session/services/session.service.ts:78-81 | a second completion at any time returns the first response, with the same `endedAt`, and writes nothing |
| `SessionCoordinator.CompleteSessionStampsEndedAt` | src/modules/session/services/session.service.ts:83-86 | completing a not-yet-completed session twice reports the first call's time as `endedAt` |
| `SessionCoordinator.RunKeepsEndedOnlyWhenCompleted` | src/modules/session/services/session.service.ts:69-87 | through any sequence of upserts and completions, a session with an `endedAt` is completed |
| `SessionCoordinator.CompletedSessionsStayFrozen` | src/modules/session/services/session.service.ts:78-81 | once completed, a session's record, `endedAt` included, is unchanged by any sequence of upserts and completions |
| `SessionCoordinator.CompletedAtCreationHasNoEndedAt` | src/modules/session/repositories/session.repository.ts:38 | an upsert that supplies `completed` creates a completed session with no `endedAt`, and completion then returns it unstamped |
| `SessionCoordinator.SessionService.UpsertSession` | src/modules/session/services/session.service.ts:18-25 | the map after the call is that of `Upsert`, and the response is the six fields of the record it returns |
| `SessionCoordinator.SessionService.GetSessionById` | src/modules/session/services/session.service.ts:30-66 | page 1 and limit 20 by default; absent session: NotFound; otherwise the session's six fields, the page's events in repository order projected to eventId/type/payload/timestamp, and pagination with total = the session's event count, page and limit echoed, totalPages = ceil(total / limit) |
| `SessionCoordinator.SessionService.CompleteSession` | src/modules/session/services/session.service.ts:71-87 | the map after the call and the response are those of `CompleteSessionSpec` |
| `EventCoordinator.ToEventView` | src/modules/event/services/event.service.ts:36-42 | the response carries all five stored fields of the event |
| `EventCoordinator.AddEventSpec` | src/modules/event/services/event.service.ts:19-43 | fails exactly when the session is absent, then with NotFound and no write; otherwise the response carries the path's `sessionId` and the request's `eventId` and equals the record now stored under that key; only appends; keeps the unique index |
| `EventCoordinator.DuplicateAddEventReturnsFirst` | src/modules/event/services/event.service.ts:30-34 | a duplicate add returns the first response and writes nothing; if the first add inserted, the response has the first payload and type |
| `EventCoordinator.AddEventKeepsReferences` | src/modules/event/services/event.service.ts:23-28 | if every stored event belongs to a stored session before an add, the same holds after it |
| `EventCoordinator.PerformAllKeepsConsistent` | src/modules/event/services/event.service.ts:19-43 | after any sequence of service calls: one session per id, at most one event per key, and every event under a stored session |
| `EventCoordinator.EventService.AddEvent` | src/modules/event/services/event.service.ts:19-43 | the event sequence and response are those of `AddEventSpec`; the session repository is unchanged |

## Left out

- HTTP controllers, module wiring, configuration and DTO validation are not modelled. Requests are assumed already validated.
- Logging is not modelled.
- Concurrency is not modelled.
  - Every `findOneAndUpdate`, `save`, `find` and `countDocuments` is one sequential step.
  - The check-then-act window in `EventService.addEvent` is not represented.
  - The concurrent `find` and `countDocuments` of `findEventsBySessionId` read the same state.
- Two storage anomalies are omitted. Both cannot happen in a sequential model:
  - `upsertSession`'s refetch finding nothing;
  - a duplicate-key conflict whose stored record cannot then be found.
- Other storage errors, including the re-thrown errors of `addEvent`, are omitted.
- The duplicate-key error code 11000 is modelled as "a record with the key is already stored".
- Dates are integers.
  - `new Date()` is the parameter `now`.
  - Parsing of a supplied event timestamp string is not modelled: the timestamp is given as an integer.
- `SessionCoordinator.CeilDiv` computes `Math.ceil(total / limit)` as integer ceiling division. Floating-point division is not modelled.
- `page >= 1` and `limit >= 1` are preconditions of the paginated reads. The pagination DTO that would enforce them is not part of this model.
- The `createdAt`/`updatedAt` fields that Mongoose adds to sessions (`timestamps: true`) are not modelled. They are not part of any response. Mongoose also sets `updatedAt` on every `findOneAndUpdate`, a repeat upsert included, so "writes nothing" in the rows of `SessionStore.Upsert` and `SessionStore.UpsertIdempotent` holds for the modelled fields only.
- The secondary indexes on `status`, `startedAt` and `timestamp` only affect performance, so they are not modelled.
- `EventStore.FindEventsBySessionId` fixes one order among events with equal timestamps: the model keeps them in insertion order, so its pages agree with each other. MongoDB gives ties no order, and each page query may order them differently, so across pages tied events may repeat or be skipped. `EveryEventOnItsPage` is therefore stated only for sessions whose events have distinct timestamps, where `TimelineUnique` shows the order is forced.
