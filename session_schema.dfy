/**
 * The persisted shape of a conversation session: its status enumeration,
 * the record with its defaults, and the unique index on `sessionId`.
 */
module SessionSchema {
  import opened Wrappers

  /** The lifecycle states of a session. */
  datatype SessionStatus = Initiated | Active | Completed | Failed

  /** An open key-value document; the values are not interpreted by the core. */
  type Metadata = map<string, string>

  /** One session record. Timestamps are integers; `endedAt` is nullable. */
  datatype Session = Session(
    sessionId: string,
    status: SessionStatus,
    language: string,
    startedAt: int,
    endedAt: Option<int>,
    metadata: Metadata)

  /** The string each status is stored as; the enum validator reads it back as the same status. */
  function StatusName(s: SessionStatus): (name: string)
    ensures ParseStatus(name) == Some(s)
  {
    match s
    case Initiated => "initiated"
    case Active => "active"
    case Completed => "completed"
    case Failed => "failed"
  }

  /** The schema's enum validator on a stored status string. */
  function ParseStatus(name: string): Option<SessionStatus> {
    if name == "initiated" then Some(Initiated)
    else if name == "active" then Some(Active)
    else if name == "completed" then Some(Completed)
    else if name == "failed" then Some(Failed)
    else None
  }

  /** A stored status string is accepted exactly when it is the name of one of the four statuses. */
  lemma ParseStatusAcceptsOnlyNames(name: string)
    ensures ParseStatus(name).Some? ==> StatusName(ParseStatus(name).value) == name
    ensures ParseStatus(name).None? ==> forall s :: StatusName(s) != name
  {
  }

  /**
   * The record a first insert creates: the supplied status or `initiated`,
   * `startedAt` the current time, no `endedAt`, the supplied metadata or `{}`.
   */
  function NewSession(sessionId: string, language: string, status: Option<SessionStatus>,
                      metadata: Option<Metadata>, now: int): (s: Session)
    ensures s.sessionId == sessionId && s.language == language
    ensures s.status == (if status.Some? then status.value else Initiated)
    ensures s.startedAt == now && s.endedAt == None
    ensures s.metadata == (if metadata.Some? then metadata.value else map[])
  {
    Session(sessionId, status.GetOr(Initiated), language, now, None, metadata.GetOr(map[]))
  }

  /** With nothing optional supplied, a new session takes the schema defaults. */
  lemma NewSessionDefaults(sessionId: string, language: string, now: int)
    ensures var s := NewSession(sessionId, language, None, None, now);
      && s.sessionId == sessionId && s.language == language
      && s.status == Initiated && s.startedAt == now
      && s.endedAt == None && s.metadata == map[]
  {
  }

  /** Supplied optional fields take precedence over the defaults. */
  lemma NewSessionSupplied(sessionId: string, language: string, status: SessionStatus,
                           metadata: Metadata, now: int)
    ensures var s := NewSession(sessionId, language, Some(status), Some(metadata), now);
      s.status == status && s.metadata == metadata && s.endedAt == None
  {
  }

  /**
   * The unique index on `sessionId`: the collection is a map from the key to
   * the record, and every record sits under its own id.
   */
  ghost predicate UniqueSessionIds(m: map<string, Session>) {
    forall k :: k in m ==> m[k].sessionId == k
  }

  /** Under the unique index, two stored records with the same id are the same entry. */
  lemma AtMostOneSessionPerId(m: map<string, Session>, a: string, b: string)
    requires UniqueSessionIds(m)
    requires a in m && b in m && m[a].sessionId == m[b].sessionId
    ensures a == b
  {
  }
}
