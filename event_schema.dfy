/**
 * The persisted shape of a conversation event: its type enumeration, the
 * record, the default timestamp, and the unique (sessionId, eventId) index.
 */
module EventSchema {
  import opened Wrappers

  /** Who or what produced an event. */
  datatype EventType = UserSpeech | BotSpeech | System

  /** An open key-value document; the values are not interpreted by the core. */
  type Payload = map<string, string>

  /** The composite business key of an event. */
  datatype EventKey = EventKey(sessionId: string, eventId: string)

  /**
   * One event record. Every field is required; `eventType` is the stored
   * `type` field (a reserved word here).
   */
  datatype Event = Event(
    eventId: string,
    sessionId: string,
    eventType: EventType,
    payload: Payload,
    timestamp: int)
  {
    function Key(): EventKey {
      EventKey(sessionId, eventId)
    }
  }

  /** The string each event type is stored as; the enum validator reads it back as the same type. */
  function TypeName(t: EventType): (name: string)
    ensures ParseType(name) == Some(t)
  {
    match t
    case UserSpeech => "user_speech"
    case BotSpeech => "bot_speech"
    case System => "system"
  }

  /** The schema's enum validator on a stored type string. */
  function ParseType(name: string): Option<EventType> {
    if name == "user_speech" then Some(UserSpeech)
    else if name == "bot_speech" then Some(BotSpeech)
    else if name == "system" then Some(System)
    else None
  }

  /** A stored type string is accepted exactly when it is one of the three type names. */
  lemma ParseTypeAcceptsOnlyNames(name: string)
    ensures ParseType(name).Some? ==> TypeName(ParseType(name).value) == name
    ensures ParseType(name).None? ==> forall t :: TypeName(t) != name
  {
  }

  /** The record a fresh insert creates; the timestamp defaults to the current time. */
  function NewEvent(sessionId: string, eventId: string, eventType: EventType, payload: Payload,
                    timestamp: Option<int>, now: int): (e: Event)
    ensures e.Key() == EventKey(sessionId, eventId)
    ensures e.timestamp == (if timestamp.Some? then timestamp.value else now)
    ensures e.eventType == eventType && e.payload == payload
  {
    Event(eventId, sessionId, eventType, payload, timestamp.GetOr(now))
  }

  /** The unique compound index: no two stored records share a (sessionId, eventId) key. */
  ghost predicate UniqueKeys(records: seq<Event>) {
    forall i, j :: 0 <= i < j < |records| ==> records[i].Key() != records[j].Key()
  }
}
