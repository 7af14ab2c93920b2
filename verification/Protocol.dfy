/** What both transports share: the envelope version, an event's envelope, and how a handler ends. */
module Protocol {
  import opened Wrappers

  const PROTOCOL_VERSION: nat := 1

  /** A process taking part in a consumer group. */
  type Replica = nat

  /** A decoded event envelope. */
  datatype Envelope = Envelope(version: nat, eventId: string)

  /** The sized payload of an event, which decodes to an envelope or does not. */
  predicate ReadableEvent(size: nat, decoded: Option<Envelope>, maxBytes: nat) {
    size <= maxBytes && decoded.Some? && decoded.value.version == PROTOCOL_VERSION && decoded.value.eventId != ""
  }

  datatype Outcome = Success | ClientError | ServerError
}
