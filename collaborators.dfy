/**
 * The collaborators a file-slice reader is built from: the key extractor, the record
 * merger with its payload properties, and the wrap step that turns a record into the
 * form handed to the consumer. Their implementations are not part of this model; they
 * are fixed functions supplied at construction.
 */
module Collaborators {
  import opened Wrappers

  /** A record key, as returned by `HoodieRecord.getRecordKey`. */
  type Key = string

  /** Typed properties handed to the merger. */
  type Props = map<string, string>

  /** The value of `HoodiePayloadProps.PAYLOAD_ORDERING_FIELD_PROP_KEY`. */
  const OrderingFieldKey: string := "hoodie.payload.ordering.field"

  /** The prefix of the message of the `HoodieIOException` raised when wrapping fails. */
  const WrapFailurePrefix: string := "Failed to wrapIntoHoodieRecordPayloadWithParams: "

  /**
   * The merge properties built by the constructor: they start empty and receive the
   * ordering field exactly when a pre-combine field is given (`None` is Java's `null`).
   */
  function PayloadProps(preCombineField: Option<string>): (p: Props)
    ensures OrderingFieldKey in p <==> preCombineField.Some?
    ensures preCombineField.Some? ==> p[OrderingFieldKey] == preCombineField.value
    ensures p.Keys <= {OrderingFieldKey}
  {
    if preCombineField.Some? then map[OrderingFieldKey := preCombineField.value] else map[]
  }

  /** What the wrap step does: succeed with a record, or fail with an IOException message. */
  datatype WrapOutcome<R> = Wrapped(record: R) | WrapFailed(ioMessage: string)

  /** The unchecked exception the reader raises. */
  datatype ReadError = HoodieIOException(message: string)

  /**
   * The fixed collaborators of one reader.
   *   keyOf   -- `getRecordKey(schema, keyGeneratorOpt)`
   *   merge   -- `merger.merge(older, schema, newer, schema, props)`; `None` means deleted
   *   props   -- the payload properties passed to every merge
   *   wrap    -- `wrapIntoHoodieRecordPayloadWithParams` with the reader's fixed arguments
   */
  datatype Context<!R> = Context(
    keyOf: R -> Key,
    merge: (R, R, Props) -> Option<R>,
    props: Props,
    wrap: R -> WrapOutcome<R>)

  /**
   * Wrapping as the reader sees it: a failed wrap becomes a `HoodieIOException`
   * whose message is the fixed prefix followed by the IOException's message.
   */
  function Wrap<R>(c: Context<R>, r: R): (res: Result<R, ReadError>)
    ensures res.Ok? <==> c.wrap(r).Wrapped?
    ensures res.Ok? ==> res.value == c.wrap(r).record
    ensures res.Err? ==> res.error.message == WrapFailurePrefix + c.wrap(r).ioMessage
  {
    match c.wrap(r)
    case Wrapped(x) => Ok(x)
    case WrapFailed(m) => Err(HoodieIOException(WrapFailurePrefix + m))
  }
}
