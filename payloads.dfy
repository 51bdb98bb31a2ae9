/** The wire value that payload converters produce and consume
    (the protobuf message `io.temporal.api.common.v1.Payload`). */
module Payloads {

  /** The metadata key under which a payload records the encoding type of the
      converter that produced it (EncodingKeys.METADATA_ENCODING_KEY). */
  const EncodingKey: string := "encoding"

  /** Metadata values are kept as the strings they decode to; the bytes of
      the data part are not interpreted anywhere in this model. */
  datatype Payload = Payload(metadata: map<string, string>, data: seq<bv8>)
}
