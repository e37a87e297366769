/** The message framing shared by every request and response: the
    `RequestResponseHeader` that opens each frame and the
    `RequestContractFunction` envelope that follows it in a query. Their layouts
    are defined outside this client, so they are kept abstract here: a
    `Framing` value says how long each is, how they are written and how a
    header is read back, and `Valid` states the little the client relies on. */
module Framing {
  import opened Bytes

  datatype Framing = Framing(
    headerLen: nat,                             // sizeof(RequestResponseHeader)
    maxSize: nat,                               // largest size the header's size field holds
    writeHeader: (nat, byte, nat) -> seq<byte>, // a header after setSize, setType and setting its dejavu
    sizeOf: seq<byte> -> nat,                   // header->size() of the header stored in these bytes
    typeOf: seq<byte> -> byte,                  // header->type() of the header stored in these bytes
    requestType: byte,                          // RequestContractFunction::type()
    responseType: byte,                         // RespondContractFunction::type()
    envelopeLen: nat,                           // sizeof(RequestContractFunction)
    writeEnvelope: (nat, nat, nat) -> seq<byte>) // an envelope with contractIndex, inputType, inputSize set
  {
    /** A header has a fixed, non-zero length and reads back the size (when
        it fits the size field) and the type it was written with; an envelope
        has a fixed length; and header plus envelope end on an 8-byte boundary,
        so that an input record whose alignment is 8 follows the envelope
        without padding in the packet struct. */
    ghost predicate Valid()
    {
      && headerLen > 0
      && (headerLen + envelopeLen) % 8 == 0
      && (forall size: nat, kind: byte, dejavu: nat :: |writeHeader(size, kind, dejavu)| == headerLen)
      && (forall size: nat, kind: byte, dejavu: nat :: size <= maxSize ==> sizeOf(writeHeader(size, kind, dejavu)) == size)
      && (forall size: nat, kind: byte, dejavu: nat :: typeOf(writeHeader(size, kind, dejavu)) == kind)
      && (forall index: nat, op: nat, len: nat :: |writeEnvelope(index, op, len)| == envelopeLen)
    }
  }
}
