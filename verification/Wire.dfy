/** Bytes, errors and limits shared by every part of the wire runtime. */
module Wire {
  type byte = x: int | 0 <= x < 256
  type bytes = seq<byte>

  const U32_MAX: nat := 0xFFFF_FFFF
  const U64_MAX: nat := 0xFFFF_FFFF_FFFF_FFFF
  const USIZE_MAX: nat := 0xFFFF_FFFF_FFFF_FFFF // a 64-bit target

  datatype Option<+T> = None | Some(value: T)

  datatype DecodeError =
    | EndOfStream
    | VarIntOverflow
    | NonCanonicalVarInt
    | InvalidBoolean
    | InvalidUtf8
    | LimitExceeded
    | InvalidEnum
    | InvalidPacketId
    | TrailingData
    | InvalidValue

  /** What reading one item from the front of the input gives. */
  datatype Parsed<+T> =
    | Ok(value: T, rest: bytes)
    | Fail(error: DecodeError)

  const MAX_SUPPORTED_DEPTH: nat := 128

  datatype Limits = Limits(
    maxPacketBytes: nat,
    maxStringBytes: nat,
    maxByteArrayBytes: nat,
    maxArrayElements: nat,
    maxNestingDepth: nat)
  {
    /** The runtime's own test, on fields that fit a usize. */
    predicate Valid() {
      && 0 < maxPacketBytes <= USIZE_MAX
      && 0 < maxStringBytes <= USIZE_MAX
      && 0 < maxByteArrayBytes <= USIZE_MAX
      && 0 < maxArrayElements <= USIZE_MAX
      && 0 < maxNestingDepth <= MAX_SUPPORTED_DEPTH
    }

    /** `this` admits whatever `other` admits while decoding a payload. */
    predicate Relaxes(other: Limits) {
      && other.maxStringBytes <= maxStringBytes
      && other.maxByteArrayBytes <= maxByteArrayBytes
      && other.maxArrayElements <= maxArrayElements
      && other.maxNestingDepth <= maxNestingDepth
    }
  }

  /** The limits under which already validated bytes are read again. */
  const REVALIDATED := Limits(USIZE_MAX, USIZE_MAX, USIZE_MAX, USIZE_MAX, MAX_SUPPORTED_DEPTH)
}
