/** The interface of the payload serializer the framing codec delegates to: postcard's
    `to_vec_crc32` / `to_stdvec_crc32` / `from_bytes_crc32` together with one CRC-32C digest
    (the iSCSI polynomial of section 12.1 of RFC 3720). The serializer's byte layout and the
    checksum are not part of this model: a `Format` is any pair of functions, and the framing
    lemmas rely only on the pair round-tripping. */
module Postcard {
  import opened Wrappers
  import opened FixedWidth

  /** The `postcard::Error` values the framing code produces or passes on. */
  datatype Error =
    | SerializeBufferFull
    | WontImplement
    | DeserializeUnexpectedEnd
    | DeserializeBadCrc
    | DeserializeBadEncoding

  /** A payload serializer with its checksum: `serialize` appends the CRC trailer,
      `deserialize` checks it and reads a value from a prefix of its input. */
  datatype Format<!T> = Format(
    serialize: T -> Result<seq<byte>, Error>,
    deserialize: seq<byte> -> Result<T, Error>)

  /** The serializer contract the framing relies on: reading back what was written yields the
      value, whatever bytes follow it (postcard reads a prefix and leaves the rest untouched). */
  ghost predicate RoundTrips<T(!new)>(f: Format<T>)
  {
    forall x: T, rest: seq<byte> {:trigger f.deserialize(f.serialize(x).value + rest)} ::
      f.serialize(x).Ok? ==> f.deserialize(f.serialize(x).value + rest) == Ok(x)
  }

  /** `to_vec_crc32::<T, SZ>`: serialization into a buffer of `capacity` bytes, which fails
      with `SerializeBufferFull` when the encoding does not fit. */
  function SerializeBounded<T>(f: Format<T>, x: T, capacity: nat): (r: Result<seq<byte>, Error>)
    ensures r.Ok? ==> f.serialize(x) == r && |r.value| <= capacity
    ensures f.serialize(x).Ok? && |f.serialize(x).value| <= capacity ==> r == f.serialize(x)
  {
    match f.serialize(x)
    case Err(e) => Err(e)
    case Ok(bytes) => if |bytes| <= capacity then Ok(bytes) else Err(SerializeBufferFull)
  }
}
