/**
 * The versioned metadata record stored in the disk header: a one-byte
 * version tag followed by the payload of that version.
 */
module Metadata {
  import opened Storage
  import opened LittleEndian

  /** The only current version: the creation time in seconds since the Unix epoch. */
  datatype DiskMetadata = V1(createdAt: u64)

  /** The one-byte version tag. */
  function LeIdentifier(m: DiskMetadata): (id: seq<u8>)
    ensures |id| == 1
    ensures m.V1? ==> id == [0]
  {
    match m
    case V1(_) => [0]
  }

  /** The serialized record: tag, then the payload. */
  function ToVec(m: DiskMetadata): (bytes: seq<u8>)
    ensures |bytes| == 1 + U64_SIZE
    ensures bytes[..1] == LeIdentifier(m)
    ensures m.V1? ==> bytes[0] == 0 && FromLeBytes(bytes[1..]) == m.createdAt
  {
    match m
    case V1(createdAt) => LeIdentifier(m) + ToLeBytes(createdAt)
  }

  /** Size of the payload alone, without the tag. */
  function Size(m: DiskMetadata): (n: nat)
    ensures n + 1 == |ToVec(m)|
  {
    match m
    case V1(_) => U64_SIZE
  }

  /**
   * The inputs on which decoding does not panic: reading the tag needs one
   * byte, and tag 0 needs the eight payload bytes after it.
   */
  predicate Decodable(bytes: seq<u8>) {
    |bytes| >= 1 && (bytes[0] == 0 ==> |bytes| >= 1 + U64_SIZE)
  }

  /**
   * Decodes a record by its tag: tag 0 is read as `V1` from the next eight
   * bytes, and any other tag is rejected. Bytes after the record are ignored.
   */
  function TryFrom(bytes: seq<u8>): (r: Result<DiskMetadata, ()>)
    requires Decodable(bytes)
    ensures r.Ok? <==> bytes[0] == 0
    ensures r.Ok? ==> ToVec(r.value) == bytes[..1 + U64_SIZE]
  {
    var identifier := bytes[..1];
    match identifier[0]
    case 0 => Ok(V1(FromLeBytes(bytes[1..1 + U64_SIZE])))
    case _ => Err(())
  }

  /** Decoding a serialized record gives the record back, whatever follows it. */
  lemma RoundTrip(m: DiskMetadata, extra: seq<u8>)
    ensures Decodable(ToVec(m) + extra)
    ensures TryFrom(ToVec(m) + extra) == Ok(m)
  {
  }

  /** Decoding reads only the first nine bytes. */
  lemma DecodeIgnoresTrailing(bytes: seq<u8>, extra: seq<u8>)
    requires Decodable(bytes)
    ensures Decodable(bytes + extra)
    ensures TryFrom(bytes + extra) == TryFrom(bytes)
  {
    if bytes[0] == 0 {
      assert (bytes + extra)[1..1 + U64_SIZE] == bytes[1..1 + U64_SIZE];
    }
  }

  /** An unknown tag is an error, never a misread value. */
  lemma UnknownTagRejected(bytes: seq<u8>)
    requires |bytes| >= 1 && bytes[0] != 0
    ensures Decodable(bytes) && TryFrom(bytes) == Err(())
  {
  }
}
