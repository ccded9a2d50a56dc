/**
 * The fixed header at the start of the mapped file, and what opening a file
 * does to it, on values.
 *
 *   byte 0        initialized flag (1 = initialized; any other value = fresh)
 *   byte 1        locked flag (1 = locked)
 *   bytes 2..10   length of the metadata record, little-endian u64
 *   bytes 10..    the metadata record, then the data region
 */
module DiskHeader {
  import opened Storage
  import opened LittleEndian
  import opened Metadata

  /** Initialized flag + locked flag + metadata length. */
  const COMMIT_LOG_INITIAL_HEADER_SIZE: nat := 1 + 1 + 8

  /** The file contents after its length is set to `capacity`: cut, or extended with zeros. */
  function SetLen(file: seq<u8>, capacity: nat): (image: seq<u8>)
    ensures |image| == capacity
    ensures forall i :: 0 <= i < capacity ==> image[i] == if i < |file| then file[i] else 0
  {
    if |file| >= capacity then file[..capacity] else file + seq(capacity - |file|, _ => 0)
  }

  /** `s` with the bytes from `at` on replaced by `d`. */
  function Splice(s: seq<u8>, at: nat, d: seq<u8>): (r: seq<u8>)
    requires at + |d| <= |s|
    ensures |r| == |s|
    ensures forall i :: 0 <= i < |s| ==> r[i] == if at <= i < at + |d| then d[i - at] else s[i]
  {
    s[..at] + d + s[at + |d|..]
  }

  predicate IsInitialized(image: seq<u8>) {
    |image| >= 1 && image[0] == 1
  }

  /** The metadata length stored in bytes 2..10. */
  function StoredMetadataLength(image: seq<u8>): (n: u64)
    requires |image| >= COMMIT_LOG_INITIAL_HEADER_SIZE
    ensures ToLeBytes(n) == image[2..COMMIT_LOG_INITIAL_HEADER_SIZE]
  {
    FromLeBytes(image[2..COMMIT_LOG_INITIAL_HEADER_SIZE])
  }

  /**
   * The header of an initialized file can be read without a panic: the
   * length field is inside the file, the record it announces is too, and the
   * record decodes as a known version.
   */
  predicate ExistingHeaderReadable(image: seq<u8>) {
    |image| >= COMMIT_LOG_INITIAL_HEADER_SIZE
    && COMMIT_LOG_INITIAL_HEADER_SIZE + StoredMetadataLength(image) <= |image|
    && var record := image[COMMIT_LOG_INITIAL_HEADER_SIZE..COMMIT_LOG_INITIAL_HEADER_SIZE + StoredMetadataLength(image)];
       Decodable(record) && TryFrom(record).Ok?
  }

  /** Opening does not panic: the first two bytes exist, and the header is readable or there is room to create it. */
  predicate CanOpen(image: seq<u8>) {
    |image| >= 2
    && if image[0] == 1 then ExistingHeaderReadable(image)
       else |image| >= COMMIT_LOG_INITIAL_HEADER_SIZE + 1 + U64_SIZE
  }

  /** What opening yields: the mapped bytes afterwards, the lock flag, the metadata and the stored metadata length. */
  datatype Opened = Opened(image: seq<u8>, locked: bool, metadata: DiskMetadata, metadataSize: nat)

  /**
   * Opening a mapped file. An initialized file is read and not written. Any
   * other file is marked initialized and unlocked, then a new record with
   * the given creation time is stored with its length, tag included. In both
   * cases the lock flag is byte 1 as it was before opening.
   */
  function OpenHeader(image: seq<u8>, createdAt: u64): (o: Opened)
    requires CanOpen(image)
    ensures |o.image| == |image| && IsInitialized(o.image)
    ensures o.locked == (image[1] == 1)
    ensures 1 + U64_SIZE <= o.metadataSize
    ensures COMMIT_LOG_INITIAL_HEADER_SIZE + o.metadataSize <= |image|
    ensures IsInitialized(image) ==> o.image == image
  {
    if image[0] == 1 then
      var n := StoredMetadataLength(image);
      var record := image[COMMIT_LOG_INITIAL_HEADER_SIZE..COMMIT_LOG_INITIAL_HEADER_SIZE + n];
      Opened(image, image[1] == 1, TryFrom(record).value, n)
    else
      var metadata := V1(createdAt);
      var record := ToVec(metadata);
      var marked := Splice(Splice(image, 0, [1]), 1, [0]);
      var stored := Splice(Splice(marked, 2, ToLeBytes(|record|)), COMMIT_LOG_INITIAL_HEADER_SIZE, record);
      Opened(stored, image[1] == 1, metadata, |record|)
  }

  /**
   * Opening a fresh file lays out the documented header: flags 1 and 0, the
   * length 9 (the record with its tag), the record itself, and nothing past
   * byte 19 changes.
   */
  lemma FreshOpenLayout(image: seq<u8>, createdAt: u64)
    requires CanOpen(image) && !IsInitialized(image)
    ensures var o := OpenHeader(image, createdAt);
      o.image == [1, 0] + ToLeBytes(9) + ToVec(V1(createdAt)) + image[19..]
      && o.metadata == V1(createdAt) && o.metadataSize == 9
      && COMMIT_LOG_INITIAL_HEADER_SIZE + o.metadataSize == 19
      && o.locked == (image[1] == 1)
  {
  }

  /**
   * Opening an initialized file writes nothing and takes the lock flag,
   * the metadata length and the metadata from the header.
   */
  lemma ExistingOpenReads(image: seq<u8>, createdAt: u64)
    requires CanOpen(image) && IsInitialized(image)
    ensures var o := OpenHeader(image, createdAt);
      var n := o.metadataSize;
      o.image == image && o.locked == (image[1] == 1)
      && ToLeBytes(n) == image[2..10]
      && 9 <= n && 10 + n <= |image|
      && ToVec(o.metadata) == image[10..19]
  {
  }

  /**
   * Opening again what an open left behind succeeds, writes nothing, and
   * yields the same metadata and metadata length, whatever creation time the
   * second open is given. The lock flag is then byte 1 of the stored file.
   */
  lemma ReopenIsStable(image: seq<u8>, createdAt: u64, laterCreatedAt: u64)
    requires CanOpen(image)
    ensures var first := OpenHeader(image, createdAt);
      CanOpen(first.image) && IsInitialized(first.image)
      && var second := OpenHeader(first.image, laterCreatedAt);
         second.image == first.image
         && second.metadata == first.metadata
         && second.metadataSize == first.metadataSize
         && second.locked == (first.image[1] == 1)
  {
    if !IsInitialized(image) {
      FreshOpenLayout(image, createdAt);
      var first := OpenHeader(image, createdAt);
      var record := ToVec(V1(createdAt));
      assert first.image[2..10] == ToLeBytes(9);
      FromLeBytesOfToLeBytes(9);
      assert StoredMetadataLength(first.image) == 9;
      assert first.image[10..19] == record;
      RoundTrip(V1(createdAt), []);
      assert record + [] == record;
    }
  }
}
