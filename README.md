# Storage core of a memory-mapped commit log, in Dafny

This project models the storage layer of an append-only commit log. The log
keeps one file of fixed capacity, mapped into memory in full. The model
covers three parts:

- **Cursor** (`cursor.dfy`, module `Cursors`): a reader over a byte source
  that tracks its position. `Peek` and `Consume` are bounds-checked and fail
  with `InvalidRange`. `MoveTo`, `Forward` and `SetBack` reposition without
  a check. `Reset` rewinds to the starting position. The three kinds of byte
  source (owned slice, read-only mapping, writable mapping) are read the
  same way, so they are one `seq<u8>`.
- **Metadata codec** (`disk_metadata.dfy`, module `Metadata`): a versioned
  record with one version, `V1 { created_at: u64 }`. It is serialized as tag
  byte 0 followed by 8 little-endian bytes. Decoding switches on the tag.
  The little-endian `u64` encoding (`little_endian.dfy`) is shared with the
  header's length field.
- **Disk** (`disk_header.dfy`, `reservations.dfy`, `disk.dfy`):
  - the header layout and what opening a file does to it, as functions on
    byte sequences (module `DiskHeader`);
  - the bump allocator as functions on values, with lemmas about runs of
    reservations (module `Reservations`);
  - the `Disk` class, which holds the mapping as an `array<u8>` plus the
    fields `writeOffset`, `locked` and `busy`. Its methods are proved
    against those functions (module `Disks`).

`storage.dfy` holds the shared declarations: the error kinds, `U64_SIZE`,
the byte and `u64` types, and the wrap-around of a 64-bit atomic counter.

Every operation is modelled as one atomic step over sequential state. The
mapped file's contents at open time are a parameter (`file`), and so are
the creation timestamp (`createdAt`) and the outcome of each OS sync
(`syncOk`).

Points where the code behaves in ways one might not expect. The model
follows the code on each.

- The stored metadata length is the length of the serialized record with
  its tag, which is 9. `DiskMetadata::size()` is 8, the payload only. A
  fresh file therefore starts writing at offset 19.
- Any byte-0 value other than 1 counts as uninitialized
  (crates/storage/src/disk.rs:132). The header table at
  crates/storage/src/disk.rs:40 documents only 0 as "uninitialized".
- On a fresh file, `locked` is byte 1 as it was *before* initialization
  writes 0 there. A fresh file whose byte 1 was 1 therefore opens locked in
  memory while its file says unlocked, and a reopen then comes up unlocked
  (`DiskHeader.FreshOpenLayout`, `DiskHeader.ReopenIsStable`).
- `busy` is commented as tracking active writes
  (crates/storage/src/disk.rs:28). A successful `write` increments it and
  decrements it again (crates/storage/src/disk.rs:187, 204), so its net
  effect is zero. `flush` decrements it once more
  (crates/storage/src/disk.rs:211), wrapping at zero.
- An initialized file whose record is longer than 9 bytes is accepted. The
  bytes after the first 9 are ignored, and the write offset starts after
  the whole stored length.

## Model

| member | source | states |
|---|---|---|
| Storage.WrappingIncrement | crates/storage/src/disk.rs:187 | `fetch_add(1)` on the busy counter is the successor modulo 2^64 |
| Storage.WrappingDecrement | crates/storage/src/disk.rs:211 | `fetch_sub(1)` is the predecessor modulo 2^64: adding one to the result gives the input back, so 0 goes to 2^64 - 1 |
| Storage.DecrementUndoesIncrement | crates/storage/src/disk.rs:187-204 | the increment and decrement around a successful write cancel, even across the wrap |
| LittleEndian.ToLeBytes | crates/storage/src/disk_metadata.rs:28 | `to_le_bytes` yields 8 bytes whose little-endian value is the input |
| LittleEndian.FromLeBytes | crates/storage/src/disk_metadata.rs:55 | `from_le_bytes` on 8 bytes yields the value whose encoding is exactly those bytes |
| LittleEndian.FromLEOfToLE | crates/storage/src/disk.rs:154-165 | decoding the n-byte little-endian encoding of x gives x (the header length is written at 154 and read back at 165) |
| LittleEndian.ToLEOfFromLE | crates/storage/src/disk.rs:164-165 | encoding the value of any byte string gives the same bytes back, so every 8-byte length field decodes to exactly one value |
| LittleEndian.FromLeBytesOfToLeBytes | crates/storage/src/disk_metadata.rs:28-55 | the created_at payload round-trips through the 8-byte encoding |
| Cursors.Cursor.constructor | crates/storage/src/cursor/mod.rs:24-62 | every constructor starts at position 0, last consumed size 0, no starting position, and length the length of the data |
| Cursors.Cursor.SetStartingPos | crates/storage/src/cursor/mod.rs:54-58 | sets the starting position to Some(p) and moves to p |
| Cursors.Cursor.GetRange | crates/storage/src/cursor/mod.rs:64-72 | returns end - start bytes, byte i being data[start + i]; a range outside the data is excluded, as the slice would panic |
| Cursors.Cursor.Peek | crates/storage/src/cursor/mod.rs:74-82 | fails with InvalidRange exactly when position + size > len, otherwise returns the size bytes starting at position; reads the state without changing it |
| Cursors.Cursor.Consume | crates/storage/src/cursor/mod.rs:84-90 | returns what Peek would; on success it advances the position by size and records size as the last consumed size, and on failure it changes nothing |
| Cursors.Cursor.SetBack | crates/storage/src/cursor/mod.rs:92-94 | moves back by steps, which must not exceed the position (the subtraction underflows otherwise) |
| Cursors.Cursor.Forward | crates/storage/src/cursor/mod.rs:96-98 | moves forward by steps, unchecked |
| Cursors.Cursor.MoveTo | crates/storage/src/cursor/mod.rs:100-102 | sets the position, unchecked |
| Cursors.Cursor.Reset | crates/storage/src/cursor/mod.rs:104-107 | returns to the starting position, or to 0 when none is set, and clears the last consumed size |
| Cursors.Cursor.IsEof | crates/storage/src/cursor/mod.rs:109-111 | at the end exactly when not even one more byte can be peeked |
| Cursors.ForwardThenSetBack | crates/storage/src/cursor/mod.rs:92-98 | forward(k) followed by set_back(k) restores the position and touches no other field |
| Cursors.ResetReturnsToStart | crates/storage/src/cursor/mod.rs:54-107 | after set_starting_pos(p), a move_to(q) followed by reset comes back to p, and the starting position stays p |
| Cursors.HelloWorld | crates/storage/src/cursor/mod.rs:118-128 | on "Hello World", consuming 5 gives "Hello", then 6 gives " World", then 1 more fails with InvalidRange |
| Metadata.LeIdentifier | crates/storage/src/disk_metadata.rs:16-20 | the version identifier is a single byte (0 for V1) |
| Metadata.ToVec | crates/storage/src/disk_metadata.rs:22-33 | the record is 9 bytes: the identifier, then 8 bytes whose little-endian value is created_at |
| Metadata.Size | crates/storage/src/disk_metadata.rs:35-42 | the size is that of the payload alone: one less than the serialized length |
| Metadata.TryFrom | crates/storage/src/disk_metadata.rs:46-62 | decoding succeeds exactly when the tag is 0, and then the first 9 input bytes are the serialization of the result; an empty input, or tag 0 with fewer than 8 payload bytes, is excluded because the unwrap panics |
| Metadata.RoundTrip | crates/storage/src/disk_metadata.rs:46-62 | decoding a serialized record gives the record back, whatever bytes follow it |
| Metadata.DecodeIgnoresTrailing | crates/storage/src/disk_metadata.rs:51-55 | decoding reads only the first 9 bytes: appending bytes does not change the result |
| Metadata.UnknownTagRejected | crates/storage/src/disk_metadata.rs:52-60 | a first byte other than 0 yields Err(()), never a misread value |
| Reservations.Reserve | crates/storage/src/disk.rs:105-119 | one reservation: a locked one returns Locked and keeps the offset; an unlocked one always advances the offset by size, is granted exactly when it ends within the capacity, and then returns the old offset, failing otherwise with CapacityReached; the offset never decreases |
| Reservations.ReserveBoundary | crates/storage/src/disk.rs:114-118 | a range ending exactly at the capacity is granted; one byte more fails with CapacityReached and still advances the offset |
| Reservations.ReserveAll | crates/storage/src/disk.rs:105-119 | a run of reservations yields one result per request |
| Reservations.ReserveAllOffset | crates/storage/src/disk.rs:112 | after a run the offset has moved by the sum of all requested sizes, failed requests included |
| Reservations.ReserveAllResult | crates/storage/src/disk.rs:105-119 | the i-th reservation starts at the offset plus the sizes requested before it, and is granted exactly when it ends within the capacity |
| Reservations.ReserveAllDisjoint | crates/storage/src/disk.rs:112-118 | granted ranges lie at or above the starting offset, within the capacity, and are pairwise disjoint in request order |
| Reservations.CapacityIsCeiling | crates/storage/src/disk.rs:112-118 | once a reservation fails on capacity, every later one in the run fails too |
| Reservations.ReserveAllTiles | crates/storage/src/disk.rs:112-118 | when the total fits, every request is granted and the ranges tile [offset, offset + total) without gaps |
| Reservations.SpaceLimitRun | crates/storage/src/disk.rs:385-433 | with 9 free bytes from offset 19 on a 28-byte disk, reserving 4 then 8, or 8 then 4, grants exactly the first one and fails the second with CapacityReached |
| DiskHeader.SetLen | crates/storage/src/disk.rs:56 | setting the file length to the capacity keeps the bytes below the capacity and zero-fills the rest |
| DiskHeader.Splice | crates/storage/src/disk.rs:154-155 | a slice copy replaces exactly the target bytes and keeps the length and every other byte |
| DiskHeader.StoredMetadataLength | crates/storage/src/disk.rs:164-165 | the metadata length is the value whose 8-byte encoding is bytes 2..10 |
| DiskHeader.OpenHeader | crates/storage/src/disk.rs:127-173 | opening keeps the length of the mapping, leaves it initialized, takes locked from byte 1 as it was before opening, stores a metadata length of at least 9 whose record fits in the file, and writes nothing to an initialized file |
| DiskHeader.FreshOpenLayout | crates/storage/src/disk.rs:121-160 | opening a file whose byte 0 is not 1 writes 1 and 0 into bytes 0 and 1, the length 9 into bytes 2..10 and the record into bytes 10..19, keeps every later byte, takes locked from byte 1 as it was before, and sets the data region to start at 19 |
| DiskHeader.ExistingOpenReads | crates/storage/src/disk.rs:162-173 | opening an initialized file writes nothing, takes locked from byte 1, and takes the metadata length from bytes 2..10; that length is at least 9 and fits in the file, and bytes 10..19 are the serialization of the decoded metadata |
| DiskHeader.ReopenIsStable | crates/storage/src/disk.rs:127-173 | opening what an open left behind succeeds, writes nothing, and yields the same metadata and metadata length whatever creation time it is given |
| Disks.CopyFromSlice | crates/storage/src/disk.rs:196-202 | the byte copy into the mapping writes the data at the target offset and changes no other byte |
| Disks.Disk.GrantsDisjoint | crates/storage/src/disk.rs:112 | no two ranges granted by the disk overlap |
| Disks.Disk.New | crates/storage/src/disk.rs:45-78 | opening sets the mapping, lock flag, metadata and metadata length to what `DiskHeader.OpenHeader` gives for the file resized to the capacity, the write offset to 10 plus the metadata length, and busy to 0 |
| Disks.Disk.ReadMetadata | crates/storage/src/disk.rs:127-143 | reads the two flag bytes through a cursor, then reads or creates the metadata, with the outcome `DiskHeader.OpenHeader` gives |
| Disks.Disk.InitializeFile | crates/storage/src/disk.rs:121-125 | writes 1 into byte 0 and 0 into byte 1 and nothing else |
| Disks.Disk.CreateAndStoreMetadata | crates/storage/src/disk.rs:145-160 | stores the encoded record length (9) at byte 2 and the record at byte 10, and returns V1(created_at) and that length |
| Disks.Disk.ReadExistingMetadata | crates/storage/src/disk.rs:162-173 | consumes the 8-byte length and that many record bytes, and returns the decoded record and the length |
| Disks.Disk.IsLocked | crates/storage/src/disk.rs:176-178 | the lock query is the in-memory lock flag |
| Disks.Disk.SetLocked | crates/storage/src/disk.rs:85-102 | sets locked and byte 1 of the mapping (1 or 0) and nothing else; fails with InvalidFlushing, after the update, when the sync fails |
| Disks.Disk.ReserveSpace | crates/storage/src/disk.rs:105-119 | one step of the allocator: refused when locked, otherwise advances the offset by size and grants the old offset unless the range ends past the capacity; keeps every granted range disjoint from the earlier ones |
| Disks.Disk.Write | crates/storage/src/disk.rs:180-207 | refused with Locked and no change when locked; otherwise copies the data to start_at, changes no other byte and leaves busy as it was |
| Disks.Disk.Flush | crates/storage/src/disk.rs:209-213 | decrements busy by exactly one, wrapping at zero, and touches neither the mapping nor the write offset; fails with InvalidFlushing when the sync fails |
| Disks.CreationScenario | crates/storage/src/disk.rs:228-245 | a fresh 1024-byte file opens unlocked with write offset 19, and reopening it gives the same created_at |
| Disks.ReserveAndWrite | crates/storage/src/disk.rs:296-297 | on an unlocked disk with room for the data, a reservation returns the write offset and the write there succeeds, leaving the disk unlocked and the offset advanced by the data's length |
| Disks.LockUnlockSteps | crates/storage/src/disk.rs:294-317 | on any unlocked disk with 8 free bytes: reserve and write succeed, reserve fails with Locked after set_locked(true), and after set_locked(false) the reserve returns the next offset and the write succeeds |
| Disks.LockingScenario | crates/storage/src/disk.rs:291-318 | reserve and write succeed unlocked, reserve fails with Locked after set_locked(true), and succeeds again after set_locked(false) |
| Disks.SpaceLimitScenario | crates/storage/src/disk.rs:380-434 | on a fresh 28-byte file, of a 4-byte and an 8-byte reservation in either order, exactly one is granted and the other fails with CapacityReached |

## Left out

- Concurrency: memory orderings, threads, barriers, and the race windows
  between the lock check and the reservation or the write. Each operation
  is one atomic step, so disjointness of reservations is a sequential
  invariant (`Disk.Valid`). The tests at crates/storage/src/disk.rs:248-288,
  333-377 and 437-476 exercise threads, so they are not modelled.
- Disks.Disk.Write: the second lock check (crates/storage/src/disk.rs:191-194)
  is not modelled. It can only fire when another thread sets the lock
  between the two checks, and in a sequential model it can never fire.
- Disks.Disk.New: file creation, `set_len` as an OS call and `map_mut` are
  left out. The file's prior contents are a parameter and `SetLen` gives
  the mapped bytes. Failure of these calls, and of the flushes during open,
  is a panic in the source and is not modelled. The fields `id`,
  `max_items`, `path` and `file` are advisory or OS handles, and are left
  out.
- Disks.Disk.New: the panics while reading the header (a file shorter than
  the header, a stored length past the end, an unknown or truncated record)
  are a precondition, `CanOpen`, rather than an error result, because the
  source aborts the open there.
- Disks.Disk.ReserveSpace: `write_offset` and `offset + size` are unbounded
  naturals. The `usize` wrap-around of `fetch_add` and the overflow of the
  sum are not modelled.
- The target is assumed to be 64-bit, so `usize` has 64 bits. Two things
  depend on this. `busy` is an `AtomicUsize` and wraps at 2^64. The metadata
  length at crates/storage/src/disk.rs:154 is a `usize` whose 8 bytes fill
  bytes 2..10 (on a 32-bit target that copy would panic).
- Cursor positions and sizes are unbounded naturals, so `forward` and
  `consume` cannot overflow `usize` in the model.
- The OS sync inside `mmap.flush()` is the `syncOk` parameter. Its
  durability is out of scope.
- `Uuid::new_v4`, `SystemTime::now` and `get_created_at`
  (crates/storage/src/utils.rs:3-8) are replaced by the `createdAt`
  parameter. The test helper `get_file` and the commented-out iterator
  code are left out.
- `curr_writing_offset` (crates/storage/src/disk.rs:80-82) is never called
  and is left out.
- Returned byte ranges are values (copies), not borrowed views into the
  mapping.
