/**
 * The disk: a file of fixed capacity mapped in full, a header parsed or
 * created on open, and a bump allocator handing out byte ranges of the data
 * region. Every operation runs as one atomic step.
 */
module Disks {
  import opened Storage
  import opened LittleEndian
  import opened Metadata
  import opened Cursors
  import opened DiskHeader
  import opened Reservations

  /** Copies `d` into `a` from index `at` on; every other byte is kept. */
  method CopyFromSlice(a: array<u8>, at: nat, d: seq<u8>)
    requires at + |d| <= a.Length
    modifies a
    ensures a[..] == Splice(old(a[..]), at, d)
  {
    var i := 0;
    while i < |d|
      invariant 0 <= i <= |d|
      invariant forall k :: 0 <= k < a.Length ==>
        a[k] == if at <= k < at + i then d[k - at] else old(a[k])
    {
      a[at + i] := d[i];
      i := i + 1;
    }
    assert a[..] == Splice(old(a[..]), at, d);
  }

  class Disk {
    /** Size of the file in bytes, fixed when it is opened. */
    const capacity: u64
    /** The mapped file. */
    const mmap: array<u8>
    /** The metadata found in or written to the header. */
    const metadata: DiskMetadata
    /** The stored metadata length: the record with its tag. */
    const metadataSize: nat
    /** Next free byte. */
    var writeOffset: nat
    var locked: bool
    /** A 64-bit counter incremented and decremented around each write (net zero); `Flush` decrements it once more, wrapping at zero. */
    var busy: u64
    /** The ranges granted so far by `ReserveSpace`, in order. */
    ghost var grants: seq<Range>

    /** First byte of the data region. */
    function DataStart(): nat {
      COMMIT_LOG_INITIAL_HEADER_SIZE + metadataSize
    }

    /**
     * The mapping covers the file, the data region starts after the header,
     * and every granted range lies in the data region, within the capacity,
     * below the write offset and after the ranges granted before it.
     */
    ghost predicate Valid()
      reads this
    {
      mmap.Length == capacity
      && COMMIT_LOG_INITIAL_HEADER_SIZE <= capacity
      && DataStart() <= writeOffset
      && (forall k :: 0 <= k < |grants| ==>
            DataStart() <= grants[k].start && grants[k].End() <= writeOffset && grants[k].End() <= capacity)
      && (forall j, k :: 0 <= j < k < |grants| ==> grants[j].End() <= grants[k].start)
    }

    /** Granted ranges never overlap. */
    lemma GrantsDisjoint(j: nat, k: nat)
      requires Valid()
      requires j < |grants| && k < |grants| && j != k
      ensures grants[j].End() <= grants[k].start || grants[k].End() <= grants[j].start
    {
    }

    /**
     * Opens the file whose current contents are `file`: sets its length to
     * `capacity`, maps it and parses or initializes the header, using
     * `createdAt` as the creation time of a new record.
     */
    constructor New(capacity: u64, file: seq<u8>, createdAt: u64)
      requires CanOpen(SetLen(file, capacity))
      ensures Valid() && fresh(mmap) && this.capacity == capacity
      ensures var o := OpenHeader(SetLen(file, capacity), createdAt);
        mmap[..] == o.image && locked == o.locked && metadata == o.metadata && metadataSize == o.metadataSize
      ensures writeOffset == COMMIT_LOG_INITIAL_HEADER_SIZE + metadataSize
      ensures busy == 0 && grants == []
    {
      var image := SetLen(file, capacity);
      var m := new u8[capacity](i requires 0 <= i < capacity => image[i]);
      assert m[..] == image;
      var l, md, size := ReadMetadata(m, createdAt);
      this.capacity := capacity;
      mmap := m;
      metadata := md;
      metadataSize := size;
      writeOffset := COMMIT_LOG_INITIAL_HEADER_SIZE + size;
      locked := l;
      busy := 0;
      grants := [];
    }

    /** Parses the header, or initializes it when byte 0 is not 1. */
    static method ReadMetadata(m: array<u8>, createdAt: u64) returns (locked: bool, metadata: DiskMetadata, metadataSize: nat)
      requires CanOpen(m[..])
      modifies m
      ensures var o := OpenHeader(old(m[..]), createdAt);
        m[..] == o.image && locked == o.locked && metadata == o.metadata && metadataSize == o.metadataSize
    {
      var cursor := new Cursor(m[..]);
      var flags := cursor.Consume(2);
      var initialized := flags.value[0] == 1;
      locked := flags.value[1] == 1;
      if initialized {
        metadata, metadataSize := ReadExistingMetadata(cursor);
      } else {
        InitializeFile(m);
        metadata, metadataSize := CreateAndStoreMetadata(m, createdAt);
      }
    }

    /** Marks the file initialized and unlocked. */
    static method InitializeFile(m: array<u8>)
      requires m.Length >= 2
      modifies m
      ensures m[..] == Splice(Splice(old(m[..]), 0, [1]), 1, [0])
    {
      m[0] := 1;
      m[1] := 0;
    }

    /** Stores a new record with its length after the two flags. */
    static method CreateAndStoreMetadata(m: array<u8>, createdAt: u64) returns (metadata: DiskMetadata, metadataLength: nat)
      requires m.Length >= COMMIT_LOG_INITIAL_HEADER_SIZE + 1 + U64_SIZE
      modifies m
      ensures metadata == V1(createdAt) && metadataLength == |ToVec(metadata)|
      ensures m[..] == Splice(Splice(old(m[..]), 2, ToLeBytes(metadataLength)), COMMIT_LOG_INITIAL_HEADER_SIZE, ToVec(metadata))
    {
      metadata := V1(createdAt);
      var metadataBytes := ToVec(metadata);
      metadataLength := |metadataBytes|;
      CopyFromSlice(m, 2, ToLeBytes(metadataLength));
      CopyFromSlice(m, COMMIT_LOG_INITIAL_HEADER_SIZE, metadataBytes);
    }

    /** Reads the metadata length and then the record, from a cursor standing after the two flags. */
    static method ReadExistingMetadata(cursor: Cursor) returns (metadata: DiskMetadata, metadataSize: nat)
      requires cursor.Valid() && cursor.position == 2
      requires IsInitialized(cursor.data) && ExistingHeaderReadable(cursor.data)
      modifies cursor
      ensures var n := StoredMetadataLength(cursor.data);
        metadataSize == n
        && metadata == TryFrom(cursor.data[COMMIT_LOG_INITIAL_HEADER_SIZE..COMMIT_LOG_INITIAL_HEADER_SIZE + n]).value
        && cursor.position == COMMIT_LOG_INITIAL_HEADER_SIZE + n
    {
      var sizeBytes := cursor.Consume(U64_SIZE);
      var size := FromLeBytes(sizeBytes.value);
      assert sizeBytes.value == cursor.data[2..COMMIT_LOG_INITIAL_HEADER_SIZE];
      var metadataBytes := cursor.Consume(size);
      assert metadataBytes.value == cursor.data[COMMIT_LOG_INITIAL_HEADER_SIZE..COMMIT_LOG_INITIAL_HEADER_SIZE + size];
      metadata := TryFrom(metadataBytes.value).value;
      metadataSize := size;
    }

    /** The in-memory lock flag, which gates reservations and writes. */
    predicate IsLocked(): (r: bool)
      reads this
      ensures r == locked
    {
      locked
    }

    /**
     * Sets the lock flag in memory and in byte 1 of the file, then syncs the
     * mapping; `syncOk` is the outcome of the sync. The flag is set whatever
     * the outcome.
     */
    method SetLocked(lock: bool, syncOk: bool) returns (r: Result<(), DiskError>)
      requires Valid()
      modifies this`locked, mmap
      ensures Valid()
      ensures locked == lock
      ensures mmap[..] == old(mmap[..])[1 := if lock then 1 else 0]
      ensures r == if syncOk then Ok(()) else Err(InvalidFlushing)
    {
      locked := lock;
      var lockFlag: u8 := if lock then 1 else 0;
      mmap[1] := lockFlag;
      r := if syncOk then Ok(()) else Err(InvalidFlushing);
    }

    /**
     * Reserves `size` bytes at the write offset, as one step of the allocator:
     * refused when locked; otherwise the offset advances by `size` and the old
     * offset is granted unless the range would end past the capacity.
     */
    method ReserveSpace(size: nat) returns (r: Result<nat, DiskError>)
      requires Valid()
      modifies this`writeOffset, this`grants
      ensures Valid()
      ensures Step(r, writeOffset) == Reserve(locked, old(writeOffset), capacity, size)
      ensures writeOffset >= old(writeOffset)
      ensures grants == if r.Ok? then old(grants) + [Range(r.value, size)] else old(grants)
    {
      if IsLocked() {
        return Err(Locked);
      }
      var offset := writeOffset;
      writeOffset := writeOffset + size;
      if offset + size > capacity {
        r := Err(CapacityReached);
      } else {
        r := Ok(offset);
        grants := grants + [Range(offset, size)];
      }
    }

    /**
     * Copies `data` into the file from `startAt` on. Refused, with nothing
     * changed, when locked. The range is not checked against the
     * reservations; it must lie inside the file.
     */
    method Write(data: seq<u8>, startAt: nat) returns (r: Result<(), DiskError>)
      requires Valid()
      requires !locked ==> startAt + |data| <= mmap.Length
      modifies this`busy, mmap
      ensures Valid()
      ensures r == if old(locked) then Err(Locked) else Ok(())
      ensures busy == old(busy)
      ensures mmap[..] == if r.Ok? then Splice(old(mmap[..]), startAt, data) else old(mmap[..])
    {
      if IsLocked() {
        return Err(Locked);
      }
      busy := WrappingIncrement(busy);
      CopyFromSlice(mmap, startAt, data);
      busy := WrappingDecrement(busy);
      DecrementUndoesIncrement(old(busy));
      r := Ok(());
    }

    /** Decrements `busy` by one, wrapping at zero; then syncs the mapping. */
    method Flush(syncOk: bool) returns (r: Result<(), DiskError>)
      requires Valid()
      modifies this`busy
      ensures Valid()
      ensures busy == WrappingDecrement(old(busy))
      ensures r == if syncOk then Ok(()) else Err(InvalidFlushing)
    {
      busy := WrappingDecrement(busy);
      r := if syncOk then Ok(()) else Err(InvalidFlushing);
    }
  }

  /**
   * A client: a fresh file of 1024 bytes opens unlocked with the write offset
   * at 19, and opening what it left behind yields the same creation time.
   */
  method CreationScenario(createdAt: u64, laterCreatedAt: u64) returns (first: Disk, second: Disk)
    ensures !first.locked && first.writeOffset == 19 && first.metadata == V1(createdAt)
    ensures second.metadata == first.metadata && second.writeOffset == 19
  {
    FreshOpenLayout(SetLen([], 1024), createdAt);
    first := new Disk.New(1024, [], createdAt);
    ReopenIsStable(SetLen([], 1024), createdAt, laterCreatedAt);
    assert SetLen(first.mmap[..], 1024) == first.mmap[..];
    second := new Disk.New(1024, first.mmap[..], laterCreatedAt);
  }

  /** Reserves room for `data` on an unlocked disk where it fits, and writes it there. */
  method ReserveAndWrite(disk: Disk, data: seq<u8>) returns (reserved: Result<nat, DiskError>, written: Result<(), DiskError>)
    requires disk.Valid() && !disk.locked && disk.writeOffset + |data| <= disk.capacity
    modifies disk, disk.mmap
    ensures disk.Valid() && !disk.locked
    ensures reserved == Ok(old(disk.writeOffset)) && written == Ok(())
    ensures disk.writeOffset == old(disk.writeOffset) + |data|
  {
    reserved := disk.ReserveSpace(|data|);
    written := disk.Write(data, reserved.value);
  }

  /**
   * The steps of the locking client on an unlocked disk with at least eight
   * free bytes: two reservations and writes around a lock and an unlock.
   */
  method LockUnlockSteps(disk: Disk)
    returns (reserved: Result<nat, DiskError>, written: Result<(), DiskError>,
             whileLocked: Result<nat, DiskError>, afterUnlock: Result<nat, DiskError>,
             writtenAfterUnlock: Result<(), DiskError>)
    requires disk.Valid() && !disk.locked && disk.writeOffset + 8 <= disk.capacity
    modifies disk, disk.mmap
    ensures reserved == Ok(old(disk.writeOffset)) && written == Ok(())
    ensures whileLocked == Err(Locked)
    ensures afterUnlock == Ok(old(disk.writeOffset) + 4) && writtenAfterUnlock == Ok(())
  {
    reserved, written := ReserveAndWrite(disk, [1, 2, 3, 4]);
    var _ := disk.SetLocked(true, true);
    whileLocked := disk.ReserveSpace(4);
    var _ := disk.SetLocked(false, true);
    afterUnlock, writtenAfterUnlock := ReserveAndWrite(disk, [5, 6, 7, 8]);
  }

  /**
   * A client: on a fresh 1024-byte file, a reservation and write succeed
   * while unlocked, a reservation fails while locked, and succeeds again once
   * unlocked.
   */
  method LockingScenario(createdAt: u64)
    returns (reserved: Result<nat, DiskError>, written: Result<(), DiskError>,
             whileLocked: Result<nat, DiskError>, afterUnlock: Result<nat, DiskError>,
             writtenAfterUnlock: Result<(), DiskError>)
    ensures reserved == Ok(19) && written == Ok(())
    ensures whileLocked == Err(Locked)
    ensures afterUnlock == Ok(23) && writtenAfterUnlock == Ok(())
  {
    FreshOpenLayout(SetLen([], 1024), createdAt);
    var disk := new Disk.New(1024, [], createdAt);
    reserved, written, whileLocked, afterUnlock, writtenAfterUnlock := LockUnlockSteps(disk);
  }

  /**
   * A client: on a fresh 28-byte file, of a 4-byte and an 8-byte reservation,
   * in either order, exactly one is granted and the other fails on capacity.
   */
  method SpaceLimitScenario(createdAt: u64, fourFirst: bool)
    returns (four: Result<nat, DiskError>, eight: Result<nat, DiskError>)
    ensures (four.Ok? && eight == Err(CapacityReached)) || (eight.Ok? && four == Err(CapacityReached))
  {
    FreshOpenLayout(SetLen([], 28), createdAt);
    var disk := new Disk.New(28, [], createdAt);
    if fourFirst {
      four := disk.ReserveSpace(4);
      eight := disk.ReserveSpace(8);
    } else {
      eight := disk.ReserveSpace(8);
      four := disk.ReserveSpace(4);
    }
  }
}
