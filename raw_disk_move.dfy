/**
 * `RawDiskMoveService`'s move operation: lock and dismount the volume, copy
 * the partition's bytes chunk by chunk, rewrite the partition table entry
 * that started at the old offset, and always unlock and release the volume.
 */
module RawDiskMove {
  import opened Common
  import opened NativeDisk
  import opened SectorCopy

  // ------------------------------------------------- partition table entry

  /**
   * The loop of `UpdatePartitionTableEntry` from entry `i` on: the first
   * entry below `count` whose StartingOffset is `target`, `None` when there
   * is none, or the fault of the first read that leaves the buffer. A
   * found entry lies in range and starts at `target`; the only fault is a
   * read outside the buffer.
   */
  function Scan(layout: seq<uint8>, i: nat, count: int, target: int): (r: Result<Option<nat>, Failure>)
    ensures r.Ok? && r.value.Some? ==>
      (i <= r.value.value < count
       && ReadEntryStartingOffset(layout, r.value.value).Ok?
       && ReadEntryStartingOffset(layout, r.value.value).value == target)
    ensures r.Err? ==> r.error == OutOfRange
    decreases count - i
  {
    if i >= count then Ok(None)
    else
      match ReadEntryStartingOffset(layout, i)
      case Err(e) => Err(e)
      case Ok(v) => if v == target then Ok(Some(i)) else Scan(layout, i + 1, count, target)
  }

  /** Entry `k` can be read and does not start at `target`. */
  predicate Passed(layout: seq<uint8>, k: nat, target: int) {
    ReadEntryStartingOffset(layout, k).Ok? && ReadEntryStartingOffset(layout, k).value != target
  }

  /** A found entry is the first match from `i` on. */
  lemma {:induction false} ScanFound(layout: seq<uint8>, i: nat, count: int, target: int, j: nat)
    requires Scan(layout, i, count, target) == Ok(Some(j))
    ensures i <= j < count
    ensures ReadEntryStartingOffset(layout, j).Ok? && ReadEntryStartingOffset(layout, j).value == target
    ensures forall k :: i <= k < j ==> Passed(layout, k, target)
    decreases count - i
  {
    var r := ReadEntryStartingOffset(layout, i);
    if r.value != target {
      ScanFound(layout, i + 1, count, target, j);
    }
  }

  /** Nothing is found exactly when every entry below `count` can be read and none matches. */
  lemma {:induction false} ScanNone(layout: seq<uint8>, i: nat, count: int, target: int)
    ensures Scan(layout, i, count, target) == Ok(None) <==> forall k :: i <= k < count ==> Passed(layout, k, target)
    decreases count - i
  {
    if i < count {
      ScanNone(layout, i + 1, count, target);
      if Scan(layout, i, count, target) != Ok(None) {
        assert !Passed(layout, i, target) || Scan(layout, i + 1, count, target) != Ok(None);
      }
    }
  }

  /** Within the 128 entries the buffer holds, the scan never faults. */
  lemma {:induction false} ScanInBuffer(layout: seq<uint8>, i: nat, count: int, target: int)
    requires |layout| == DriveLayoutBufferSize && count <= MaxLayoutEntries
    ensures Scan(layout, i, count, target).Ok?
    decreases count - i
  {
    if i < count {
      assert StartingOffsetPos(i) + 8 <= DriveLayoutBufferSize;
      ScanInBuffer(layout, i + 1, count, target);
    }
  }

  /**
   * The layout `UpdatePartitionTableEntry` hands to `SetDriveLayout`: the
   * first entry starting at `oldOffset` now starts at `newOffset` and is
   * marked for rewriting.
   */
  function UpdatedLayout(layout: seq<uint8>, oldOffset: int64, newOffset: int64): (r: Result<seq<uint8>, Failure>)
    ensures |layout| < 8 ==> r == Err(OutOfRange)
    ensures r.Ok? ==> |r.value| == |layout|
    ensures r.Err? ==> r.error == OutOfRange || r.error == PartitionNotFound(oldOffset)
  {
    match GetPartitionCount(layout)
    case Err(e) => Err(e)
    case Ok(count) =>
      match Scan(layout, 0, count, oldOffset)
      case Err(e) => Err(e)
      case Ok(None) => Err(PartitionNotFound(oldOffset))
      case Ok(Some(i)) =>
        if StartingOffsetPos(i) + 8 <= |layout| && RewriteFlagPos(i) < |layout| then
          Ok(WithRewriteFlag(WithStartingOffset(layout, i, newOffset), i))
        else
          Err(OutOfRange)
  }

  /**
   * What the update does to the table: entry `i`, the first one at the old
   * offset, now starts at the new offset and is flagged; every other
   * entry's offset and flag, and the buffer's length, are unchanged.
   */
  lemma UpdatedLayoutMovesEntry(layout: seq<uint8>, oldOffset: int64, newOffset: int64)
    requires UpdatedLayout(layout, oldOffset, newOffset).Ok?
    ensures var updated := UpdatedLayout(layout, oldOffset, newOffset).value;
      && |updated| == |layout|
      && exists i: nat :: i < GetPartitionCount(layout).value
          && ReadEntryStartingOffset(layout, i) == Ok(oldOffset)
          && (forall k :: 0 <= k < i ==> Passed(layout, k, oldOffset))
          && ReadEntryStartingOffset(updated, i) == Ok(newOffset)
          && RewriteFlag(updated, i) == Ok(1)
          && (forall j: nat :: j != i ==> ReadEntryStartingOffset(updated, j) == ReadEntryStartingOffset(layout, j))
          && (forall j: nat :: j != i ==> RewriteFlag(updated, j) == RewriteFlag(layout, j))
  {
    var count := GetPartitionCount(layout).value;
    var i :| Scan(layout, 0, count, oldOffset) == Ok(Some(i));
    ScanFound(layout, 0, count, oldOffset, i);
    var moved := WithStartingOffset(layout, i, newOffset);
    var updated := WithRewriteFlag(moved, i);
    ReadAfterWrite(layout, i, newOffset);
    SetFlagKeepsOffsets(moved, i, i);
    WriteKeepsOtherFields(layout, i, newOffset, i);
    forall j: nat | j != i
      ensures ReadEntryStartingOffset(updated, j) == ReadEntryStartingOffset(layout, j)
      ensures RewriteFlag(updated, j) == RewriteFlag(layout, j)
    {
      WriteKeepsOtherFields(layout, i, newOffset, j);
      SetFlagKeepsOffsets(moved, i, j);
    }
  }

  /**
   * The update reports a missing partition exactly when every entry the
   * count covers can be read and none starts at the old offset.
   */
  lemma UpdatedLayoutNotFound(layout: seq<uint8>, oldOffset: int64, newOffset: int64)
    requires |layout| >= 8
    ensures UpdatedLayout(layout, oldOffset, newOffset) == Err(PartitionNotFound(oldOffset))
            <==> forall k :: 0 <= k < GetPartitionCount(layout).value ==> Passed(layout, k, oldOffset)
  {
    var count := GetPartitionCount(layout).value;
    ScanNone(layout, 0, count, oldOffset);
  }

  /**
   * For a buffer the size `GetDriveLayout` allocates, whose count is at
   * most 128, the update either finds the entry or reports it missing;
   * no read leaves the buffer.
   */
  lemma UpdatedLayoutInBuffer(layout: seq<uint8>, oldOffset: int64, newOffset: int64)
    requires |layout| == DriveLayoutBufferSize
    requires GetPartitionCount(layout).value <= MaxLayoutEntries
    ensures UpdatedLayout(layout, oldOffset, newOffset).Ok?
            || UpdatedLayout(layout, oldOffset, newOffset) == Err(PartitionNotFound(oldOffset))
  {
    var count := GetPartitionCount(layout).value;
    ScanInBuffer(layout, 0, count, oldOffset);
    var s := Scan(layout, 0, count, oldOffset);
    if s.value.Some? {
      ScanFound(layout, 0, count, oldOffset, s.value.value);
      assert RewriteFlagPos(s.value.value) < DriveLayoutBufferSize;
    }
  }

  /**
   * The effect of `UpdatePartitionTableEntry` on the trace and the stored
   * table: a failed read of the layout ends it; a missing entry (or a read
   * outside the buffer) throws before anything is written; otherwise the
   * updated layout is written back, and is stored if that call succeeds.
   */
  predicate UpdateEffect(t0: seq<Event>, t: seq<Event>, layout0: seq<uint8>, layout: seq<uint8>,
                         fails: nat -> bool, oldOffset: int64, newOffset: int64, r: Result<(), Failure>)
  {
    var updated := UpdatedLayout(layout0, oldOffset, newOffset);
    if fails(|t0|) then
      && r == Err(Win32(GetLayout))
      && t == t0 + [Event(GetLayout, false)]
      && layout == layout0
    else if updated.Err? then
      && r == Err(updated.error)
      && t == t0 + [Event(GetLayout, true)]
      && layout == layout0
    else
      var stored := !fails(|t0| + 1);
      && r == (if stored then Ok(()) else Err(Win32(SetLayout(updated.value))))
      && t == t0 + [Event(GetLayout, true), Event(SetLayout(updated.value), stored)]
      && layout == (if stored then updated.value else layout0)
  }

  /**
   * `UpdatePartitionTableEntry`: read the layout, find the first entry at
   * `oldOffset`, move it to `newOffset` and flag it, then write the layout
   * back.
   */
  method UpdatePartitionTableEntry(dev: Device, oldOffset: int64, newOffset: int64) returns (r: Result<(), Failure>)
    requires dev.Valid()
    modifies dev`trace, dev`layout
    ensures dev.Valid()
    ensures UpdateEffect(old(dev.trace), dev.trace, old(dev.layout), dev.layout, dev.fails, oldOffset, newOffset, r)
  {
    var ok, buffer := dev.GetDriveLayout();
    if !ok {
      return Err(Win32(GetLayout));
    }
    ghost var t1 := dev.trace;
    r := PatchLayout(buffer, oldOffset, newOffset);
    assert dev.trace == t1 && dev.layout == old(dev.layout);
    if r.Err? {
      return;
    }
    ok := dev.SetDriveLayout(buffer);
    if !ok {
      return Err(Win32(SetLayout(buffer[..])));
    }
    r := Ok(());
  }

  /**
   * The part of `UpdatePartitionTableEntry` that works on the buffer: find
   * the first entry at `oldOffset`, then overwrite its StartingOffset and
   * set its RewritePartition flag in place.
   */
  method PatchLayout(buffer: array<uint8>, oldOffset: int64, newOffset: int64) returns (r: Result<(), Failure>)
    requires buffer.Length == DriveLayoutBufferSize
    modifies buffer
    ensures var updated := UpdatedLayout(old(buffer[..]), oldOffset, newOffset);
      && (r.Ok? <==> updated.Ok?)
      && (r.Ok? ==> buffer[..] == updated.value)
      && (r.Err? ==> r.error == updated.error && buffer[..] == old(buffer[..]))
  {
    ghost var before := buffer[..];
    var count := GetPartitionCount(buffer[..]).value;
    var found := FindEntry(buffer, count, oldOffset);
    if found.Err? {
      assert UpdatedLayout(before, oldOffset, newOffset) == Err(found.error);
      return Err(found.error);
    }
    if found.value.None? {
      assert UpdatedLayout(before, oldOffset, newOffset) == Err(PartitionNotFound(oldOffset));
      return Err(PartitionNotFound(oldOffset));
    }
    var i := found.value.value;
    FoundEntryInBuffer(before, oldOffset, newOffset, i);
    // entry i lies in the buffer, so neither write throws
    var written := WriteEntryStartingOffset(buffer, i, newOffset);
    var flagged := SetEntryRewritePartition(buffer, i);
    assert written.Ok? && flagged.Ok?;
    r := Ok(());
  }

  /** An entry the scan finds in a full-size buffer lies in it, and the update moves exactly that entry. */
  lemma FoundEntryInBuffer(layout: seq<uint8>, oldOffset: int64, newOffset: int64, i: nat)
    requires |layout| == DriveLayoutBufferSize
    requires Scan(layout, 0, GetPartitionCount(layout).value, oldOffset) == Ok(Some(i))
    ensures StartingOffsetPos(i) + 8 <= |layout| && RewriteFlagPos(i) < |layout|
    ensures UpdatedLayout(layout, oldOffset, newOffset) == Ok(WithRewriteFlag(WithStartingOffset(layout, i, newOffset), i))
  {
    ScanFound(layout, 0, GetPartitionCount(layout).value, oldOffset, i);
  }

  /** The loop of `UpdatePartitionTableEntry`: the first of `count` entries starting at `target`. */
  method FindEntry(buffer: array<uint8>, count: int, target: int64) returns (r: Result<Option<nat>, Failure>)
    ensures r == Scan(buffer[..], 0, count, target)
  {
    var i: nat := 0;
    while i < count
      invariant Scan(buffer[..], 0, count, target) == Scan(buffer[..], i, count, target)
      decreases count - i
    {
      var entry := ReadEntryStartingOffset(buffer[..], i);
      if entry.Err? {
        return Err(entry.error);
      }
      if entry.value == target {
        return Ok(Some(i));
      }
      i := i + 1;
    }
    r := Ok(None);
  }

  // ------------------------------------------------------------------ move

  /** Calls on the volume handle, as opposed to the disk handle. */
  predicate VolumeCall(c: Call) {
    c.OpenVolumeCall? || c.Ioctl? || c.CloseVolume?
  }

  /** Every call at a trace position below `n`, except position `except`, succeeds. */
  predicate Reliable(fails: nat -> bool, n: int, except: int) {
    forall k: nat :: k < n && k != except ==> !fails(k)
  }

  /**
   * The move got as far as an open disk handle: the volume (when there is
   * one) was locked and dismounted, then the disk was opened, from event
   * `n` of the trace on.
   */
  predicate Prepared(t: seq<Event>, n: nat, volume: bool, diskNumber: int) {
    var m := if volume then n + 2 else n;
    && |t| > m
    && (volume ==> t[n] == Event(Ioctl(FSCTL_LOCK_VOLUME), true) && t[n + 1] == Event(Ioctl(FSCTL_DISMOUNT_VOLUME), true))
    && t[m] == Event(OpenDiskCall(diskNumber), true)
  }

  /** `Prepared`, preceded by a successful open of the volume when there is a drive letter. */
  predicate Started(t: seq<Event>, n: nat, driveLetter: Option<string>, diskNumber: int) {
    match driveLetter
    case None => Prepared(t, n, false, diskNumber)
    case Some(letter) =>
      |t| > n && t[n] == Event(OpenVolumeCall(VolumePath(letter)), true) && Prepared(t, n + 1, true, diskNumber)
  }

  /**
   * The calls of the `try` block, appended to `t0`: the lock (when there is
   * a volume) comes first; after the lock and the dismount only the disk
   * handle is used; an open disk is closed last; a body that never opened
   * the disk stopped at a failed call among its first ones.
   */
  predicate BodyTrace(t0: seq<Event>, t: seq<Event>, volume: bool, diskNumber: int) {
    && |t0| <= |t| && t[..|t0|] == t0
    && (volume ==> |t| > |t0| && t[|t0|].call == Ioctl(FSCTL_LOCK_VOLUME))
    && (forall k :: |t0| + (if volume then 2 else 0) <= k < |t| ==> !VolumeCall(t[k].call))
    && (Prepared(t, |t0|, volume, diskNumber) ==> t[|t| - 1] == Event(CloseDisk, true))
    && (!Prepared(t, |t0|, volume, diskNumber) ==> |t0| < |t| <= |t0| + (if volume then 3 else 1) && !t[|t| - 1].ok)
  }

  /**
   * The calls of a move on a volume, appended to `t0`: the volume is opened
   * first; if that fails nothing follows; otherwise the unlock and the close
   * of the volume come last, with only disk calls between the dismount and
   * them, and an open disk is closed before the unlock.
   */
  predicate VolumeTrace(t0: seq<Event>, t: seq<Event>, letter: string, diskNumber: int) {
    && |t0| < |t| && t[..|t0|] == t0
    && t[|t0|].call == OpenVolumeCall(VolumePath(letter))
    && (!t[|t0|].ok ==> |t| == |t0| + 1)
    && (t[|t0|].ok ==>
          && |t| >= |t0| + 3
          && t[|t| - 2].call == Ioctl(FSCTL_UNLOCK_VOLUME)
          && t[|t| - 1] == Event(CloseVolume, true)
          && (forall k :: |t0| + 3 <= k < |t| - 2 ==> !VolumeCall(t[k].call)))
    && (Started(t, |t0|, Some(letter), diskNumber) ==> t[|t| - 3] == Event(CloseDisk, true))
  }

  /**
   * What a move does to the disk and the partition table, however it ends:
   * only the destination range is written; a completed move has copied the
   * whole range, reported every byte and stored the updated table; a move
   * that does not complete leaves the table as it was; a cancelled one
   * leaves the source range intact when the copy keeps that promise
   * (`sourceSafe`), when no chunk was copied, or when the two ranges do not
   * overlap.
   */
  predicate MoveOutcome(before: seq<uint8>, after: seq<uint8>, layoutBefore: seq<uint8>, layoutAfter: seq<uint8>,
                        src: int64, dst: int64, size: int64, sourceSafe: bool, r: Result<(), Failure>, reports: seq<int>)
  {
    && |after| == |before|
    && (forall i :: 0 <= i < |before| && !(dst <= i < dst + size) ==> after[i] == before[i])
    && (r.Ok? ==> && SpanInDisk(|before|, src, dst, 0, size)
                  && after == CopyRange(before, src, dst, 0, Max0(size))
                  && ReportsValid(reports, size) && Done(reports) == Max0(size)
                  && UpdatedLayout(layoutBefore, src, dst).Ok?
                  && layoutAfter == UpdatedLayout(layoutBefore, src, dst).value)
    && (!r.Ok? ==> layoutAfter == layoutBefore)
    && (r == Err(OperationCanceled) && (sourceSafe || reports == [] || RangesDisjoint(src, dst, size)) ==>
          forall i :: src <= i < src + size && 0 <= i < |before| ==> after[i] == before[i])
    && (r.Err? ==> r.error.OperationCanceled? || r.error.Win32? || r.error in {OutOfRange, PartitionNotFound(src)})
  }

  /**
   * The `try` block of `ExecuteMove`: lock and dismount the volume when
   * there is one, open the disk, copy, update the table, and dispose of the
   * disk handle once it is open.
   */
  method MoveBody(dev: Device, diskNumber: int, volume: bool, src: int64, dst: int64, size: int64,
                  cancelled: nat -> bool, sourceSafe: bool)
    returns (r: Result<(), Failure>, reports: seq<int>)
    requires dev.Valid()
    modifies dev`trace, dev`position, dev`disk, dev`layout
    ensures dev.Valid()
    ensures BodyTrace(old(dev.trace), dev.trace, volume, diskNumber)
    ensures !Prepared(dev.trace, |old(dev.trace)|, volume, diskNumber) ==>
              r.Err? && r.error.Win32? && dev.disk == old(dev.disk) && dev.layout == old(dev.layout)
    ensures MoveOutcome(old(dev.disk), dev.disk, old(dev.layout), dev.layout, src, dst, size, sourceSafe, r, reports)
    ensures r == Err(OperationCanceled) ==> Honours(cancelled, sourceSafe, src, dst, size, |reports|)
    ensures (Reliable(dev.fails, |dev.trace|, -1)
             && SpanInDisk(|old(dev.disk)|, src, dst, 0, size) && UpdatedLayout(old(dev.layout), src, dst).Ok?)
            ==> r.Ok? || r == Err(OperationCanceled)
  {
    ghost var t0 := dev.trace;
    reports := [];
    r := OpenForMove(dev, diskNumber, volume);
    if r.Err? {
      NothingMoved(dev.disk, dev.layout, src, dst, size, sourceSafe, r);
      return;
    }
    ghost var t1 := dev.trace;
    assert Prepared(t1, |t0|, volume, diskNumber);
    r, reports := CopyAndUpdate(dev, src, dst, size, cancelled, sourceSafe);
    ghost var t2 := dev.trace;
    dev.DisposeDisk();
    BodyTraceClosed(t0, t1, t2, dev.trace, volume, diskNumber);
  }

  /**
   * Steps 1 and 2 of the move: lock and dismount the volume when there is
   * one, then open the disk; the first call that fails ends it.
   */
  method OpenForMove(dev: Device, diskNumber: int, volume: bool) returns (r: Result<(), Failure>)
    modifies dev`trace
    ensures r.Ok? <==> Prepared(dev.trace, |old(dev.trace)|, volume, diskNumber)
    ensures r.Ok? ==> |dev.trace| == |old(dev.trace)| + (if volume then 3 else 1) && dev.trace[..|old(dev.trace)|] == old(dev.trace)
    ensures volume ==> |dev.trace| > |old(dev.trace)| && dev.trace[|old(dev.trace)|].call == Ioctl(FSCTL_LOCK_VOLUME)
    ensures r.Err? ==> r.error.Win32? && BodyTrace(old(dev.trace), dev.trace, volume, diskNumber)
    ensures Reliable(dev.fails, |dev.trace|, -1) ==> r.Ok?
  {
    if volume {
      var locked := dev.IoctlSimple(FSCTL_LOCK_VOLUME);
      if !locked {
        return Err(Win32(Ioctl(FSCTL_LOCK_VOLUME)));
      }
      var dismounted := dev.IoctlSimple(FSCTL_DISMOUNT_VOLUME);
      if !dismounted {
        return Err(Win32(Ioctl(FSCTL_DISMOUNT_VOLUME)));
      }
    }
    var diskOpen := dev.OpenDisk(diskNumber);
    if !diskOpen {
      return Err(Win32(OpenDiskCall(diskNumber)));
    }
    r := Ok(());
  }

  /** A move that failed on a call before the copy changed nothing. */
  lemma NothingMoved(disk: seq<uint8>, layout: seq<uint8>, src: int64, dst: int64, size: int64, sourceSafe: bool,
                     r: Result<(), Failure>)
    requires r.Err? && r.error.Win32?
    ensures MoveOutcome(disk, disk, layout, layout, src, dst, size, sourceSafe, r, [])
  {
  }

  /** The trace of a body that opened the disk: the opening calls, the copy and update, then the close. */
  lemma BodyTraceClosed(t0: seq<Event>, t1: seq<Event>, t2: seq<Event>, t: seq<Event>, volume: bool, diskNumber: int)
    requires |t0| <= |t1| && t1[..|t0|] == t0 && |t1| == |t0| + (if volume then 3 else 1)
    requires Prepared(t1, |t0|, volume, diskNumber)
    requires volume ==> t1[|t0|].call == Ioctl(FSCTL_LOCK_VOLUME)
    requires DiskCallsOnly(t1, t2)
    requires t == t2 + [Event(CloseDisk, true)]
    ensures BodyTrace(t0, t, volume, diskNumber)
  {
    assert t[..|t1|] == t1 by {
      assert t[..|t1|] == t2[..|t1|];
    }
    assert t[..|t0|] == t1[..|t0|];
    PreparedKept(t1, t, |t0|, volume, diskNumber);
    forall k | |t0| + (if volume then 2 else 0) <= k < |t|
      ensures !VolumeCall(t[k].call)
    {
      if k < |t1| {
        assert t[k] == t1[k];
      } else if k < |t2| {
        assert t[k] == t2[k];
      }
    }
  }

  /**
   * Steps 3 and 5 of the move, with the disk open: copy the range (as
   * written, or with the copy that keeps its promise about the source when
   * `sourceSafe`), and only once it has completed, update the partition
   * table entry.
   */
  method CopyAndUpdate(dev: Device, src: int64, dst: int64, size: int64, cancelled: nat -> bool, sourceSafe: bool)
    returns (r: Result<(), Failure>, reports: seq<int>)
    requires dev.Valid()
    modifies dev`trace, dev`position, dev`disk, dev`layout
    ensures dev.Valid()
    ensures DiskCallsOnly(old(dev.trace), dev.trace)
    ensures MoveOutcome(old(dev.disk), dev.disk, old(dev.layout), dev.layout, src, dst, size, sourceSafe, r, reports)
    ensures r == Err(OperationCanceled) ==> Honours(cancelled, sourceSafe, src, dst, size, |reports|)
    ensures (Reliable(dev.fails, |dev.trace|, -1)
             && SpanInDisk(|old(dev.disk)|, src, dst, 0, size) && UpdatedLayout(old(dev.layout), src, dst).Ok?)
            ==> r.Ok? || r == Err(OperationCanceled)
  {
    ghost var t0 := dev.trace;
    ghost var disk0 := dev.disk;
    if sourceSafe {
      r, reports := CopySectorsSourceSafe(dev, src, dst, size, cancelled);
    } else {
      r, reports := CopySectors(dev, src, dst, size, cancelled);
    }
    ghost var t1 := dev.trace;
    CopyWritesOnlyDestination(disk0, dev.disk, src, dst, size, cancelled, sourceSafe, r, reports);
    if r == Err(OperationCanceled) {
      if sourceSafe {
        CancelledSafeCopyKeepsSource(disk0, dev.disk, src, dst, size, cancelled, reports);
      } else if reports == [] || RangesDisjoint(src, dst, size) {
        CancelledCopyKeepsSource(disk0, dev.disk, src, dst, size, cancelled, false, reports);
      }
    }
    CopyCallsAreDiskCalls(t0, t1);
    if r.Ok? {
      r := UpdatePartitionTableEntry(dev, src, dst);
      UpdateCallsAreDiskCalls(t1, dev.trace, old(dev.layout), dev.layout, dev.fails, src, dst, r);
      DiskCallsOnlyChain(t0, t1, dev.trace);
    }
  }

  /** The calls appended to `t0` use only the disk handle. */
  predicate DiskCallsOnly(t0: seq<Event>, t: seq<Event>) {
    |t0| <= |t| && t[..|t0|] == t0 && forall k :: |t0| <= k < |t| ==> !VolumeCall(t[k].call)
  }

  lemma CopyCallsAreDiskCalls(t0: seq<Event>, t: seq<Event>)
    requires ExtendsWithCopyCalls(t0, t)
    ensures DiskCallsOnly(t0, t)
  {
    forall k | |t0| <= k < |t|
      ensures !VolumeCall(t[k].call)
    {
      assert CopyCall(t[k].call);
    }
  }

  lemma UpdateCallsAreDiskCalls(t0: seq<Event>, t: seq<Event>, layout0: seq<uint8>, layout: seq<uint8>,
                                fails: nat -> bool, oldOffset: int64, newOffset: int64, r: Result<(), Failure>)
    requires UpdateEffect(t0, t, layout0, layout, fails, oldOffset, newOffset, r)
    ensures DiskCallsOnly(t0, t)
  {
  }

  lemma DiskCallsOnlyChain(t0: seq<Event>, t1: seq<Event>, t2: seq<Event>)
    requires DiskCallsOnly(t0, t1) && DiskCallsOnly(t1, t2)
    ensures DiskCallsOnly(t0, t2)
  {
    assert t2[..|t0|] == t2[..|t1|][..|t0|];
    forall k | |t0| <= k < |t2|
      ensures !VolumeCall(t2[k].call)
    {
      if k < |t1| {
        assert t2[k] == t1[k];
      }
    }
  }

  /**
   * `ExecuteMove`: open the volume when there is a drive letter (a failure
   * there ends the move before anything else), run the body, and whenever
   * the volume was opened, try to unlock it, ignoring the result, and
   * dispose of its handle. The disk and the table change only after the
   * volume is locked and dismounted and the disk opened; and since the
   * unlock's result is ignored, every other call succeeding is enough for
   * the move to complete or be cancelled. With `sourceSafe` false this is
   * the move as written; with it true the copy stops honouring cancellation
   * once it has written over an overlapping source.
   */
  method ExecuteMove(dev: Device, diskNumber: int, driveLetter: Option<string>,
                     src: int64, dst: int64, size: int64, cancelled: nat -> bool, sourceSafe: bool)
    returns (r: Result<(), Failure>, reports: seq<int>)
    requires dev.Valid()
    modifies dev`trace, dev`position, dev`disk, dev`layout
    ensures dev.Valid()
    ensures driveLetter.None? ==> BodyTrace(old(dev.trace), dev.trace, false, diskNumber)
    ensures driveLetter.Some? ==> VolumeTrace(old(dev.trace), dev.trace, driveLetter.value, diskNumber)
    ensures driveLetter.Some? && !dev.trace[|old(dev.trace)|].ok ==>
              r == Err(Win32(OpenVolumeCall(VolumePath(driveLetter.value)))) && dev.disk == old(dev.disk) && dev.layout == old(dev.layout)
    ensures (r.Ok? || dev.disk != old(dev.disk) || dev.layout != old(dev.layout)) ==>
              Started(dev.trace, |old(dev.trace)|, driveLetter, diskNumber)
    ensures MoveOutcome(old(dev.disk), dev.disk, old(dev.layout), dev.layout, src, dst, size, sourceSafe, r, reports)
    ensures r == Err(OperationCanceled) ==> Honours(cancelled, sourceSafe, src, dst, size, |reports|)
    ensures (Reliable(dev.fails, |dev.trace|, if driveLetter.Some? then |dev.trace| - 2 else -1)
             && SpanInDisk(|old(dev.disk)|, src, dst, 0, size) && UpdatedLayout(old(dev.layout), src, dst).Ok?)
            ==> r.Ok? || r == Err(OperationCanceled)
  {
    if driveLetter.None? {
      r, reports := MoveBody(dev, diskNumber, false, src, dst, size, cancelled, sourceSafe);
    } else {
      r, reports := MoveOnVolume(dev, diskNumber, driveLetter.value, src, dst, size, cancelled, sourceSafe);
    }
  }

  /** `ExecuteMove` for a partition with a drive letter: the volume handle brackets the body. */
  method MoveOnVolume(dev: Device, diskNumber: int, letter: string,
                      src: int64, dst: int64, size: int64, cancelled: nat -> bool, sourceSafe: bool)
    returns (r: Result<(), Failure>, reports: seq<int>)
    requires dev.Valid()
    modifies dev`trace, dev`position, dev`disk, dev`layout
    ensures dev.Valid()
    ensures VolumeTrace(old(dev.trace), dev.trace, letter, diskNumber)
    ensures !dev.trace[|old(dev.trace)|].ok ==>
              r == Err(Win32(OpenVolumeCall(VolumePath(letter)))) && dev.disk == old(dev.disk) && dev.layout == old(dev.layout)
    ensures (r.Ok? || dev.disk != old(dev.disk) || dev.layout != old(dev.layout)) ==>
              Started(dev.trace, |old(dev.trace)|, Some(letter), diskNumber)
    ensures MoveOutcome(old(dev.disk), dev.disk, old(dev.layout), dev.layout, src, dst, size, sourceSafe, r, reports)
    ensures r == Err(OperationCanceled) ==> Honours(cancelled, sourceSafe, src, dst, size, |reports|)
    ensures (Reliable(dev.fails, |dev.trace|, |dev.trace| - 2)
             && SpanInDisk(|old(dev.disk)|, src, dst, 0, size) && UpdatedLayout(old(dev.layout), src, dst).Ok?)
            ==> r.Ok? || r == Err(OperationCanceled)
  {
    ghost var t0 := dev.trace;
    var volumeOpen := dev.OpenVolume(letter);
    if !volumeOpen {
      r, reports := Err(Win32(OpenVolumeCall(VolumePath(letter)))), [];
      NothingMoved(dev.disk, dev.layout, src, dst, size, sourceSafe, r);
      return;
    }
    r, reports := BodyOnOpenVolume(dev, t0, diskNumber, letter, src, dst, size, cancelled, sourceSafe);
  }

  /** The part of `MoveOnVolume` after the volume opened: the body, then the `finally` block. */
  method BodyOnOpenVolume(dev: Device, ghost t0: seq<Event>, diskNumber: int, letter: string,
                          src: int64, dst: int64, size: int64, cancelled: nat -> bool, sourceSafe: bool)
    returns (r: Result<(), Failure>, reports: seq<int>)
    requires dev.Valid()
    requires dev.trace == t0 + [Event(OpenVolumeCall(VolumePath(letter)), true)]
    modifies dev`trace, dev`position, dev`disk, dev`layout
    ensures dev.Valid()
    ensures VolumeTrace(t0, dev.trace, letter, diskNumber) && dev.trace[|t0|].ok
    ensures (r.Ok? || dev.disk != old(dev.disk) || dev.layout != old(dev.layout)) ==>
              Started(dev.trace, |t0|, Some(letter), diskNumber)
    ensures MoveOutcome(old(dev.disk), dev.disk, old(dev.layout), dev.layout, src, dst, size, sourceSafe, r, reports)
    ensures r == Err(OperationCanceled) ==> Honours(cancelled, sourceSafe, src, dst, size, |reports|)
    ensures (Reliable(dev.fails, |dev.trace|, |dev.trace| - 2)
             && SpanInDisk(|old(dev.disk)|, src, dst, 0, size) && UpdatedLayout(old(dev.layout), src, dst).Ok?)
            ==> r.Ok? || r == Err(OperationCanceled)
  {
    ghost var t1 := dev.trace;
    r, reports := MoveBody(dev, diskNumber, true, src, dst, size, cancelled, sourceSafe);
    FinishOnVolume(dev, t0, t1, letter, diskNumber);
  }

  /** The `finally` block of a move on an opened volume, and what it adds to the body's trace. */
  method FinishOnVolume(dev: Device, ghost t0: seq<Event>, ghost t1: seq<Event>, letter: string, diskNumber: int)
    requires t1 == t0 + [Event(OpenVolumeCall(VolumePath(letter)), true)]
    requires BodyTrace(t1, dev.trace, true, diskNumber)
    modifies dev`trace
    ensures VolumeTrace(t0, dev.trace, letter, diskNumber) && dev.trace[|t0|].ok
    ensures Started(dev.trace, |t0|, Some(letter), diskNumber) <==> Prepared(old(dev.trace), |t1|, true, diskNumber)
    ensures Reliable(dev.fails, |dev.trace|, |dev.trace| - 2) ==> Reliable(dev.fails, |old(dev.trace)|, -1)
  {
    ghost var t2 := dev.trace;
    CloseVolumeBestEffort(dev);
    FinallyTrace(t0, t1, t2, dev.trace, letter, diskNumber);
    ReliableBelow(dev.fails, |dev.trace|, |t2|);
  }

  /** The `finally` block: try to unlock the volume, ignoring the result, then dispose of its handle. */
  method CloseVolumeBestEffort(dev: Device)
    modifies dev`trace
    ensures |dev.trace| == |old(dev.trace)| + 2 && dev.trace[..|old(dev.trace)|] == old(dev.trace)
    ensures dev.trace[|old(dev.trace)|].call == Ioctl(FSCTL_UNLOCK_VOLUME)
    ensures dev.trace[|old(dev.trace)| + 1] == Event(CloseVolume, true)
  {
    var _ := dev.IoctlSimple(FSCTL_UNLOCK_VOLUME);
    dev.DisposeVolume();
  }

  /** Reliability of the calls below `n`, except `n`, covers those below any `m <= n`. */
  lemma ReliableBelow(fails: nat -> bool, len: int, m: int)
    requires m <= len - 2
    ensures Reliable(fails, len, len - 2) ==> Reliable(fails, m, -1)
  {
  }

  /**
   * The trace of a move on a volume: the open, the body's events from
   * `t1` to `t2`, then the unlock and the close.
   */
  lemma FinallyTrace(t0: seq<Event>, t1: seq<Event>, t2: seq<Event>, t: seq<Event>, letter: string, diskNumber: int)
    requires t1 == t0 + [Event(OpenVolumeCall(VolumePath(letter)), true)]
    requires BodyTrace(t1, t2, true, diskNumber)
    requires |t| == |t2| + 2 && t[..|t2|] == t2
    requires t[|t2|].call == Ioctl(FSCTL_UNLOCK_VOLUME) && t[|t2| + 1] == Event(CloseVolume, true)
    ensures VolumeTrace(t0, t, letter, diskNumber)
    ensures Started(t, |t0|, Some(letter), diskNumber) <==> Prepared(t2, |t1|, true, diskNumber)
  {
    assert t[..|t0|] == t2[..|t1|][..|t0|];
    assert t[|t0|] == t2[|t0|] == t1[|t0|];
    forall k | |t0| + 3 <= k < |t| - 2
      ensures !VolumeCall(t[k].call)
    {
      assert t[k] == t2[k];
    }
    if Prepared(t2, |t1|, true, diskNumber) {
      PreparedKept(t2, t, |t1|, true, diskNumber);
    }
  }

  /**
   * A completed move relocates the partition: the destination range holds
   * the source's old bytes, and the table's first entry at the old offset
   * now starts at the new one, with every other entry unchanged.
   */
  lemma CompletedMoveRelocatesPartition(before: seq<uint8>, after: seq<uint8>,
                                        layoutBefore: seq<uint8>, layoutAfter: seq<uint8>,
                                        src: int64, dst: int64, size: int64, sourceSafe: bool, reports: seq<int>)
    requires MoveOutcome(before, after, layoutBefore, layoutAfter, src, dst, size, sourceSafe, Ok(()), reports)
    ensures forall i :: dst <= i < dst + size ==> 0 <= i < |after| && after[i] == before[i - dst + src]
    ensures exists e: nat :: e < GetPartitionCount(layoutBefore).value
              && ReadEntryStartingOffset(layoutBefore, e) == Ok(src)
              && ReadEntryStartingOffset(layoutAfter, e) == Ok(dst)
              && RewriteFlag(layoutAfter, e) == Ok(1)
              && (forall j: nat :: j != e ==> ReadEntryStartingOffset(layoutAfter, j) == ReadEntryStartingOffset(layoutBefore, j))
  {
    CopyRangeBytes(before, src, dst, 0, Max0(size));
    UpdatedLayoutMovesEntry(layoutBefore, src, dst);
  }

  /** `Prepared` only looks at a prefix of the trace. */
  lemma PreparedKept(t: seq<Event>, u: seq<Event>, n: nat, volume: bool, diskNumber: int)
    requires Prepared(t, n, volume, diskNumber)
    requires |t| <= |u| && u[..|t|] == t
    ensures Prepared(u, n, volume, diskNumber)
  {
    assert u[n] == t[n];
    if volume {
      assert u[n + 1] == t[n + 1] && u[n + 2] == t[n + 2];
    }
  }
}
