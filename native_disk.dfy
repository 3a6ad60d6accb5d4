/**
 * The Win32 side of a partition move: the DRIVE_LAYOUT_INFORMATION_EX byte
 * layout exchanged with IOCTL_DISK_GET/SET_DRIVE_LAYOUT_EX, the normalisation
 * of a drive letter into a volume path, and the raw device calls (open, lock,
 * dismount, unlock, seek, read, write, get/set layout) over an in-memory disk
 * whose calls may fail as a failure oracle decides.
 */
module NativeDisk {
  import opened Common

  // ------------------------------------------------------ IOCTL codes

  const FSCTL_LOCK_VOLUME: int := 0x0009_0018
  const FSCTL_UNLOCK_VOLUME: int := 0x0009_001C
  const FSCTL_DISMOUNT_VOLUME: int := 0x0009_0020

  // ------------------------------------- DRIVE_LAYOUT_INFORMATION_EX layout

  const DriveLayoutHeaderSize: nat := 48
  const PartitionEntrySize: nat := 144
  const EntryStartingOffsetOffset: nat := 8
  const EntryLengthOffset: nat := 16
  const EntryRewriteOffset: nat := 28

  /** The layout buffer is allocated for this many partition entries. */
  const MaxLayoutEntries: nat := 128
  const DriveLayoutBufferSize: nat := DriveLayoutHeaderSize + MaxLayoutEntries * PartitionEntrySize

  /** Why a native helper threw. */
  datatype Failure =
    | Win32(call: Call)               // Win32Exception: the OS call failed or moved too few bytes
    | OutOfRange                      // an index or span outside the layout buffer
    | PartitionNotFound(offset: int)  // no table entry starts at the partition's old offset
    | OperationCanceled               // the cancellation token was observed

  // ------------------------------------------------ little-endian integers

  function Pow256(n: nat): (p: nat)
    ensures p >= 1
  {
    if n == 0 then 1 else 256 * Pow256(n - 1)
  }

  lemma Pow256Values()
    ensures Pow256(4) == 0x1_0000_0000
    ensures Pow256(7) == 0x100_0000_0000_0000
    ensures Pow256(8) == 0x1_0000_0000_0000_0000
  {
    assert Pow256(1) == 0x100;
    assert Pow256(2) == 0x1_0000;
    assert Pow256(3) == 0x100_0000;
    assert Pow256(4) == 0x1_0000_0000;
    assert Pow256(5) == 0x100_0000_0000;
    assert Pow256(6) == 0x1_0000_0000_0000;
    assert Pow256(7) == 0x100_0000_0000_0000;
  }

  /** The unsigned value of bytes stored least significant first. */
  function LeUnsigned(b: seq<uint8>): (u: nat)
    ensures u < Pow256(|b|)
  {
    if b == [] then 0 else b[0] + 256 * LeUnsigned(b[1..])
  }

  /** The `n` little-endian bytes of `u`. */
  function LeBytes(u: nat, n: nat): (b: seq<uint8>)
    requires u < Pow256(n)
    ensures |b| == n && LeUnsigned(b) == u
  {
    if n == 0 then [] else [u % 256] + LeBytes(u / 256, n - 1)
  }

  /** Encoding the value of a byte string gives that byte string back. */
  lemma {:induction false} LeBytesOfUnsigned(b: seq<uint8>)
    ensures LeBytes(LeUnsigned(b), |b|) == b
  {
    if b != [] {
      var u := LeUnsigned(b);
      assert u % 256 == b[0] && u / 256 == LeUnsigned(b[1..]);
      LeBytesOfUnsigned(b[1..]);
    }
  }

  /** Multiplying by 256 distributes over a byte's contribution. */
  lemma ShiftByte(a: int, p: int, c: int)
    ensures 256 * (a + p * c) == 256 * a + (256 * p) * c
  {
  }

  /** The last byte is the most significant one. */
  lemma {:induction false} LeUnsignedLast(b: seq<uint8>)
    requires |b| >= 1
    ensures LeUnsigned(b) == LeUnsigned(b[..|b| - 1]) + Pow256(|b| - 1) * b[|b| - 1]
  {
    var n := |b|;
    if n > 1 {
      var t, m := b[1..], b[..n - 1];
      LeUnsignedLast(t);
      assert t[..n - 2] == m[1..];
      var a, p, c := LeUnsigned(m[1..]), Pow256(n - 2), b[n - 1] as int;
      assert LeUnsigned(t) == a + p * c;
      assert LeUnsigned(m) == b[0] + 256 * a;
      ShiftByte(a, p, c);
    }
  }

  /**
   * `BinaryPrimitives.ReadInt64LittleEndian`: two's complement of 8 bytes, negative exactly
   * when the top bit of the last byte is set.
   */
  function DecodeInt64(b: seq<uint8>): (v: int64)
    requires |b| == 8
    ensures v < 0 <==> b[7] >= 128
    ensures v >= 0 ==> v == LeUnsigned(b)
    ensures v < 0 ==> v == LeUnsigned(b) - 0x1_0000_0000_0000_0000
  {
    Pow256Values();
    LeUnsignedLast(b);
    var u := LeUnsigned(b);
    if u >= 0x8000_0000_0000_0000 then u - 0x1_0000_0000_0000_0000 else u
  }

  /** `BinaryPrimitives.WriteInt64LittleEndian`. */
  function EncodeInt64(v: int64): (b: seq<uint8>)
    ensures |b| == 8
  {
    Pow256Values();
    LeBytes(if v < 0 then v + 0x1_0000_0000_0000_0000 else v, 8)
  }

  /** Every signed 64-bit value survives an encode and a decode. */
  lemma Int64RoundTrip(v: int64)
    ensures DecodeInt64(EncodeInt64(v)) == v
  {
    Pow256Values();
  }

  /** Every 8-byte string is the encoding of the value it decodes to. */
  lemma Int64BytesRoundTrip(b: seq<uint8>)
    requires |b| == 8
    ensures EncodeInt64(DecodeInt64(b)) == b
  {
    Pow256Values();
    LeBytesOfUnsigned(b);
  }

  // ------------------------------------------------------ layout helpers

  /** `GetPartitionCount`: bytes 4..7 as a little-endian uint32, cast to `int`. */
  function GetPartitionCount(layout: seq<uint8>): (r: Result<int32, Failure>)
    ensures r.Ok? <==> |layout| >= 8
    ensures r.Ok? ==> (LeUnsigned(layout[4..8]) - r.value) % 0x1_0000_0000 == 0
    ensures r.Ok? && LeUnsigned(layout[4..8]) < 0x8000_0000 ==> r.value == LeUnsigned(layout[4..8])
  {
    if |layout| < 8 then Err(OutOfRange)
    else
      Pow256Values();
      var u := LeUnsigned(layout[4..8]);
      Ok(if u >= 0x8000_0000 then u - 0x1_0000_0000 else u)
  }

  /** Position of entry `i`'s StartingOffset field. */
  function StartingOffsetPos(i: nat): (pos: nat)
    ensures pos + 8 <= DriveLayoutBufferSize <==> i < MaxLayoutEntries
  {
    DriveLayoutHeaderSize + i * PartitionEntrySize + EntryStartingOffsetOffset
  }

  /** Position of entry `i`'s RewritePartition flag. */
  function RewriteFlagPos(i: nat): (pos: nat)
    ensures pos < DriveLayoutBufferSize <==> i < MaxLayoutEntries
  {
    DriveLayoutHeaderSize + i * PartitionEntrySize + EntryRewriteOffset
  }

  /** `ReadEntryStartingOffset`: faults unless all 8 bytes lie in the buffer. */
  function ReadEntryStartingOffset(layout: seq<uint8>, i: nat): (r: Result<int64, Failure>)
    ensures r.Ok? <==> StartingOffsetPos(i) + 8 <= |layout|
    ensures r.Err? ==> r.error == OutOfRange
    ensures r.Ok? ==> EncodeInt64(r.value) == layout[StartingOffsetPos(i)..StartingOffsetPos(i) + 8]
  {
    var pos := StartingOffsetPos(i);
    if pos + 8 <= |layout| then
      Int64BytesRoundTrip(layout[pos..pos + 8]);
      Ok(DecodeInt64(layout[pos..pos + 8]))
    else
      Err(OutOfRange)
  }

  /** The byte of entry `i`'s RewritePartition flag, if it lies in the buffer. */
  function RewriteFlag(layout: seq<uint8>, i: nat): (r: Result<uint8, Failure>)
    ensures r.Ok? <==> RewriteFlagPos(i) < |layout|
  {
    if RewriteFlagPos(i) < |layout| then Ok(layout[RewriteFlagPos(i)]) else Err(OutOfRange)
  }

  /** The buffer after `WriteEntryStartingOffset(layout, i, v)`. */
  function WithStartingOffset(layout: seq<uint8>, i: nat, v: int64): (r: seq<uint8>)
    requires StartingOffsetPos(i) + 8 <= |layout|
    ensures |r| == |layout|
    ensures r[..StartingOffsetPos(i)] == layout[..StartingOffsetPos(i)]
    ensures r[StartingOffsetPos(i)..StartingOffsetPos(i) + 8] == EncodeInt64(v)
    ensures r[StartingOffsetPos(i) + 8..] == layout[StartingOffsetPos(i) + 8..]
  {
    var pos := StartingOffsetPos(i);
    layout[..pos] + EncodeInt64(v) + layout[pos + 8..]
  }

  /** The buffer after `SetEntryRewritePartition(layout, i)`. */
  function WithRewriteFlag(layout: seq<uint8>, i: nat): (r: seq<uint8>)
    requires RewriteFlagPos(i) < |layout|
    ensures |r| == |layout|
    ensures r[RewriteFlagPos(i)] == 1
    ensures forall k :: 0 <= k < |r| && k != RewriteFlagPos(i) ==> r[k] == layout[k]
  {
    layout[RewriteFlagPos(i) := 1]
  }

  /** Reading entry `i` after writing `v` to it returns `v`. */
  lemma ReadAfterWrite(layout: seq<uint8>, i: nat, v: int64)
    requires StartingOffsetPos(i) + 8 <= |layout|
    ensures ReadEntryStartingOffset(WithStartingOffset(layout, i, v), i) == Ok(v)
  {
    var pos := StartingOffsetPos(i);
    var after := WithStartingOffset(layout, i, v);
    assert after[pos..pos + 8] == EncodeInt64(v);
    Int64RoundTrip(v);
  }

  /** The write touches the 8 bytes of the field and nothing else. */
  lemma WriteTouchesOnlyField(layout: seq<uint8>, i: nat, v: int64, k: nat)
    requires StartingOffsetPos(i) + 8 <= |layout| && k < |layout|
    requires !(StartingOffsetPos(i) <= k < StartingOffsetPos(i) + 8)
    ensures WithStartingOffset(layout, i, v)[k] == layout[k]
  {
    var pos := StartingOffsetPos(i);
    if k < pos {
      assert WithStartingOffset(layout, i, v)[k] == layout[..pos][k];
    } else {
      assert WithStartingOffset(layout, i, v)[k] == layout[pos + 8..][k - pos - 8];
    }
  }

  /** The 8 offset bytes of entry `j` and the flag of entry `i` never share a byte. */
  lemma FieldsApart(i: nat, j: nat)
    ensures !(StartingOffsetPos(j) <= RewriteFlagPos(i) < StartingOffsetPos(j) + 8)
    ensures i != j ==> StartingOffsetPos(i) + 8 <= StartingOffsetPos(j) || StartingOffsetPos(j) + 8 <= StartingOffsetPos(i)
  {
    if i < j {
      assert j * PartitionEntrySize >= i * PartitionEntrySize + PartitionEntrySize;
    } else if j < i {
      assert i * PartitionEntrySize >= j * PartitionEntrySize + PartitionEntrySize;
    }
  }

  /** Writing entry `i`'s offset leaves every other entry's offset and every flag as it was. */
  lemma WriteKeepsOtherFields(layout: seq<uint8>, i: nat, v: int64, j: nat)
    requires StartingOffsetPos(i) + 8 <= |layout|
    ensures j != i ==> ReadEntryStartingOffset(WithStartingOffset(layout, i, v), j) == ReadEntryStartingOffset(layout, j)
    ensures RewriteFlag(WithStartingOffset(layout, i, v), j) == RewriteFlag(layout, j)
  {
    var after := WithStartingOffset(layout, i, v);
    FieldsApart(j, i);
    if RewriteFlagPos(j) < |layout| {
      WriteTouchesOnlyField(layout, i, v, RewriteFlagPos(j));
    }
    if j != i && StartingOffsetPos(j) + 8 <= |layout| {
      FieldsApart(i, j);
      var q := StartingOffsetPos(j);
      forall k | q <= k < q + 8 ensures after[k] == layout[k] {
        WriteTouchesOnlyField(layout, i, v, k);
      }
      assert after[q..q + 8] == layout[q..q + 8];
    }
  }

  /** Setting a flag leaves every entry's offset as it was, is idempotent, and leaves other flags alone. */
  lemma SetFlagKeepsOffsets(layout: seq<uint8>, i: nat, j: nat)
    requires RewriteFlagPos(i) < |layout|
    ensures ReadEntryStartingOffset(WithRewriteFlag(layout, i), j) == ReadEntryStartingOffset(layout, j)
    ensures RewriteFlag(WithRewriteFlag(layout, i), i) == Ok(1)
    ensures j != i ==> RewriteFlag(WithRewriteFlag(layout, i), j) == RewriteFlag(layout, j)
    ensures WithRewriteFlag(WithRewriteFlag(layout, i), i) == WithRewriteFlag(layout, i)
  {
    FieldsApart(i, j);
    var q := StartingOffsetPos(j);
    if q + 8 <= |layout| {
      assert WithRewriteFlag(layout, i)[q..q + 8] == layout[q..q + 8];
    }
    if j != i {
      assert RewriteFlagPos(i) != RewriteFlagPos(j);
    }
  }

  /** `WriteEntryStartingOffset`: overwrites the 8 bytes in place, or throws before writing. */
  method WriteEntryStartingOffset(layout: array<uint8>, i: nat, value: int64) returns (r: Result<(), Failure>)
    modifies layout
    ensures r.Ok? <==> StartingOffsetPos(i) + 8 <= layout.Length
    ensures r.Ok? ==> layout[..] == WithStartingOffset(old(layout[..]), i, value)
    ensures r.Err? ==> r.error == OutOfRange && layout[..] == old(layout[..])
  {
    var pos := StartingOffsetPos(i);
    if pos + 8 > layout.Length {
      return Err(OutOfRange);
    }
    var bytes := EncodeInt64(value);
    forall k | 0 <= k < 8 {
      layout[pos + k] := bytes[k];
    }
    assert layout[..] == old(layout[..])[..pos] + bytes + old(layout[..])[pos + 8..];
    r := Ok(());
  }

  /** `SetEntryRewritePartition`: sets the flag byte to 1, or throws before writing. */
  method SetEntryRewritePartition(layout: array<uint8>, i: nat) returns (r: Result<(), Failure>)
    modifies layout
    ensures r.Ok? <==> RewriteFlagPos(i) < layout.Length
    ensures r.Ok? ==> layout[..] == WithRewriteFlag(old(layout[..]), i)
    ensures r.Err? ==> r.error == OutOfRange && layout[..] == old(layout[..])
  {
    var pos := RewriteFlagPos(i);
    if pos >= layout.Length {
      return Err(OutOfRange);
    }
    layout[pos] := 1;
    r := Ok(());
  }

  // ------------------------------------------------------ drive letters

  /** `s.TrimEnd(c)`: the longest prefix of `s` not ending in `c`. */
  function TrimEnd(s: string, c: char): (r: string)
    ensures |r| <= |s| && r == s[..|r|]
    ensures r == [] || r[|r| - 1] != c
    ensures forall k :: |r| <= k < |s| ==> s[k] == c
  {
    if s != [] && s[|s| - 1] == c then TrimEnd(s[..|s| - 1], c) else s
  }

  function Repeat(c: char, n: nat): (r: string)
    ensures |r| == n && forall k :: 0 <= k < n ==> r[k] == c
  {
    if n == 0 then [] else Repeat(c, n - 1) + [c]
  }

  /** Trailing copies of `c` are exactly what `TrimEnd` removes. */
  lemma {:induction false} TrimEndRepeat(p: string, c: char, n: nat)
    ensures TrimEnd(p + Repeat(c, n), c) == TrimEnd(p, c)
  {
    if n > 0 {
      var s := p + Repeat(c, n);
      assert s[..|s| - 1] == p + Repeat(c, n - 1);
      TrimEndRepeat(p, c, n - 1);
    } else {
      assert p + Repeat(c, 0) == p;
    }
  }

  /**
   * The drive-letter normalisation of `OpenVolume`: trims '\' then '/', and adds ':' to a bare
   * letter. The result is a prefix of the input, or its first letter followed by ':'.
   */
  function NormalizeDriveLetter(driveLetter: string): (r: string)
    ensures |r| != 1
    ensures r == [] || r[|r| - 1] != '/'
    ensures (|r| <= |driveLetter| && r == driveLetter[..|r|]) || (driveLetter != [] && r == [driveLetter[0], ':'])
  {
    var letter := TrimEnd(TrimEnd(driveLetter, '\\'), '/');
    if |letter| == 1 then letter + ":" else letter
  }

  /** The device path `OpenVolume` passes to CreateFile: the `\\.\` prefix before the normalised letter. */
  function VolumePath(driveLetter: string): (path: string)
    ensures |path| >= 4 && path[..4] == "\\\\.\\" && |path| != 5
    ensures path[4..] == NormalizeDriveLetter(driveLetter)
  {
    "\\\\.\\" + NormalizeDriveLetter(driveLetter)
  }

  /** "C", "C:", "C:\" and "C:\\" all name the volume "C:". */
  lemma NormalizeAcceptsBothForms(x: char, n: nat)
    requires x != '\\' && x != '/'
    ensures NormalizeDriveLetter([x] + Repeat('\\', n)) == [x, ':']
    ensures NormalizeDriveLetter([x, ':'] + Repeat('\\', n)) == [x, ':']
  {
    TrimEndRepeat([x], '\\', n);
    TrimEndRepeat([x, ':'], '\\', n);
  }

  // ----------------------------------------------------- device calls

  /** One call made to the operating system through a NativeDisk helper. */
  datatype Call =
    | OpenVolumeCall(path: string)    // CreateFile on \\.\X:
    | Ioctl(code: int)                // IoctlSimple on the volume handle
    | CloseVolume                     // disposing the volume handle
    | OpenDiskCall(diskNumber: int)   // CreateFile on \\.\PhysicalDriveN for read+write
    | CloseDisk                       // disposing the disk handle
    | Seek(offset: int)               // SeekTo
    | ReadCall(count: int)            // ReadBytes
    | WriteCall(count: int)           // WriteBytes
    | GetLayout                       // GetDriveLayout
    | SetLayout(image: seq<uint8>)    // SetDriveLayout

  /** A call and whether it succeeded. */
  datatype Event = Event(call: Call, ok: bool)

  /**
   * The operating system as seen through one physical disk and its volume:
   * the disk's bytes, the drive layout it reports, the file position of the
   * disk handle, and the trace of every call made. A call fails when the
   * operating system would refuse it (a negative seek, a transfer running past
   * the end of the disk) or when the oracle `fails` says the call at that
   * position of the trace fails.
   */
  class Device {
    var disk: seq<uint8>
    const fails: nat -> bool
    var layout: seq<uint8>
    var position: int
    var trace: seq<Event>

    ghost predicate Valid()
      reads this
    {
      |layout| == DriveLayoutBufferSize
    }

    constructor (disk: seq<uint8>, layout: seq<uint8>, fails: nat -> bool)
      requires |layout| == DriveLayoutBufferSize
      ensures Valid()
      ensures this.disk == disk && this.layout == layout && this.fails == fails
      ensures position == 0 && trace == []
    {
      this.disk := disk;
      this.layout := layout;
      this.fails := fails;
      position := 0;
      trace := [];
    }

    /** Appends `call` to the trace; it succeeds when allowed and not failed by the oracle. */
    method Record(call: Call, allowed: bool) returns (ok: bool)
      modifies this`trace
      ensures ok == (allowed && !fails(|old(trace)|))
      ensures trace == old(trace) + [Event(call, ok)]
    {
      ok := allowed && !fails(|trace|);
      trace := trace + [Event(call, ok)];
    }

    /** `OpenVolume`: opens the normalised volume path. */
    method OpenVolume(driveLetter: string) returns (ok: bool)
      modifies this`trace
      ensures ok == !fails(|old(trace)|)
      ensures trace == old(trace) + [Event(OpenVolumeCall(VolumePath(driveLetter)), ok)]
    {
      ok := Record(OpenVolumeCall(VolumePath(driveLetter)), true);
    }

    /** `IoctlSimple` on the volume handle (lock, dismount, unlock). */
    method IoctlSimple(code: int) returns (ok: bool)
      modifies this`trace
      ensures ok == !fails(|old(trace)|)
      ensures trace == old(trace) + [Event(Ioctl(code), ok)]
    {
      ok := Record(Ioctl(code), true);
    }

    /** Disposing the volume handle; never fails. */
    method DisposeVolume()
      modifies this`trace
      ensures trace == old(trace) + [Event(CloseVolume, true)]
    {
      trace := trace + [Event(CloseVolume, true)];
    }

    /** `OpenDisk(diskNumber, readWrite: true)`. */
    method OpenDisk(diskNumber: int) returns (ok: bool)
      modifies this`trace
      ensures ok == !fails(|old(trace)|)
      ensures trace == old(trace) + [Event(OpenDiskCall(diskNumber), ok)]
    {
      ok := Record(OpenDiskCall(diskNumber), true);
    }

    /** Disposing the disk handle; never fails. */
    method DisposeDisk()
      modifies this`trace
      ensures trace == old(trace) + [Event(CloseDisk, true)]
    {
      trace := trace + [Event(CloseDisk, true)];
    }

    /** `SeekTo`: moves the file position; a negative offset is refused. */
    method SeekTo(offset: int) returns (ok: bool)
      modifies this`trace, this`position
      ensures ok == (offset >= 0 && !fails(|old(trace)|))
      ensures trace == old(trace) + [Event(Seek(offset), ok)]
      ensures position == if ok then offset else old(position)
    {
      ok := Record(Seek(offset), offset >= 0);
      if ok {
        position := offset;
      }
    }

    /** `ReadBytes`: fails unless all `count` bytes are transferred. */
    method ReadBytes(count: nat) returns (ok: bool, data: seq<uint8>)
      modifies this`trace, this`position
      ensures ok == (0 <= old(position) && old(position) + count <= |disk| && !fails(|old(trace)|))
      ensures trace == old(trace) + [Event(ReadCall(count), ok)]
      ensures ok ==> data == disk[old(position)..old(position) + count] && position == old(position) + count
      ensures !ok ==> position == old(position)
    {
      ok := Record(ReadCall(count), 0 <= position && position + count <= |disk|);
      if ok {
        data := disk[position..position + count];
        position := position + count;
      } else {
        data := [];
      }
    }

    /** `WriteBytes`: fails unless all bytes are transferred; a failed write changes nothing. */
    method WriteBytes(data: seq<uint8>) returns (ok: bool)
      modifies this`trace, this`position, this`disk
      ensures ok == (0 <= old(position) && old(position) + |data| <= |old(disk)| && !fails(|old(trace)|))
      ensures |disk| == |old(disk)|
      ensures trace == old(trace) + [Event(WriteCall(|data|), ok)]
      ensures ok ==> disk == old(disk)[..old(position)] + data + old(disk)[old(position) + |data|..]
      ensures ok ==> position == old(position) + |data|
      ensures !ok ==> position == old(position) && disk == old(disk)
    {
      ok := Record(WriteCall(|data|), 0 <= position && position + |data| <= |disk|);
      if ok {
        disk := disk[..position] + data + disk[position + |data|..];
        position := position + |data|;
      }
    }

    /** `GetDriveLayout`: a fresh buffer for 128 entries, filled with the layout the OS reports. */
    method GetDriveLayout() returns (ok: bool, buffer: array<uint8>)
      requires Valid()
      modifies this`trace
      ensures ok == !fails(|old(trace)|)
      ensures trace == old(trace) + [Event(GetLayout, ok)]
      ensures fresh(buffer) && buffer.Length == DriveLayoutBufferSize
      ensures ok ==> buffer[..] == layout
    {
      ok := Record(GetLayout, true);
      buffer := new uint8[DriveLayoutBufferSize](k => 0);
      if ok {
        forall k | 0 <= k < DriveLayoutBufferSize {
          buffer[k] := layout[k];
        }
      }
    }

    /** `SetDriveLayout`: on success the OS holds the buffer as the new layout. */
    method SetDriveLayout(buffer: array<uint8>) returns (ok: bool)
      requires Valid() && buffer.Length == DriveLayoutBufferSize
      modifies this`trace, this`layout
      ensures Valid()
      ensures ok == !fails(|old(trace)|)
      ensures trace == old(trace) + [Event(SetLayout(buffer[..]), ok)]
      ensures layout == if ok then buffer[..] else old(layout)
    {
      ok := Record(SetLayout(buffer[..]), true);
      if ok {
        layout := buffer[..];
      }
    }
  }
}
