/**
 * The chunked raw copy at the heart of a partition move. The disk is copied
 * 4 MiB at a time, from low to high addresses when the destination lies
 * before the source and from high to low otherwise, so that overlapping
 * ranges behave like `memmove`. Cancellation is observed before each chunk
 * and progress is reported after each one.
 */
module SectorCopy {
  import opened Common
  import opened NativeDisk

  const ChunkSize: nat := 4 * 1024 * 1024

  function Max0(n: int): nat {
    if n < 0 then 0 else n
  }

  function Min(a: int, b: int): int {
    if a <= b then a else b
  }

  // ------------------------------------------------------- specification

  /** Source and destination spans [src+lo, src+hi) and [dst+lo, dst+hi) lie on the disk. */
  predicate SpanInDisk(len: int, src: int, dst: int, lo: int, hi: int) {
    lo >= hi || (0 <= src + lo && src + hi <= len && 0 <= dst + lo && dst + hi <= len)
  }

  /**
   * The disk after bytes [lo, hi) of the source range have been copied to
   * the destination range, reading the source as it was before the copy.
   */
  function CopyRange(before: seq<uint8>, src: int, dst: int, lo: int, hi: int): seq<uint8>
    requires SpanInDisk(|before|, src, dst, lo, hi)
  {
    seq(|before|, i requires 0 <= i < |before| =>
      if dst + lo <= i < dst + hi then before[i - dst + src] else before[i])
  }

  /** Byte by byte: the destination span holds the source bytes, every other byte is unchanged. */
  lemma CopyRangeBytes(before: seq<uint8>, src: int, dst: int, lo: int, hi: int)
    requires SpanInDisk(|before|, src, dst, lo, hi)
    ensures var after := CopyRange(before, src, dst, lo, hi);
      && |after| == |before|
      && (forall i :: 0 <= i < |before| && !(dst + lo <= i < dst + hi) ==> after[i] == before[i])
      && (forall i :: dst + lo <= i < dst + hi ==> after[i] == before[i - dst + src])
  {
  }

  /** Bytes reported so far: the last report, or none before the first chunk. */
  function Done(reports: seq<int>): int {
    if reports == [] then 0 else reports[|reports| - 1]
  }

  /** Size of chunk `j`: how much report `j` grew over the one before it. */
  function ChunkAt(reports: seq<int>, j: int): int
    requires 0 <= j < |reports|
  {
    reports[j] - (if j == 0 then 0 else reports[j - 1])
  }

  /** The part of [0, total) copied once `done` bytes are: a prefix going up, a suffix going down. */
  function DoneLo(src: int, dst: int, total: int, done: int): int {
    if dst < src then 0 else Max0(total) - done
  }

  function DoneHi(src: int, dst: int, total: int, done: int): int {
    if dst < src then done else Max0(total)
  }

  /** Source and destination ranges share no byte. */
  predicate RangesDisjoint(src: int, dst: int, total: int) {
    src + total <= dst || dst + total <= src
  }

  /**
   * Whether the check before chunk `k` throws. As written, any requested
   * cancellation is honoured; the source-safe copy honours a late request
   * only when the ranges are disjoint.
   */
  predicate Honours(cancelled: nat -> bool, sourceSafe: bool, src: int, dst: int, total: int, k: nat) {
    cancelled(k) && (!sourceSafe || k == 0 || RangesDisjoint(src, dst, total))
  }

  /** A call the copy is allowed to make: a seek, or a transfer of at most one chunk. */
  predicate CopyCall(c: Call) {
    c.Seek? || (c.ReadCall? && 0 < c.count <= ChunkSize) || (c.WriteCall? && 0 < c.count <= ChunkSize)
  }

  /** A chunk of `count` bytes read at `from` and written at `to` lies on a disk of `len` bytes. */
  predicate ChunkFits(len: int, from: int, to: int, count: int) {
    0 <= from && from + count <= len && 0 <= to && to + count <= len
  }

  /** `t` extends `t0` with copy calls only. */
  predicate ExtendsWithCopyCalls(t0: seq<Event>, t: seq<Event>) {
    |t0| <= |t| && t[..|t0|] == t0 && forall k :: |t0| <= k < |t| ==> CopyCall(t[k].call)
  }

  /** The progress reports: positive, strictly increasing, never above the total. */
  predicate ReportsValid(reports: seq<int>, total: int) {
    && (forall j :: 0 <= j < |reports| ==> 0 < reports[j] <= total)
    && (forall i, j :: 0 <= i < j < |reports| ==> reports[i] < reports[j])
    // one report per chunk of at most ChunkSize bytes, all full but the last
    && (forall j :: 0 <= j < |reports| ==> ChunkAt(reports, j) <= ChunkSize)
    && (forall j :: 0 <= j < |reports| - 1 ==> ChunkAt(reports, j) == ChunkSize)
    && (reports != [] && ChunkAt(reports, |reports| - 1) < ChunkSize ==> Done(reports) == total)
  }

  /**
   * The state after `|reports|` chunks: the copied part of the range moved,
   * the reports valid, and no earlier check cancelled.
   */
  predicate CopyState(before: seq<uint8>, after: seq<uint8>, src: int, dst: int, total: int,
                      cancelled: nat -> bool, sourceSafe: bool, reports: seq<int>)
  {
    var done := Done(reports);
    var lo := DoneLo(src, dst, total, done);
    var hi := DoneHi(src, dst, total, done);
    && 0 <= done <= Max0(total)
    && SpanInDisk(|before|, src, dst, lo, hi)
    && after == CopyRange(before, src, dst, lo, hi)
    && ReportsValid(reports, total)
    && (forall j :: 0 <= j < |reports| ==> !Honours(cancelled, sourceSafe, src, dst, total, j))
  }

  /** What the copy promises when it returns `r`. */
  predicate CopyPost(before: seq<uint8>, after: seq<uint8>, src: int, dst: int, total: int,
                     cancelled: nat -> bool, sourceSafe: bool,
                     r: Result<(), Failure>, reports: seq<int>)
  {
    && CopyState(before, after, src, dst, total, cancelled, sourceSafe, reports)
    // completion: the whole range moved and reported
    && (r.Ok? ==> Done(reports) == Max0(total) && after == CopyRange(before, src, dst, 0, Max0(total)))
    // cancellation: observed at the check before chunk |reports|
    && (r == Err(OperationCanceled) ==> Honours(cancelled, sourceSafe, src, dst, total, |reports|))
    && (r.Err? ==> r.error == OperationCanceled || r.error.Win32?)
  }

  /** How the copy stops: a state, and the reason it stopped. */
  lemma StopPost(before: seq<uint8>, after: seq<uint8>, src: int, dst: int, total: int,
                 cancelled: nat -> bool, sourceSafe: bool, r: Result<(), Failure>, reports: seq<int>)
    requires CopyState(before, after, src, dst, total, cancelled, sourceSafe, reports)
    requires r.Ok? ==> Done(reports) == Max0(total)
    requires r == Err(OperationCanceled) ==> Honours(cancelled, sourceSafe, src, dst, total, |reports|)
    requires r.Err? ==> r.error == OperationCanceled || r.error.Win32?
    ensures CopyPost(before, after, src, dst, total, cancelled, sourceSafe, r, reports)
  {
  }

  /** One more chunk of `Min(ChunkSize, total - done)` bytes keeps the reports valid. */
  lemma ReportsValidStep(reports: seq<int>, total: int, count: int)
    requires ReportsValid(reports, total) && 0 <= Done(reports) < total
    requires count == Min(ChunkSize, total - Done(reports))
    ensures ReportsValid(reports + [Done(reports) + count], total)
  {
    var k := |reports|;
    var next := reports + [Done(reports) + count];
    AppendKeepsOrder(reports, Done(reports) + count);
    AppendKeepsChunks(reports, Done(reports) + count);
    if k > 0 {
      assert ChunkAt(reports, k - 1) == ChunkSize;
    }
    assert forall j :: 0 <= j < |next| - 1 ==> ChunkAt(next, j) == ChunkSize;
  }

  /** Appending a value above the last report keeps the reports strictly ascending. */
  lemma AppendKeepsOrder(reports: seq<int>, x: int)
    requires forall i, j :: 0 <= i < j < |reports| ==> reports[i] < reports[j]
    requires Done(reports) < x
    ensures forall i, j :: 0 <= i < j < |reports + [x]| ==> (reports + [x])[i] < (reports + [x])[j]
  {
    var k := |reports|;
    var next := reports + [x];
    forall i, j | 0 <= i < j < |next| ensures next[i] < next[j] {
      if j < k {
        assert next[i] == reports[i] && next[j] == reports[j];
      } else if i < k - 1 {
        assert reports[i] < reports[k - 1];
      }
    }
  }

  /** Appending a report keeps the earlier chunks and adds one of the difference. */
  lemma AppendKeepsChunks(reports: seq<int>, x: int)
    ensures forall j :: 0 <= j < |reports| ==> ChunkAt(reports + [x], j) == ChunkAt(reports, j)
    ensures ChunkAt(reports + [x], |reports|) == x - Done(reports)
  {
    var next := reports + [x];
    forall j | 0 <= j < |reports|
      ensures ChunkAt(next, j) == ChunkAt(reports, j)
    {
      assert next[j] == reports[j];
      if j > 0 {
        assert next[j - 1] == reports[j - 1];
      }
    }
  }

  /** The same step, with the cancellation checks of every chunk so far passed. */
  lemma ReportsStep(cancelled: nat -> bool, sourceSafe: bool, src: int, dst: int, total: int,
                    reports: seq<int>, count: int)
    requires ReportsValid(reports, total) && 0 <= Done(reports) < total
    requires count == Min(ChunkSize, total - Done(reports))
    requires forall j :: 0 <= j < |reports| ==> !Honours(cancelled, sourceSafe, src, dst, total, j)
    requires !Honours(cancelled, sourceSafe, src, dst, total, |reports|)
    ensures var next := reports + [Done(reports) + count];
      && ReportsValid(next, total)
      && (forall j :: 0 <= j < |next| ==> !Honours(cancelled, sourceSafe, src, dst, total, j))
  {
    ReportsValidStep(reports, total, count);
  }

  /** A chunk going up: the disk after copying it, with its report appended. */
  lemma UpStep(before: seq<uint8>, cur: seq<uint8>, after: seq<uint8>, src: int, dst: int, total: int,
               cancelled: nat -> bool, sourceSafe: bool, reports: seq<int>, count: int)
    requires dst < src
    requires CopyState(before, cur, src, dst, total, cancelled, sourceSafe, reports)
    requires !Honours(cancelled, sourceSafe, src, dst, total, |reports|)
    requires Done(reports) < total && count == Min(ChunkSize, total - Done(reports))
    requires var p := Done(reports);
      0 <= src + p && src + p + count <= |cur| && 0 <= dst + p && dst + p + count <= |cur|
      && after == cur[..dst + p] + cur[src + p..src + p + count] + cur[dst + p + count..]
    ensures CopyState(before, after, src, dst, total, cancelled, sourceSafe, reports + [Done(reports) + count])
  {
    AscendingStep(before, cur, after, src, dst, Done(reports), count);
    ReportsStep(cancelled, sourceSafe, src, dst, total, reports, count);
  }

  /** A chunk going down: the disk after copying it, with its report appended. */
  lemma DownStep(before: seq<uint8>, cur: seq<uint8>, after: seq<uint8>, src: int, dst: int, total: int,
                 cancelled: nat -> bool, sourceSafe: bool, reports: seq<int>, count: int)
    requires src <= dst
    requires CopyState(before, cur, src, dst, total, cancelled, sourceSafe, reports)
    requires !Honours(cancelled, sourceSafe, src, dst, total, |reports|)
    requires Done(reports) < total && count == Min(ChunkSize, total - Done(reports))
    requires var q := total - Done(reports) - count;
      0 <= src + q && src + q + count <= |cur| && 0 <= dst + q && dst + q + count <= |cur|
      && after == cur[..dst + q] + cur[src + q..src + q + count] + cur[dst + q + count..]
    ensures CopyState(before, after, src, dst, total, cancelled, sourceSafe, reports + [Done(reports) + count])
  {
    DescendingStep(before, cur, after, src, dst, total - Done(reports), total, count);
    ReportsStep(cancelled, sourceSafe, src, dst, total, reports, count);
  }

  // --------------------------------------------------------------- steps

  /** One chunk copied going up: the destination prefix grows by `c` bytes. */
  lemma AscendingStep(before: seq<uint8>, cur: seq<uint8>, after: seq<uint8>, src: int, dst: int, b: int, c: int)
    requires dst < src && 0 <= b && 0 < c
    requires SpanInDisk(|before|, src, dst, 0, b) && cur == CopyRange(before, src, dst, 0, b)
    requires 0 <= src + b && src + b + c <= |cur| && 0 <= dst + b && dst + b + c <= |cur|
    requires after == cur[..dst + b] + cur[src + b..src + b + c] + cur[dst + b + c..]
    ensures SpanInDisk(|before|, src, dst, 0, b + c)
    ensures after == CopyRange(before, src, dst, 0, b + c)
  {
    var want := CopyRange(before, src, dst, 0, b + c);
    CopyRangeBytes(before, src, dst, 0, b);
    CopyRangeBytes(before, src, dst, 0, b + c);
    assert |after| == |want|;
    forall i | 0 <= i < |after| ensures after[i] == want[i] {
      if i < dst + b {
        assert after[i] == cur[i];
      } else if i < dst + b + c {
        assert after[i] == cur[i - dst + src];
      } else {
        assert after[i] == cur[i];
      }
    }
  }

  /** One chunk copied going down: the destination suffix grows by `c` bytes. */
  lemma DescendingStep(before: seq<uint8>, cur: seq<uint8>, after: seq<uint8>, src: int, dst: int, r: int, n: int, c: int)
    requires src <= dst && 0 < c <= r <= n
    requires SpanInDisk(|before|, src, dst, r, n) && cur == CopyRange(before, src, dst, r, n)
    requires 0 <= src + r - c && src + r <= |cur| && 0 <= dst + r - c && dst + r <= |cur|
    requires after == cur[..dst + r - c] + cur[src + r - c..src + r] + cur[dst + r..]
    ensures SpanInDisk(|before|, src, dst, r - c, n)
    ensures after == CopyRange(before, src, dst, r - c, n)
  {
    var want := CopyRange(before, src, dst, r - c, n);
    CopyRangeBytes(before, src, dst, r, n);
    CopyRangeBytes(before, src, dst, r - c, n);
    assert |after| == |want|;
    forall i | 0 <= i < |after| ensures after[i] == want[i] {
      if i < dst + r - c {
        assert after[i] == cur[i];
      } else if i < dst + r {
        assert after[i] == cur[i - dst + src];
      } else {
        assert after[i] == cur[i];
      }
    }
  }

  /** Every chunk of a range that lies on the disk lies on the disk. */
  lemma ChunkInSpan(len: int, src: int, dst: int, total: int, off: int, count: int)
    requires SpanInDisk(len, src, dst, 0, total)
    requires 0 <= off && 0 < count && off + count <= total
    ensures ChunkFits(len, src + off, dst + off, count)
  {
  }

  // --------------------------------------------------------------- chunks

  /** `ReadChunk`: seek to `offset`, then read `count` bytes. */
  method ReadChunk(dev: Device, offset: int, count: nat) returns (r: Result<seq<uint8>, Failure>)
    modifies dev`trace, dev`position
    ensures r.Ok? <==> 0 <= offset && offset + count <= |dev.disk|
                       && !dev.fails(|old(dev.trace)|) && !dev.fails(|old(dev.trace)| + 1)
    ensures r.Ok? ==> r.value == dev.disk[offset..offset + count]
    ensures r.Err? ==> r.error.Win32?
    ensures |old(dev.trace)| < |dev.trace| <= |old(dev.trace)| + 2 && dev.trace[..|old(dev.trace)|] == old(dev.trace)
    ensures 0 <= offset && !dev.fails(|old(dev.trace)|) ==> |dev.trace| == |old(dev.trace)| + 2
    ensures forall k :: |old(dev.trace)| <= k < |dev.trace| ==> dev.trace[k].call in {Seek(offset), ReadCall(count)}
  {
    var ok := dev.SeekTo(offset);
    if !ok {
      return Err(Win32(Seek(offset)));
    }
    var data;
    ok, data := dev.ReadBytes(count);
    if !ok {
      return Err(Win32(ReadCall(count)));
    }
    r := Ok(data);
  }

  /** `WriteChunk`: seek to `offset`, then write `data`; a failed call writes nothing. */
  method WriteChunk(dev: Device, offset: int, data: seq<uint8>) returns (r: Result<(), Failure>)
    modifies dev`trace, dev`position, dev`disk
    ensures |dev.disk| == |old(dev.disk)|
    ensures r.Ok? <==> 0 <= offset && offset + |data| <= |old(dev.disk)|
                       && !dev.fails(|old(dev.trace)|) && !dev.fails(|old(dev.trace)| + 1)
    ensures r.Ok? ==> dev.disk == old(dev.disk)[..offset] + data + old(dev.disk)[offset + |data|..]
    ensures r.Err? ==> r.error.Win32? && dev.disk == old(dev.disk)
    ensures |old(dev.trace)| < |dev.trace| <= |old(dev.trace)| + 2 && dev.trace[..|old(dev.trace)|] == old(dev.trace)
    ensures 0 <= offset && !dev.fails(|old(dev.trace)|) ==> |dev.trace| == |old(dev.trace)| + 2
    ensures forall k :: |old(dev.trace)| <= k < |dev.trace| ==> dev.trace[k].call in {Seek(offset), WriteCall(|data|)}
  {
    var ok := dev.SeekTo(offset);
    if !ok {
      return Err(Win32(Seek(offset)));
    }
    ok := dev.WriteBytes(data);
    if !ok {
      return Err(Win32(WriteCall(|data|)));
    }
    r := Ok(());
  }

  /** Appending copy calls to a trace that extends `t0` with copy calls. */
  lemma ExtendByCopyCalls(t0: seq<Event>, t1: seq<Event>, t2: seq<Event>)
    requires ExtendsWithCopyCalls(t0, t1)
    requires |t1| <= |t2| && t2[..|t1|] == t1
    requires forall k :: |t1| <= k < |t2| ==> CopyCall(t2[k].call)
    ensures ExtendsWithCopyCalls(t0, t2)
  {
    assert t2[..|t0|] == t2[..|t1|][..|t0|];
    forall k | |t0| <= k < |t2| ensures CopyCall(t2[k].call) {
      if k < |t1| {
        assert t2[k] == t2[..|t1|][k];
      }
    }
  }

  /** One iteration's transfer: `ReadChunk` from the source offset, then `WriteChunk` to the destination offset. */
  method CopyChunk(dev: Device, from: int, to: int, count: nat) returns (r: Result<(), Failure>)
    requires 0 < count <= ChunkSize
    modifies dev`trace, dev`position, dev`disk
    ensures |dev.disk| == |old(dev.disk)|
    ensures r.Ok? ==> ChunkFits(|dev.disk|, from, to, count)
    ensures r.Ok? ==> dev.disk == old(dev.disk)[..to] + old(dev.disk)[from..from + count] + old(dev.disk)[to + count..]
    ensures r.Err? ==> r.error.Win32? && dev.disk == old(dev.disk)
    ensures ExtendsWithCopyCalls(old(dev.trace), dev.trace)
    ensures ((forall k: nat :: k < |dev.trace| ==> !dev.fails(k)) && ChunkFits(|dev.disk|, from, to, count)) ==> r.Ok?
  {
    ghost var t0 := dev.trace;
    var data := ReadChunk(dev, from, count);
    assert ExtendsWithCopyCalls(t0, dev.trace);
    if data.Err? {
      return Err(data.error);
    }
    ghost var t1 := dev.trace;
    r := WriteChunk(dev, to, data.value);
    ExtendByCopyCalls(t0, t1, dev.trace);
  }

  /** The outcome of copying the next chunk going up, whether the copy succeeded or failed. */
  lemma UpOutcome(before: seq<uint8>, cur: seq<uint8>, after: seq<uint8>, len: int, src: int, dst: int, total: int,
              cancelled: nat -> bool, sourceSafe: bool, reports: seq<int>, count: int,
              r: Result<(), Failure>, reliable: bool)
    requires dst < src && len == |cur|
    requires CopyState(before, cur, src, dst, total, cancelled, sourceSafe, reports)
    requires !Honours(cancelled, sourceSafe, src, dst, total, |reports|)
    requires Done(reports) < total && count == Min(ChunkSize, total - Done(reports))
    requires var o := Done(reports);
      && (r.Ok? ==> ChunkFits(len, src + o, dst + o, count)
                    && after == cur[..dst + o] + cur[src + o..src + o + count] + cur[dst + o + count..])
      && (r.Err? ==> r.error.Win32? && after == cur)
      && (reliable && ChunkFits(len, src + o, dst + o, count) ==> r.Ok?)
    ensures r.Ok? ==> CopyState(before, after, src, dst, total, cancelled, sourceSafe, reports + [Done(reports) + count])
    ensures r.Err? ==> CopyPost(before, after, src, dst, total, cancelled, sourceSafe, r, reports)
    ensures reliable && SpanInDisk(len, src, dst, 0, total) ==> r.Ok?
  {
    var o := Done(reports);
    if SpanInDisk(len, src, dst, 0, total) {
      ChunkInSpan(len, src, dst, total, o, count);
    }
    if r.Err? {
      StopPost(before, after, src, dst, total, cancelled, sourceSafe, r, reports);
    } else {
      UpStep(before, cur, after, src, dst, total, cancelled, sourceSafe, reports, count);
    }
  }

  /** The body of the low-to-high loop once the cancellation check has passed: copy the next chunk of the prefix. */
  method TransferUp(dev: Device, srcOffset: int, dstOffset: int, totalBytes: int,
                cancelled: nat -> bool, sourceSafe: bool, ghost before: seq<uint8>,
                reports: seq<int>, count: int)
    returns (r: Result<(), Failure>)
    requires dstOffset < srcOffset
    requires CopyState(before, dev.disk, srcOffset, dstOffset, totalBytes, cancelled, sourceSafe, reports)
    requires !Honours(cancelled, sourceSafe, srcOffset, dstOffset, totalBytes, |reports|)
    requires Done(reports) < totalBytes && count == Min(ChunkSize, totalBytes - Done(reports))
    modifies dev`trace, dev`position, dev`disk
    ensures ExtendsWithCopyCalls(old(dev.trace), dev.trace)
    ensures r.Ok? ==> CopyState(before, dev.disk, srcOffset, dstOffset, totalBytes, cancelled, sourceSafe,
                                reports + [Done(reports) + count])
    ensures r.Err? ==> CopyPost(before, dev.disk, srcOffset, dstOffset, totalBytes, cancelled, sourceSafe, r, reports)
    ensures ((forall k: nat :: k < |dev.trace| ==> !dev.fails(k)) && SpanInDisk(|dev.disk|, srcOffset, dstOffset, 0, totalBytes)) ==> r.Ok?
  {
    var pos := Done(reports);
    ghost var cur := dev.disk;
    r := CopyChunk(dev, srcOffset + pos, dstOffset + pos, count);
    UpOutcome(before, cur, dev.disk, |dev.disk|, srcOffset, dstOffset, totalBytes,
             cancelled, sourceSafe, reports, count, r, forall k: nat :: k < |dev.trace| ==> !dev.fails(k));
  }

  /** The outcome of copying the next chunk going down, whether the copy succeeded or failed. */
  lemma DownOutcome(before: seq<uint8>, cur: seq<uint8>, after: seq<uint8>, len: int, src: int, dst: int, total: int,
              cancelled: nat -> bool, sourceSafe: bool, reports: seq<int>, count: int,
              r: Result<(), Failure>, reliable: bool)
    requires src <= dst && len == |cur|
    requires CopyState(before, cur, src, dst, total, cancelled, sourceSafe, reports)
    requires !Honours(cancelled, sourceSafe, src, dst, total, |reports|)
    requires Done(reports) < total && count == Min(ChunkSize, total - Done(reports))
    requires var o := total - Done(reports) - count;
      && (r.Ok? ==> ChunkFits(len, src + o, dst + o, count)
                    && after == cur[..dst + o] + cur[src + o..src + o + count] + cur[dst + o + count..])
      && (r.Err? ==> r.error.Win32? && after == cur)
      && (reliable && ChunkFits(len, src + o, dst + o, count) ==> r.Ok?)
    ensures r.Ok? ==> CopyState(before, after, src, dst, total, cancelled, sourceSafe, reports + [Done(reports) + count])
    ensures r.Err? ==> CopyPost(before, after, src, dst, total, cancelled, sourceSafe, r, reports)
    ensures reliable && SpanInDisk(len, src, dst, 0, total) ==> r.Ok?
  {
    var o := total - Done(reports) - count;
    if SpanInDisk(len, src, dst, 0, total) {
      ChunkInSpan(len, src, dst, total, o, count);
    }
    if r.Err? {
      StopPost(before, after, src, dst, total, cancelled, sourceSafe, r, reports);
    } else {
      DownStep(before, cur, after, src, dst, total, cancelled, sourceSafe, reports, count);
    }
  }

  /** The body of the high-to-low loop once the cancellation check has passed: copy the next chunk from the end. */
  method TransferDown(dev: Device, srcOffset: int, dstOffset: int, totalBytes: int,
                cancelled: nat -> bool, sourceSafe: bool, ghost before: seq<uint8>,
                reports: seq<int>, remaining: int, count: int)
    returns (r: Result<(), Failure>)
    requires srcOffset <= dstOffset
    requires CopyState(before, dev.disk, srcOffset, dstOffset, totalBytes, cancelled, sourceSafe, reports)
    requires !Honours(cancelled, sourceSafe, srcOffset, dstOffset, totalBytes, |reports|)
    requires Done(reports) < totalBytes && count == Min(ChunkSize, totalBytes - Done(reports))
    requires remaining == totalBytes - Done(reports) - count
    modifies dev`trace, dev`position, dev`disk
    ensures ExtendsWithCopyCalls(old(dev.trace), dev.trace)
    ensures r.Ok? ==> CopyState(before, dev.disk, srcOffset, dstOffset, totalBytes, cancelled, sourceSafe,
                                reports + [Done(reports) + count])
    ensures r.Err? ==> CopyPost(before, dev.disk, srcOffset, dstOffset, totalBytes, cancelled, sourceSafe, r, reports)
    ensures ((forall k: nat :: k < |dev.trace| ==> !dev.fails(k)) && SpanInDisk(|dev.disk|, srcOffset, dstOffset, 0, totalBytes)) ==> r.Ok?
  {
    ghost var cur := dev.disk;
    r := CopyChunk(dev, srcOffset + remaining, dstOffset + remaining, count);
    DownOutcome(before, cur, dev.disk, |dev.disk|, srcOffset, dstOffset, totalBytes,
               cancelled, sourceSafe, reports, count, r, forall k: nat :: k < |dev.trace| ==> !dev.fails(k));
  }

  /**
   * `CopySectors`, with the cancellation rule chosen by `sourceSafe`:
   * low to high when the destination lies before the source, high to low
   * otherwise.
   */
  method CopyChunks(dev: Device, srcOffset: int64, dstOffset: int64, totalBytes: int64,
                    cancelled: nat -> bool, sourceSafe: bool)
    returns (r: Result<(), Failure>, reports: seq<int>)
    modifies dev`trace, dev`position, dev`disk
    ensures CopyPost(old(dev.disk), dev.disk, srcOffset, dstOffset, totalBytes,
                     cancelled, sourceSafe, r, reports)
    ensures ExtendsWithCopyCalls(old(dev.trace), dev.trace)
    ensures ((forall k: nat :: k < |dev.trace| ==> !dev.fails(k)) && SpanInDisk(|dev.disk|, srcOffset, dstOffset, 0, totalBytes))
            ==> r.Ok? || r == Err(OperationCanceled)
  {
    if dstOffset < srcOffset {
      r, reports := CopyUp(dev, srcOffset, dstOffset, totalBytes, cancelled, sourceSafe);
    } else {
      r, reports := CopyDown(dev, srcOffset, dstOffset, totalBytes, cancelled, sourceSafe);
    }
  }

  /** The low-to-high loop of `CopySectors`, for a destination before the source. */
  method CopyUp(dev: Device, srcOffset: int64, dstOffset: int64, totalBytes: int64,
                cancelled: nat -> bool, sourceSafe: bool)
    returns (r: Result<(), Failure>, reports: seq<int>)
    requires dstOffset < srcOffset
    modifies dev`trace, dev`position, dev`disk
    ensures CopyPost(old(dev.disk), dev.disk, srcOffset, dstOffset, totalBytes,
                     cancelled, sourceSafe, r, reports)
    ensures ExtendsWithCopyCalls(old(dev.trace), dev.trace)
    ensures ((forall k: nat :: k < |dev.trace| ==> !dev.fails(k)) && SpanInDisk(|dev.disk|, srcOffset, dstOffset, 0, totalBytes))
            ==> r.Ok? || r == Err(OperationCanceled)
  {
    ghost var before := dev.disk;
    ghost var t0 := dev.trace;
    reports := [];
    var bytesCopied := 0;
    var pos := 0;
    while pos < totalBytes
      invariant 0 <= pos && bytesCopied == Done(reports) == Min(pos, Max0(totalBytes))
      invariant CopyState(before, dev.disk, srcOffset, dstOffset, totalBytes, cancelled, sourceSafe, reports)
      invariant ExtendsWithCopyCalls(t0, dev.trace)
      decreases totalBytes - pos
    {
      if Honours(cancelled, sourceSafe, srcOffset, dstOffset, totalBytes, |reports|) {
        r := Err(OperationCanceled);
        StopPost(before, dev.disk, srcOffset, dstOffset, totalBytes, cancelled, sourceSafe, r, reports);
        return;
      }
      var count := Min(ChunkSize, totalBytes - pos);
      ghost var t1 := dev.trace;
      var copied := TransferUp(dev, srcOffset as int, dstOffset as int, totalBytes as int,
                               cancelled, sourceSafe, before, reports, count);
      ExtendByCopyCalls(t0, t1, dev.trace);
      if copied.Err? {
        r := copied;
        return;
      }
      bytesCopied := bytesCopied + count;
      reports := reports + [bytesCopied];
      pos := pos + ChunkSize;
    }
    r := Ok(());
    StopPost(before, dev.disk, srcOffset, dstOffset, totalBytes, cancelled, sourceSafe, r, reports);
  }

  /** The high-to-low loop of `CopySectors`, for a destination at or after the source. */
  method CopyDown(dev: Device, srcOffset: int64, dstOffset: int64, totalBytes: int64,
                  cancelled: nat -> bool, sourceSafe: bool)
    returns (r: Result<(), Failure>, reports: seq<int>)
    requires srcOffset <= dstOffset
    modifies dev`trace, dev`position, dev`disk
    ensures CopyPost(old(dev.disk), dev.disk, srcOffset, dstOffset, totalBytes,
                     cancelled, sourceSafe, r, reports)
    ensures ExtendsWithCopyCalls(old(dev.trace), dev.trace)
    ensures ((forall k: nat :: k < |dev.trace| ==> !dev.fails(k)) && SpanInDisk(|dev.disk|, srcOffset, dstOffset, 0, totalBytes))
            ==> r.Ok? || r == Err(OperationCanceled)
  {
    ghost var before := dev.disk;
    ghost var t0 := dev.trace;
    reports := [];
    var bytesCopied := 0;
    var remaining := totalBytes as int;
    while remaining > 0
      invariant bytesCopied == Done(reports) && remaining == totalBytes - bytesCopied
      invariant CopyState(before, dev.disk, srcOffset, dstOffset, totalBytes, cancelled, sourceSafe, reports)
      invariant ExtendsWithCopyCalls(t0, dev.trace)
      decreases remaining
    {
      if Honours(cancelled, sourceSafe, srcOffset, dstOffset, totalBytes, |reports|) {
        r := Err(OperationCanceled);
        StopPost(before, dev.disk, srcOffset, dstOffset, totalBytes, cancelled, sourceSafe, r, reports);
        return;
      }
      var count := Min(ChunkSize, remaining);
      remaining := remaining - count;
      ghost var t1 := dev.trace;
      var copied := TransferDown(dev, srcOffset as int, dstOffset as int, totalBytes as int,
                                 cancelled, sourceSafe, before, reports, remaining, count);
      ExtendByCopyCalls(t0, t1, dev.trace);
      if copied.Err? {
        r := copied;
        return;
      }
      bytesCopied := bytesCopied + count;
      reports := reports + [bytesCopied];
    }
    r := Ok(());
    StopPost(before, dev.disk, srcOffset, dstOffset, totalBytes, cancelled, sourceSafe, r, reports);
  }

  // ------------------------------------------------------------ entry points

  /** `CopySectors` as written: the check before every chunk honours a requested cancellation. */
  method CopySectors(dev: Device, srcOffset: int64, dstOffset: int64, totalBytes: int64, cancelled: nat -> bool)
    returns (r: Result<(), Failure>, reports: seq<int>)
    modifies dev`trace, dev`position, dev`disk
    ensures CopyPost(old(dev.disk), dev.disk, srcOffset, dstOffset, totalBytes, cancelled, false, r, reports)
    ensures ExtendsWithCopyCalls(old(dev.trace), dev.trace)
    ensures ((forall k: nat :: k < |dev.trace| ==> !dev.fails(k)) && SpanInDisk(|dev.disk|, srcOffset, dstOffset, 0, totalBytes))
            ==> r.Ok? || r == Err(OperationCanceled)
  {
    r, reports := CopyChunks(dev, srcOffset, dstOffset, totalBytes, cancelled, false);
  }

  /**
   * `CopySectors` keeping the promise that a cancelled copy leaves the
   * source intact: once a chunk has been written over an overlapping
   * source, a cancellation request is no longer honoured.
   */
  method CopySectorsSourceSafe(dev: Device, srcOffset: int64, dstOffset: int64, totalBytes: int64, cancelled: nat -> bool)
    returns (r: Result<(), Failure>, reports: seq<int>)
    modifies dev`trace, dev`position, dev`disk
    ensures CopyPost(old(dev.disk), dev.disk, srcOffset, dstOffset, totalBytes, cancelled, true, r, reports)
    ensures ExtendsWithCopyCalls(old(dev.trace), dev.trace)
    ensures ((forall k: nat :: k < |dev.trace| ==> !dev.fails(k)) && SpanInDisk(|dev.disk|, srcOffset, dstOffset, 0, totalBytes))
            ==> r.Ok? || r == Err(OperationCanceled)
  {
    r, reports := CopyChunks(dev, srcOffset, dstOffset, totalBytes, cancelled, true);
  }

  // ------------------------------------------------------------ properties

  /** However the copy ends, it has written only inside the destination range. */
  lemma CopyWritesOnlyDestination(before: seq<uint8>, after: seq<uint8>, src: int, dst: int, total: int,
                                  cancelled: nat -> bool, sourceSafe: bool,
                                  r: Result<(), Failure>, reports: seq<int>)
    requires CopyPost(before, after, src, dst, total, cancelled, sourceSafe, r, reports)
    ensures |after| == |before|
    ensures forall i :: 0 <= i < |before| && !(dst <= i < dst + total) ==> after[i] == before[i]
  {
    var done := Done(reports);
    CopyRangeBytes(before, src, dst, DoneLo(src, dst, total, done), DoneHi(src, dst, total, done));
  }

  /** A completed copy behaves like `memmove`: the destination holds the source as it was. */
  lemma CompletedCopyMovesRange(before: seq<uint8>, after: seq<uint8>, src: int, dst: int, total: int,
                                cancelled: nat -> bool, sourceSafe: bool, reports: seq<int>)
    requires CopyPost(before, after, src, dst, total, cancelled, sourceSafe, Ok(()), reports)
    ensures total > 0 ==> 0 <= src && src + total <= |before| && 0 <= dst && dst + total <= |before|
    ensures forall i :: dst <= i < dst + total ==> after[i] == before[i - dst + src]
  {
    CopyRangeBytes(before, src, dst, 0, Max0(total));
  }

  /**
   * A cancelled copy leaves the source intact when nothing was copied yet
   * or when source and destination do not overlap.
   */
  lemma CancelledCopyKeepsSource(before: seq<uint8>, after: seq<uint8>, src: int, dst: int, total: int,
                                 cancelled: nat -> bool, sourceSafe: bool, reports: seq<int>)
    requires CopyPost(before, after, src, dst, total, cancelled, sourceSafe, Err(OperationCanceled), reports)
    requires reports == [] || RangesDisjoint(src, dst, total)
    ensures forall i :: src <= i < src + total && 0 <= i < |before| ==> after[i] == before[i]
  {
    var done := Done(reports);
    var lo := DoneLo(src, dst, total, done);
    var hi := DoneHi(src, dst, total, done);
    CopyRangeBytes(before, src, dst, lo, hi);
    forall i | src <= i < src + total && 0 <= i < |before| ensures after[i] == before[i] {
      assert !(dst + lo <= i < dst + hi);
    }
  }

  /** The source-safe copy keeps the promise: cancelled, it leaves the source intact. */
  lemma CancelledSafeCopyKeepsSource(before: seq<uint8>, after: seq<uint8>, src: int, dst: int, total: int,
                                     cancelled: nat -> bool, reports: seq<int>)
    requires CopyPost(before, after, src, dst, total, cancelled, true, Err(OperationCanceled), reports)
    ensures forall i :: src <= i < src + total && 0 <= i < |before| ==> after[i] == before[i]
  {
    CancelledCopyKeepsSource(before, after, src, dst, total, cancelled, true, reports);
  }

  /**
   * As written, cancelling before the second chunk of a short move to the
   * left (destination less than one chunk before the source) leaves the
   * first chunk written over the start of the source: the source byte at
   * `src` now holds the one that was at `2 * src - dst`.
   */
  lemma CancelledOverlapClobbersSource(before: seq<uint8>, after: seq<uint8>, src: int, dst: int, total: int,
                                       cancelled: nat -> bool, reports: seq<int>)
    requires CopyPost(before, after, src, dst, total, cancelled, false, Err(OperationCanceled), reports)
    requires dst < src < dst + ChunkSize && ChunkSize < total
    requires !cancelled(0) && cancelled(1)
    requires 0 <= 2 * src - dst < |before| && before[2 * src - dst] != before[src]
    ensures |reports| == 1 && reports[0] == ChunkSize
    ensures after[src] != before[src]
  {
    assert |reports| != 0;
    assert Honours(cancelled, false, src, dst, total, 1);
    assert ChunkAt(reports, 0) == reports[0];
    CopyRangeBytes(before, src, dst, 0, ChunkSize);
    assert dst <= src < dst + ChunkSize;
  }
}
