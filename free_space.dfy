/**
 * The free-space gap walk that offers destinations for a partition move:
 * partitions of positive size, ordered by starting offset, are walked with a
 * cursor from the start of the disk, and every gap at least as large as the
 * partition being moved becomes a free-space region.
 */
module FreeSpace {
  import opened Common

  /** A partition as the disk service reports it. */
  datatype PartitionInfo = PartitionInfo(
    diskIndex: int32,
    partitionIndex: int32,
    startingOffset: int64,
    sizeBytes: int64,
    partitionType: string,
    isBootable: bool,
    isActive: bool,
    driveLetter: Option<string>)

  /** A physical disk as the disk service reports it. */
  datatype DiskInfo = DiskInfo(
    diskNumber: int32,
    model: string,
    sizeBytes: int64,
    mediaType: string,
    status: string,
    interfaceType: string)

  /** A run of unallocated bytes. */
  datatype FreeSpaceRegion = FreeSpaceRegion(startOffsetBytes: int64, sizeBytes: int64)

  const TwoTo64: int := 0x1_0000_0000_0000_0000

  /**
   * C# `long` addition and subtraction: the exact sum or difference of two
   * longs, which lies within one turn of 2^64 of the long range, reduced to
   * 64-bit two's complement.
   */
  function Wrap64(x: int): (r: int64)
    requires -TwoTo64 <= x < TwoTo64
    ensures r == x || r == x - TwoTo64 || r == x + TwoTo64
    ensures -0x8000_0000_0000_0000 <= x < 0x8000_0000_0000_0000 ==> r == x
  {
    if x >= 0x8000_0000_0000_0000 then x - TwoTo64
    else if x < -0x8000_0000_0000_0000 then x + TwoTo64
    else x
  }

  /** The wrap agrees with the two's-complement reduction modulo 2^64. */
  lemma Wrap64IsTwosComplement(x: int)
    requires -TwoTo64 <= x < TwoTo64
    ensures Wrap64(x) == (x + 0x8000_0000_0000_0000) % TwoTo64 - 0x8000_0000_0000_0000
  {
    var y := x + 0x8000_0000_0000_0000;
    if y >= TwoTo64 {
      assert y % TwoTo64 == y - TwoTo64;
    } else if y < 0 {
      assert y % TwoTo64 == y + TwoTo64;
    } else {
      assert y % TwoTo64 == y;
    }
  }

  /** One past the last byte of `p` (computed as the source does, in `long`): the true end whenever it fits. */
  function End(p: PartitionInfo): (e: int64)
    ensures -0x8000_0000_0000_0000 <= p.startingOffset as int + p.sizeBytes as int < 0x8000_0000_0000_0000 ==>
      e as int == p.startingOffset as int + p.sizeBytes as int
    ensures 0 <= p.startingOffset && 0 <= p.sizeBytes ==>
      e as int == p.startingOffset as int + p.sizeBytes as int || e < 0
  {
    Wrap64(p.startingOffset as int + p.sizeBytes as int)
  }

  // ------------------------------------------- filter and sort (LINQ part)

  /** `Where(p => p.SizeBytes > 0)`: what it keeps has positive size. */
  function Positive(ps: seq<PartitionInfo>): (r: seq<PartitionInfo>)
    ensures |r| <= |ps|
    ensures forall k :: 0 <= k < |r| ==> r[k].sizeBytes > 0
  {
    if ps == [] then []
    else if ps[0].sizeBytes > 0 then [ps[0]] + Positive(ps[1..])
    else Positive(ps[1..])
  }

  /** No partition of positive size is dropped, and nothing else comes in. */
  lemma {:induction false} PositiveSpec(ps: seq<PartitionInfo>)
    ensures forall x :: x in Positive(ps) <==> x in ps && x.sizeBytes > 0
  {
    if ps != [] {
      PositiveSpec(ps[1..]);
      assert ps == [ps[0]] + ps[1..];
    }
  }

  /** The filter keeps positive partitions and drops the rest, wherever they sit. */
  lemma {:induction false} PositiveAppend(a: seq<PartitionInfo>, b: seq<PartitionInfo>)
    ensures Positive(a + b) == Positive(a) + Positive(b)
  {
    if a == [] {
      assert a + b == b;
    } else {
      var x, t := a[0], a[1..];
      assert a == [x] + t;
      assert a + b == [x] + (t + b);
      PositiveAppend(t, b);
      PositiveCons(x, t);
      PositiveCons(x, t + b);
    }
  }

  /** The filter's step on one leading partition. */
  lemma PositiveCons(x: PartitionInfo, t: seq<PartitionInfo>)
    ensures Positive([x] + t) == (if x.sizeBytes > 0 then [x] else []) + Positive(t)
  {
    assert ([x] + t)[1..] == t;
  }

  predicate SortedByOffset(s: seq<PartitionInfo>) {
    forall a, b :: 0 <= a < b < |s| ==> s[a].startingOffset <= s[b].startingOffset
  }

  /** Places `p` before the first element whose offset is not smaller; the rest keep their order. */
  function InsertByOffset(p: PartitionInfo, s: seq<PartitionInfo>): (r: seq<PartitionInfo>)
    ensures |r| == |s| + 1
  {
    if s == [] || p.startingOffset <= s[0].startingOffset then [p] + s
    else [s[0]] + InsertByOffset(p, s[1..])
  }

  /** `OrderBy(p => p.StartingOffset)`, as a stable insertion sort; it keeps the length. */
  function SortByOffset(s: seq<PartitionInfo>): (r: seq<PartitionInfo>)
    ensures |r| == |s|
  {
    if s == [] then [] else InsertByOffset(s[0], SortByOffset(s[1..]))
  }

  /** The partitions of `s` that start at `offset`, in their order in `s`. */
  function AtOffset(s: seq<PartitionInfo>, offset: int64): (r: seq<PartitionInfo>)
    ensures forall k :: 0 <= k < |r| ==> r[k].startingOffset == offset
  {
    if s == [] then []
    else (if s[0].startingOffset == offset then [s[0]] else []) + AtOffset(s[1..], offset)
  }

  lemma AtOffsetCons(x: PartitionInfo, t: seq<PartitionInfo>, offset: int64)
    ensures AtOffset([x] + t, offset) == (if x.startingOffset == offset then [x] else []) + AtOffset(t, offset)
  {
    assert ([x] + t)[1..] == t;
  }

  /** Insertion puts `p` before every element with its own offset. */
  lemma {:induction false} InsertStable(p: PartitionInfo, s: seq<PartitionInfo>, offset: int64)
    ensures AtOffset(InsertByOffset(p, s), offset)
         == (if p.startingOffset == offset then [p] else []) + AtOffset(s, offset)
  {
    if s == [] || p.startingOffset <= s[0].startingOffset {
      assert InsertByOffset(p, s) == [p] + s;
      AtOffsetCons(p, s, offset);
    } else {
      InsertStable(p, s[1..], offset);
      InsertPastHead(p, s, offset);
    }
  }

  /** Insertion past a head with a smaller offset: the two cannot share `offset`. */
  lemma InsertPastHead(p: PartitionInfo, s: seq<PartitionInfo>, offset: int64)
    requires s != [] && p.startingOffset > s[0].startingOffset
    requires AtOffset(InsertByOffset(p, s[1..]), offset)
          == (if p.startingOffset == offset then [p] else []) + AtOffset(s[1..], offset)
    ensures AtOffset(InsertByOffset(p, s), offset)
         == (if p.startingOffset == offset then [p] else []) + AtOffset(s, offset)
  {
    var x, t := s[0], s[1..];
    var inserted := InsertByOffset(p, t);
    var xs := if x.startingOffset == offset then [x] else [];
    var ps := if p.startingOffset == offset then [p] else [];
    assert AtOffset(s, offset) == xs + AtOffset(t, offset) by {
      assert s == [x] + t;
      AtOffsetCons(x, t, offset);
    }
    assert AtOffset(InsertByOffset(p, s), offset) == xs + AtOffset(inserted, offset) by {
      assert InsertByOffset(p, s) == [x] + inserted;
      AtOffsetCons(x, inserted, offset);
    }
    if x.startingOffset == offset {
      assert ps == [];
      assert ps + AtOffset(t, offset) == AtOffset(t, offset);
      assert ps + AtOffset(s, offset) == AtOffset(s, offset);
    } else {
      assert xs == [];
      assert xs + AtOffset(t, offset) == AtOffset(t, offset);
      assert xs + AtOffset(inserted, offset) == AtOffset(inserted, offset);
    }
  }

  /**
   * `OrderBy` is stable: partitions sharing a starting offset keep their
   * input order, so the walk's cursor ends at the same one as in the source.
   */
  lemma {:induction false} SortStable(s: seq<PartitionInfo>, offset: int64)
    ensures AtOffset(SortByOffset(s), offset) == AtOffset(s, offset)
  {
    if s != [] {
      SortStable(s[1..], offset);
      InsertStable(s[0], SortByOffset(s[1..]), offset);
      AtOffsetCons(s[0], s[1..], offset);
      assert s == [s[0]] + s[1..];
    }
  }

  /** Insertion adds `p` to the multiset of the list. */
  lemma {:induction false} InsertPermutes(p: PartitionInfo, s: seq<PartitionInfo>)
    ensures multiset(InsertByOffset(p, s)) == multiset(s) + multiset{p}
  {
    if s != [] && p.startingOffset > s[0].startingOffset {
      InsertPermutes(p, s[1..]);
      assert s == [s[0]] + s[1..];
    }
  }

  /** Insertion keeps a sorted list sorted. */
  lemma {:induction false} InsertSorted(p: PartitionInfo, s: seq<PartitionInfo>)
    requires SortedByOffset(s)
    ensures SortedByOffset(InsertByOffset(p, s))
  {
    if s != [] && p.startingOffset > s[0].startingOffset {
      var rest := InsertByOffset(p, s[1..]);
      assert SortedByOffset(s[1..]);
      InsertSorted(p, s[1..]);
      assert rest[0].startingOffset >= s[0].startingOffset by {
        if s[1..] != [] && p.startingOffset > s[1..][0].startingOffset {
          assert rest[0] == s[1];
        }
      }
      var r := [s[0]] + rest;
      forall a, b | 0 <= a < b < |r| ensures r[a].startingOffset <= r[b].startingOffset {
        if a == 0 {
          assert r[b] == rest[b - 1];
          assert b - 1 == 0 || rest[0].startingOffset <= rest[b - 1].startingOffset;
        } else {
          assert r[a] == rest[a - 1] && r[b] == rest[b - 1];
        }
      }
    }
  }

  /** The sort yields an ordered permutation of its input. */
  lemma {:induction false} SortSpec(s: seq<PartitionInfo>)
    ensures SortedByOffset(SortByOffset(s))
    ensures multiset(SortByOffset(s)) == multiset(s)
  {
    if s != [] {
      SortSpec(s[1..]);
      InsertPermutes(s[0], SortByOffset(s[1..]));
      InsertSorted(s[0], SortByOffset(s[1..]));
      assert s == [s[0]] + s[1..];
    }
  }

  // --------------------------------------------------------- the gap walk

  /** `AddIfLargeEnough`: the gap as a one-element list when its size reaches the minimum. */
  function AddIfLargeEnough(start: int64, size: int64, minSize: int64): (r: seq<FreeSpaceRegion>)
    ensures |r| <= 1
    ensures r != [] <==> size >= minSize
    ensures forall k :: 0 <= k < |r| ==> r[k] == FreeSpaceRegion(start, size)
  {
    if size >= minSize then [FreeSpaceRegion(start, size)] else []
  }

  /**
   * The regions the cursor walk over `sorted` emits, starting at `cursor` and ending with the
   * tail gap: at most one per gap, each at least the minimum size.
   */
  function Walk(sorted: seq<PartitionInfo>, cursor: int64, diskSize: int64, minSize: int64): (r: seq<FreeSpaceRegion>)
    ensures |r| <= |sorted| + 1
    ensures forall k :: 0 <= k < |r| ==> r[k].sizeBytes >= minSize
  {
    if sorted == [] then
      AddIfLargeEnough(cursor, Wrap64(diskSize as int - cursor as int), minSize)
    else
      var p := sorted[0];
      AddIfLargeEnough(cursor, Wrap64(p.startingOffset as int - cursor as int), minSize)
        + Walk(sorted[1..], End(p), diskSize, minSize)
  }

  /**
   * What `GetFreeSpaceRegions` returns: nothing for a disk without size, otherwise at most one
   * region more than there are partitions, each at least the minimum size.
   */
  function FreeRegions(diskSize: int64, partitions: seq<PartitionInfo>, minSize: int64): (r: seq<FreeSpaceRegion>)
    ensures diskSize <= 0 ==> r == []
    ensures |r| <= |partitions| + 1
    ensures forall k :: 0 <= k < |r| ==> r[k].sizeBytes >= minSize
  {
    if diskSize <= 0 then [] else Walk(SortByOffset(Positive(partitions)), 0, diskSize, minSize)
  }

  /** `GetFreeSpaceRegions`: filters and sorts the partitions, then walks the cursor across them. */
  method GetFreeSpaceRegions(disk: DiskInfo, partitions: seq<PartitionInfo>, partitionSizeBytes: int64)
    returns (regions: seq<FreeSpaceRegion>)
    ensures regions == FreeRegions(disk.sizeBytes, partitions, partitionSizeBytes)
    ensures forall k :: 0 <= k < |regions| ==> regions[k].sizeBytes >= partitionSizeBytes
  {
    if disk.sizeBytes <= 0 {
      return [];
    }
    var sorted := SortByOffset(Positive(partitions));
    regions := CursorWalk(sorted, disk.sizeBytes, partitionSizeBytes);
  }

  /** The cursor loop of `GetFreeSpaceRegions`: one gap per partition, then the tail gap. */
  method CursorWalk(sorted: seq<PartitionInfo>, diskSize: int64, minSize: int64)
    returns (regions: seq<FreeSpaceRegion>)
    ensures regions == Walk(sorted, 0, diskSize, minSize)
  {
    ghost var whole := Walk(sorted, 0, diskSize, minSize);
    regions := [];
    var cursor: int64 := 0;
    for i := 0 to |sorted|
      invariant regions + Walk(sorted[i..], cursor, diskSize, minSize) == whole
    {
      var p := sorted[i];
      WalkUnfold(regions, sorted, i, cursor, diskSize, minSize);
      regions := regions + AddIfLargeEnough(cursor, Wrap64(p.startingOffset as int - cursor as int), minSize);
      cursor := End(p);
    }
    WalkTail(regions, sorted, cursor, diskSize, minSize);
    regions := regions + AddIfLargeEnough(cursor, Wrap64(diskSize as int - cursor as int), minSize);
  }

  /** The walk's last step, once every partition has been passed. */
  lemma WalkTail(done: seq<FreeSpaceRegion>, sorted: seq<PartitionInfo>, cursor: int64, diskSize: int64, minSize: int64)
    ensures done + Walk(sorted[|sorted|..], cursor, diskSize, minSize)
         == done + AddIfLargeEnough(cursor, Wrap64(diskSize as int - cursor as int), minSize)
  {
    assert sorted[|sorted|..] == [];
  }

  /** One step of the walk, at position `i` of the sorted list, after the regions emitted so far. */
  lemma WalkUnfold(done: seq<FreeSpaceRegion>, sorted: seq<PartitionInfo>, i: nat, cursor: int64, diskSize: int64, minSize: int64)
    requires i < |sorted|
    ensures done + Walk(sorted[i..], cursor, diskSize, minSize)
         == (done + AddIfLargeEnough(cursor, Wrap64(sorted[i].startingOffset as int - cursor as int), minSize))
            + Walk(sorted[i + 1..], End(sorted[i]), diskSize, minSize)
  {
    assert sorted[i..][1..] == sorted[i + 1..];
  }

  // ------------------------------------------------------------ properties

  /** A disk of size zero or less has no free space. */
  lemma EmptyDiskHasNoRegions(diskSize: int64, partitions: seq<PartitionInfo>, minSize: int64)
    requires diskSize <= 0
    ensures FreeRegions(diskSize, partitions, minSize) == []
  {
  }

  /** With no partitions, the whole disk is one region when it is large enough. */
  lemma NoPartitionsWholeDisk(diskSize: int64, minSize: int64)
    requires diskSize > 0
    ensures FreeRegions(diskSize, [], minSize) == if diskSize >= minSize then [FreeSpaceRegion(0, diskSize)] else []
  {
  }

  /** Partitions of size zero or less never change the result, wherever they appear. */
  lemma NonPositiveIgnored(diskSize: int64, a: seq<PartitionInfo>, p: PartitionInfo, b: seq<PartitionInfo>, minSize: int64)
    requires p.sizeBytes <= 0
    ensures FreeRegions(diskSize, a + [p] + b, minSize) == FreeRegions(diskSize, a + b, minSize)
  {
    PositiveAppend(a + [p], b);
    PositiveAppend(a, [p]);
    PositiveAppend(a, b);
    assert Positive([p]) == [];
    assert Positive(a) + [] == Positive(a);
  }

  /** A single partition covering the whole disk leaves no region for a positive minimum. */
  lemma FullDiskHasNoRegions(diskSize: int64, p: PartitionInfo, minSize: int64)
    requires diskSize > 0 && p.startingOffset == 0 && p.sizeBytes == diskSize && minSize > 0
    ensures FreeRegions(diskSize, [p], minSize) == []
  {
    SingleSorted(p);
    assert End(p) == diskSize;
    assert Walk([], diskSize, diskSize, minSize) == [];
    assert Walk([p], 0, diskSize, minSize) == [] + Walk([], diskSize, diskSize, minSize);
  }

  /** A gap exactly the minimum size is kept. */
  lemma ExactFitKept(diskSize: int64, p: PartitionInfo, minSize: int64)
    requires 0 < minSize < diskSize && p.startingOffset == 0 && p.sizeBytes == diskSize - minSize
    ensures FreeRegions(diskSize, [p], minSize) == [FreeSpaceRegion(diskSize - minSize, minSize)]
  {
    SingleSorted(p);
    var e := diskSize - minSize;
    assert End(p) == e;
    assert Walk([], e, diskSize, minSize) == [FreeSpaceRegion(e, minSize)];
    assert Walk([p], 0, diskSize, minSize) == [] + Walk([], e, diskSize, minSize);
  }

  /** A one-partition list of positive size passes the filter and the sort unchanged. */
  lemma SingleSorted(p: PartitionInfo)
    requires p.sizeBytes > 0
    ensures SortByOffset(Positive([p])) == [p]
  {
    assert [p][1..] == [];
    assert Positive([p]) == [p] + Positive([]);
    assert SortByOffset([p]) == InsertByOffset(p, SortByOffset([]));
  }

  /** The 100 GiB disk with partitions at [0, 20) and [30, 60) GiB has free regions (20, 10) and (60, 40) GiB. */
  lemma TwoPartitionScenario()
    ensures var gb := 0x4000_0000;
      FreeRegions(100 * gb,
        [PartitionInfo(0, 0, 0, 20 * gb, "NTFS", false, false, None),
         PartitionInfo(0, 0, 30 * gb, 30 * gb, "NTFS", false, false, None)], gb)
      == [FreeSpaceRegion(20 * gb, 10 * gb), FreeSpaceRegion(60 * gb, 40 * gb)]
  {
    var gb := 0x4000_0000;
    var p := PartitionInfo(0, 0, 0, 20 * gb, "NTFS", false, false, None);
    var q := PartitionInfo(0, 0, 30 * gb, 30 * gb, "NTFS", false, false, None);
    assert [p, q][1..] == [q] && [q][1..] == [];
    assert Positive([q]) == [q] + Positive([]);
    assert Positive([p, q]) == [p] + Positive([q]);
    assert SortByOffset([q]) == InsertByOffset(q, SortByOffset([]));
    assert SortByOffset([p, q]) == InsertByOffset(p, SortByOffset([q]));
    assert InsertByOffset(p, [q]) == [p, q];
    assert End(p) == 20 * gb && End(q) == 60 * gb;
    var tail := Walk([], 60 * gb, 100 * gb, gb);
    assert tail == [FreeSpaceRegion(60 * gb, 40 * gb)];
    assert Walk([q], 20 * gb, 100 * gb, gb) == [FreeSpaceRegion(20 * gb, 10 * gb)] + tail;
    assert Walk([p, q], 0, 100 * gb, gb) == [] + Walk([q], 20 * gb, 100 * gb, gb);
  }

  // --------------------------------------------- layout of the free regions

  /** `p` has positive size and lies inside the disk. */
  predicate InsideDisk(p: PartitionInfo, diskSize: int) {
    0 <= p.startingOffset && p.startingOffset + p.sizeBytes <= diskSize
  }

  /** Two partitions of positive size share no byte. */
  predicate Apart(p: PartitionInfo, q: PartitionInfo) {
    p.sizeBytes <= 0 || q.sizeBytes <= 0
    || p.startingOffset + p.sizeBytes <= q.startingOffset
    || q.startingOffset + q.sizeBytes <= p.startingOffset
  }

  /** No two entries of positive size share a byte. */
  predicate PairwiseApart(s: seq<PartitionInfo>) {
    forall a, b :: 0 <= a < b < |s| ==> Apart(s[a], s[b])
  }

  /** Each partition ends at or before the next one starts. */
  predicate Chained(s: seq<PartitionInfo>) {
    forall a, b :: 0 <= a < b < |s| ==> s[a].startingOffset + s[a].sizeBytes <= s[b].startingOffset
  }

  lemma PairwiseCons(x: PartitionInfo, t: seq<PartitionInfo>)
    ensures PairwiseApart([x] + t) <==> (forall y :: y in t ==> Apart(x, y)) && PairwiseApart(t)
  {
    var s := [x] + t;
    if PairwiseApart(s) {
      forall y | y in t ensures Apart(x, y) {
        var k :| 0 <= k < |t| && t[k] == y;
        assert s[0] == x && s[k + 1] == y;
      }
      forall a, b | 0 <= a < b < |t| ensures Apart(t[a], t[b]) {
        assert s[a + 1] == t[a] && s[b + 1] == t[b];
      }
    }
    if (forall y :: y in t ==> Apart(x, y)) && PairwiseApart(t) {
      forall a, b | 0 <= a < b < |s| ensures Apart(s[a], s[b]) {
        if a == 0 {
          assert s[b] == t[b - 1] && s[b] in t;
        } else {
          assert s[a] == t[a - 1] && s[b] == t[b - 1];
        }
      }
    }
  }

  lemma {:induction false} PositiveKeepsApart(s: seq<PartitionInfo>)
    requires PairwiseApart(s)
    ensures PairwiseApart(Positive(s))
  {
    if s != [] {
      assert s == [s[0]] + s[1..];
      PairwiseCons(s[0], s[1..]);
      PositiveKeepsApart(s[1..]);
      if s[0].sizeBytes > 0 {
        PositiveSpec(s[1..]);
        PairwiseCons(s[0], Positive(s[1..]));
      }
    }
  }

  lemma {:induction false} InsertKeepsApart(p: PartitionInfo, s: seq<PartitionInfo>)
    requires PairwiseApart(s)
    requires forall x :: x in s ==> Apart(p, x)
    ensures PairwiseApart(InsertByOffset(p, s))
  {
    if s == [] || p.startingOffset <= s[0].startingOffset {
      PairwiseCons(p, s);
    } else {
      assert s == [s[0]] + s[1..];
      PairwiseCons(s[0], s[1..]);
      InsertKeepsApart(p, s[1..]);
      var rest := InsertByOffset(p, s[1..]);
      InsertPermutes(p, s[1..]);
      forall y | y in rest ensures Apart(s[0], y) {
        assert y in multiset(rest);
        if y != p {
          assert y in multiset(s[1..]);
          assert y in s[1..];
        } else {
          assert s[0] in s;
        }
      }
      PairwiseCons(s[0], rest);
    }
  }

  lemma {:induction false} SortKeepsApart(s: seq<PartitionInfo>)
    requires PairwiseApart(s)
    ensures PairwiseApart(SortByOffset(s))
  {
    if s != [] {
      assert s == [s[0]] + s[1..];
      PairwiseCons(s[0], s[1..]);
      SortKeepsApart(s[1..]);
      SortSpec(s[1..]);
      var t := SortByOffset(s[1..]);
      forall x | x in t ensures Apart(s[0], x) {
        assert x in multiset(t);
        assert x in multiset(s[1..]);
      }
      InsertKeepsApart(s[0], t);
    }
  }

  /** Sorted partitions of positive size that share no byte follow one another. */
  lemma SortedApartIsChained(s: seq<PartitionInfo>)
    requires SortedByOffset(s) && PairwiseApart(s)
    requires forall k :: 0 <= k < |s| ==> s[k].sizeBytes > 0
    ensures Chained(s)
  {
  }

  /** Every byte of region `r` is outside partition `p`. */
  predicate RegionApart(r: FreeSpaceRegion, p: PartitionInfo) {
    r.startOffsetBytes + r.sizeBytes <= p.startingOffset || p.startingOffset + p.sizeBytes <= r.startOffsetBytes
  }

  predicate Within(w: seq<FreeSpaceRegion>, lo: int, hi: int) {
    forall k :: 0 <= k < |w| ==> lo <= w[k].startOffsetBytes && w[k].startOffsetBytes + w[k].sizeBytes <= hi
  }

  /** Each region ends at or before the next one starts. */
  predicate Ascending(w: seq<FreeSpaceRegion>) {
    forall a, b :: 0 <= a < b < |w| ==> w[a].startOffsetBytes + w[a].sizeBytes <= w[b].startOffsetBytes
  }

  predicate ClearOf(w: seq<FreeSpaceRegion>, s: seq<PartitionInfo>) {
    forall k, j :: 0 <= k < |w| && 0 <= j < |s| ==> RegionApart(w[k], s[j])
  }

  /** The hypotheses of the layout lemmas: chained partitions inside the disk, after the cursor. */
  predicate WalkReady(s: seq<PartitionInfo>, cursor: int64, diskSize: int64) {
    && Chained(s)
    && (forall k :: 0 <= k < |s| ==> s[k].sizeBytes > 0 && InsideDisk(s[k], diskSize) && cursor <= s[k].startingOffset)
    && 0 <= cursor <= diskSize
  }

  /** The first step of the walk over ready partitions, with its arithmetic exact. */
  lemma WalkHead(s: seq<PartitionInfo>, cursor: int64, diskSize: int64, minSize: int64)
    requires WalkReady(s, cursor, diskSize) && s != []
    ensures End(s[0]) == s[0].startingOffset + s[0].sizeBytes
    ensures WalkReady(s[1..], End(s[0]), diskSize)
    ensures Walk(s, cursor, diskSize, minSize)
         == AddIfLargeEnough(cursor, s[0].startingOffset - cursor, minSize) + Walk(s[1..], End(s[0]), diskSize, minSize)
  {
    var t := s[1..];
    assert forall k :: 0 <= k < |t| ==> t[k] == s[k + 1];
    assert forall a, b :: 0 <= a < b < |t| ==> t[a].startingOffset + t[a].sizeBytes <= t[b].startingOffset;
  }

  /** The walk from a cursor stays inside [cursor, diskSize). */
  lemma {:induction false} WalkWithin(s: seq<PartitionInfo>, cursor: int64, diskSize: int64, minSize: int64)
    requires WalkReady(s, cursor, diskSize)
    ensures Within(Walk(s, cursor, diskSize, minSize), cursor, diskSize)
  {
    if s == [] {
      assert Wrap64(diskSize as int - cursor as int) == diskSize - cursor;
    } else {
      WalkHead(s, cursor, diskSize, minSize);
      WalkWithin(s[1..], End(s[0]), diskSize, minSize);
      var head := AddIfLargeEnough(cursor, s[0].startingOffset - cursor, minSize);
      var rest := Walk(s[1..], End(s[0]), diskSize, minSize);
      var w := head + rest;
      forall k | 0 <= k < |w|
        ensures cursor <= w[k].startOffsetBytes && w[k].startOffsetBytes + w[k].sizeBytes <= diskSize
      {
        if k >= |head| {
          assert w[k] == rest[k - |head|];
        }
      }
    }
  }

  /** With a positive minimum, the walk emits regions in ascending order, one ending before the next starts. */
  lemma {:induction false} WalkAscending(s: seq<PartitionInfo>, cursor: int64, diskSize: int64, minSize: int64)
    requires WalkReady(s, cursor, diskSize) && minSize > 0
    ensures Ascending(Walk(s, cursor, diskSize, minSize))
  {
    if s != [] {
      WalkHead(s, cursor, diskSize, minSize);
      WalkAscending(s[1..], End(s[0]), diskSize, minSize);
      WalkWithin(s[1..], End(s[0]), diskSize, minSize);
      var head := AddIfLargeEnough(cursor, s[0].startingOffset - cursor, minSize);
      var rest := Walk(s[1..], End(s[0]), diskSize, minSize);
      var w := head + rest;
      forall a, b | 0 <= a < b < |w| ensures w[a].startOffsetBytes + w[a].sizeBytes <= w[b].startOffsetBytes {
        if a < |head| {
          assert w[b] == rest[b - |head|];
        } else {
          assert w[a] == rest[a - |head|] && w[b] == rest[b - |head|];
        }
      }
    }
  }

  /** The walk emits no region sharing a byte with any of the partitions. */
  lemma {:induction false} WalkClear(s: seq<PartitionInfo>, cursor: int64, diskSize: int64, minSize: int64)
    requires WalkReady(s, cursor, diskSize)
    ensures ClearOf(Walk(s, cursor, diskSize, minSize), s)
  {
    if s != [] {
      WalkHead(s, cursor, diskSize, minSize);
      WalkClear(s[1..], End(s[0]), diskSize, minSize);
      WalkWithin(s[1..], End(s[0]), diskSize, minSize);
      var head := AddIfLargeEnough(cursor, s[0].startingOffset - cursor, minSize);
      var rest := Walk(s[1..], End(s[0]), diskSize, minSize);
      var w := head + rest;
      forall k, j | 0 <= k < |w| && 0 <= j < |s| ensures RegionApart(w[k], s[j]) {
        if k < |head| {
          if j > 0 {
            assert s[0].startingOffset + s[0].sizeBytes <= s[j].startingOffset;
          }
        } else {
          assert w[k] == rest[k - |head|];
          if j > 0 {
            assert s[j] == s[1..][j - 1];
          }
        }
      }
    }
  }

  /**
   * For partitions inside the disk that share no byte and a positive
   * minimum, the regions lie inside the disk, come in strictly ascending
   * order, share no byte with one another, and share no byte with any
   * partition of positive size. In particular a destination picked from the
   * regions computed with the source partition in the list never overlaps
   * the source.
   */
  lemma RegionsAreFreeAndOrdered(diskSize: int64, partitions: seq<PartitionInfo>, minSize: int64)
    requires minSize > 0
    requires PairwiseApart(partitions)
    requires forall k :: 0 <= k < |partitions| && partitions[k].sizeBytes > 0 ==> InsideDisk(partitions[k], diskSize)
    ensures var w := FreeRegions(diskSize, partitions, minSize);
      && Within(w, 0, diskSize)
      && Ascending(w)
      && (forall a, b :: 0 <= a < b < |w| ==> w[a].startOffsetBytes < w[b].startOffsetBytes)
      && (forall k :: 0 <= k < |w| ==> w[k].sizeBytes >= minSize)
      && (forall k, j :: 0 <= k < |w| && 0 <= j < |partitions| && partitions[j].sizeBytes > 0 ==>
            RegionApart(w[k], partitions[j]))
  {
    if diskSize > 0 {
      var s := PreparedForWalk(diskSize, partitions);
      WalkWithin(s, 0, diskSize, minSize);
      WalkAscending(s, 0, diskSize, minSize);
      WalkClear(s, 0, diskSize, minSize);
      var w := Walk(s, 0, diskSize, minSize);
      forall k, j | 0 <= k < |w| && 0 <= j < |partitions| && partitions[j].sizeBytes > 0
        ensures RegionApart(w[k], partitions[j])
      {
        var i :| 0 <= i < |s| && s[i] == partitions[j];
      }
    }
  }

  /**
   * Filtering and sorting partitions that lie inside the disk and share no
   * byte gives a list the walk can start on at offset 0, holding every
   * partition of positive size.
   */
  lemma PreparedForWalk(diskSize: int64, partitions: seq<PartitionInfo>) returns (s: seq<PartitionInfo>)
    requires diskSize > 0
    requires PairwiseApart(partitions)
    requires forall k :: 0 <= k < |partitions| && partitions[k].sizeBytes > 0 ==> InsideDisk(partitions[k], diskSize)
    ensures s == SortByOffset(Positive(partitions))
    ensures WalkReady(s, 0, diskSize)
    ensures forall j :: 0 <= j < |partitions| && partitions[j].sizeBytes > 0 ==> partitions[j] in s
  {
    var pos := Positive(partitions);
    PositiveKeepsApart(partitions);
    PositiveSpec(partitions);
    s := SortByOffset(pos);
    SortSpec(pos);
    SortKeepsApart(pos);
    forall k | 0 <= k < |s| ensures s[k].sizeBytes > 0 && InsideDisk(s[k], diskSize) {
      assert s[k] in multiset(s);
      assert s[k] in pos;
      var j :| 0 <= j < |partitions| && partitions[j] == s[k];
    }
    SortedApartIsChained(s);
    forall j | 0 <= j < |partitions| && partitions[j].sizeBytes > 0 ensures partitions[j] in s {
      assert partitions[j] in pos;
      assert partitions[j] in multiset(s);
    }
  }
}
