/** Reading file contents along a FAT16 cluster chain (`src/filesystem/fat/fat16.c`). */
module Fat16 {
  import opened Options
  import opened Ram
  import opened DiskStreamer

  /** What the reader needs of the volume: the disk, the geometry, and for every cluster the
      entry fat16_get_fat_entry reads, a 16-bit value. */
  datatype Volume = Volume(disk: Disk, next: int -> nat, sectorsPerCluster: nat, endingSector: int)

  predicate Formatted(v: Volume) {
    v.sectorsPerCluster >= 1
  }

  function ClusterSize(v: Volume): (n: nat) {
    v.sectorsPerCluster * SECTOR_SIZE
  }

  /** The number of the cluster of the chain that holds byte `x` of the file. */
  function ClusterIndex(v: Volume, x: nat): (k: nat)
    requires Formatted(v)
  {
    x / ClusterSize(v)
  }

  /** The place of byte `x` of the file in its cluster. */
  function ClusterOffset(v: Volume, x: nat): (r: nat)
    requires Formatted(v)
    ensures r < ClusterSize(v)
  {
    x % ClusterSize(v)
  }

  /** fat16_cluster_to_sector, in bytes. */
  function ClusterPosition(v: Volume, cluster: int): int {
    (v.endingSector + (cluster - 2) * v.sectorsPerCluster) * SECTOR_SIZE
  }

  /** The entries at which the code stops: free, reserved, bad and end marks, as exact values. */
  predicate StopEntry(entry: int) {
    entry == 0xff8 || entry == 0xfff || entry == 0xff7 || entry == 0xff0 || entry == 0xff6 || entry == 0
  }

  /** The cluster after `hops` steps along the chain, if no step meets a stop entry. */
  function Hop(v: Volume, start: int, hops: nat): Option<int> {
    if hops == 0 then Some(start)
    else
      match Hop(v, start, hops - 1)
      case None => None
      case Some(c) => if StopEntry(v.next(c)) then None else Some(v.next(c))
  }

  /** One linear walk along the chain, cluster after cluster, cut to `total` bytes. */
  function LinearRead(v: Volume, cluster: int, total: nat): (r: Option<seq<Byte>>)
    requires Formatted(v)
    ensures r.Some? ==> |r.value| == total
    decreases total
  {
    var size := ClusterSize(v);
    if total <= size then Some(Slice(v.disk, ClusterPosition(v, cluster), total))
    else if StopEntry(v.next(cluster)) then None
    else
      match LinearRead(v, v.next(cluster), total - size)
      case None => None
      case Some(rest) => Some(Slice(v.disk, ClusterPosition(v, cluster), size) + rest)
  }

  /** What the code reads: it walks from the start for every piece, and sizes a piece by the
      cluster size wherever in the cluster the piece begins. */
  function CodeRead(v: Volume, start: int, offset: nat, total: nat): (r: Option<seq<Byte>>)
    requires Formatted(v)
    ensures r.Some? ==> |r.value| == total
    decreases total
  {
    var size := ClusterSize(v);
    match Hop(v, start, ClusterIndex(v, offset))
    case None => None
    case Some(c) =>
      var n := if total > size then size else total;
      var piece := Slice(v.disk, ClusterPosition(v, c) + ClusterOffset(v, offset), n);
      if total - n > 0 then
        match CodeRead(v, start, offset + n, total - n)
        case None => None
        case Some(rest) => Some(piece + rest)
      else Some(piece)
  }

  /** What reaches the buffer: everything read before the first hop that fails. */
  function CodePart(v: Volume, start: int, offset: nat, total: nat): (r: seq<Byte>)
    requires Formatted(v)
    ensures |r| <= total
    decreases total
  {
    var size := ClusterSize(v);
    match Hop(v, start, ClusterIndex(v, offset))
    case None => []
    case Some(c) =>
      var n := if total > size then size else total;
      var piece := Slice(v.disk, ClusterPosition(v, c) + ClusterOffset(v, offset), n);
      if total - n > 0 then piece + CodePart(v, start, offset + n, total - n) else piece
  }

  /** A read that succeeds brings all of it. */
  lemma {:induction false} PartOfWhole(v: Volume, start: int, offset: nat, total: nat)
    requires Formatted(v) && CodeRead(v, start, offset, total).Some?
    ensures CodePart(v, start, offset, total) == CodeRead(v, start, offset, total).value
    decreases total
  {
    if total > ClusterSize(v) {
      PartOfWhole(v, start, offset + ClusterSize(v), total - ClusterSize(v));
    }
  }

  // ---------------------------------------------------------------- arithmetic

  lemma DivUnique(a: int, m: nat, q: int, r: int)
    requires m > 0 && 0 <= r < m && a == q * m + r
    ensures a / m == q && a % m == r
  {
    var d := a / m - q;
    assert a == (a / m) * m + a % m;
    assert d * m == r - a % m;
    SmallMultiple(d, m);
  }

  lemma SmallMultiple(d: int, m: int)
    requires m > 0
    ensures d >= 1 ==> d * m >= m
    ensures d <= -1 ==> d * m <= -m
  {
  }

  /** `x` is the place `r` of cluster `k`. */
  predicate At(v: Volume, x: nat, k: nat, r: nat)
    requires Formatted(v)
  {
    ClusterIndex(v, x) == k && ClusterOffset(v, x) == r
  }

  lemma AtStart(v: Volume, x: nat)
    requires Formatted(v) && x < ClusterSize(v)
    ensures At(v, x, 0, x)
  {
    DivUnique(x, ClusterSize(v), 0, x);
  }

  lemma AtNext(v: Volume, x: nat)
    requires Formatted(v)
    ensures At(v, x + ClusterSize(v), ClusterIndex(v, x) + 1, ClusterOffset(v, x))
  {
    var size, q, r := ClusterSize(v), ClusterIndex(v, x), ClusterOffset(v, x);
    assert x == q * size + r;
    assert x + size == (q + 1) * size + r;
    DivUnique(x + size, size, q + 1, r);
  }

  lemma AtSum(v: Volume, x: nat, y: nat)
    requires Formatted(v) && ClusterOffset(v, x) + ClusterOffset(v, y) < ClusterSize(v)
    ensures At(v, x + y, ClusterIndex(v, x) + ClusterIndex(v, y), ClusterOffset(v, x) + ClusterOffset(v, y))
  {
    var size := ClusterSize(v);
    var q, r, p, s := ClusterIndex(v, x), ClusterOffset(v, x), ClusterIndex(v, y), ClusterOffset(v, y);
    assert x == q * size + r && y == p * size + s;
    assert x + y == (q + p) * size + (r + s);
    DivUnique(x + y, size, q + p, r + s);
  }

  // ---------------------------------------------------------------- aligned reads

  /** Re-walking the chain for every cluster equals one linear walk: an aligned read returns the
      concatenation of the clusters from the one at `offset` on, and fails exactly when the
      linear walk meets a stop entry. */
  lemma {:induction false} AlignedRead(v: Volume, start: int, offset: nat, total: nat)
    requires Formatted(v) && ClusterOffset(v, offset) == 0
    ensures CodeRead(v, start, offset, total) ==
            match Hop(v, start, ClusterIndex(v, offset)) { case None => None case Some(c) => LinearRead(v, c, total) }
    decreases total
  {
    var size := ClusterSize(v);
    if Hop(v, start, ClusterIndex(v, offset)).Some? && total > size {
      AtNext(v, offset);
      AlignedRead(v, start, offset + size, total - size);
    }
  }

  /** The number of hops from the first to the last cluster of `total` bytes. */
  function Further(v: Volume, total: nat): nat
    requires Formatted(v)
  {
    if total == 0 then 0 else ClusterIndex(v, total - 1)
  }

  lemma FurtherNext(v: Volume, total: nat)
    requires Formatted(v)
    ensures total <= ClusterSize(v) ==> Further(v, total) == 0
    ensures total > ClusterSize(v) ==> Further(v, total) == Further(v, total - ClusterSize(v)) + 1
  {
    if 0 < total <= ClusterSize(v) {
      AtStart(v, total - 1);
    } else if total > ClusterSize(v) {
      AtNext(v, total - 1 - ClusterSize(v));
    }
  }

  /** A linear walk fails exactly when one of the hops it needs fails. */
  lemma {:induction false} LinearReadFails(v: Volume, start: int, k: nat, total: nat)
    requires Formatted(v) && Hop(v, start, k).Some?
    ensures LinearRead(v, Hop(v, start, k).value, total).None? <==> Hop(v, start, k + Further(v, total)).None?
    decreases total
  {
    var size, c := ClusterSize(v), Hop(v, start, k).value;
    FurtherNext(v, total);
    if total > size {
      if StopEntry(v.next(c)) {
        HopStays(v, start, k + 1, k + Further(v, total));
      } else {
        LinearReadFails(v, start, k + 1, total - size);
      }
    }
  }

  lemma {:induction false} HopStays(v: Volume, start: int, j: nat, k: nat)
    requires j <= k && Hop(v, start, j).None?
    ensures Hop(v, start, k).None?
    decreases k
  {
    if j < k {
      HopStays(v, start, j, k - 1);
    }
  }

  /** A hop fails exactly when some entry on the way is a stop entry. */
  lemma {:induction false} HopFails(v: Volume, start: int, hops: nat)
    ensures Hop(v, start, hops).None? <==>
            exists j: nat :: j < hops && Hop(v, start, j).Some? && StopEntry(v.next(Hop(v, start, j).value))
  {
    if hops > 0 {
      HopFails(v, start, hops - 1);
      if Hop(v, start, hops - 1).Some? && Hop(v, start, hops).Some? {
        forall j: nat | j < hops && Hop(v, start, j).Some?
          ensures !StopEntry(v.next(Hop(v, start, j).value))
        {
        }
      }
    }
  }

  /** An aligned read fails exactly when an entry on the way to its last cluster is one of the
      stop values. */
  lemma AlignedReadFails(v: Volume, start: int, offset: nat, total: nat)
    requires Formatted(v) && ClusterOffset(v, offset) == 0
    ensures CodeRead(v, start, offset, total).None? <==>
            exists j: nat :: j < ClusterIndex(v, offset) + Further(v, total)
                          && Hop(v, start, j).Some? && StopEntry(v.next(Hop(v, start, j).value))
  {
    var k := ClusterIndex(v, offset);
    AlignedRead(v, start, offset, total);
    HopFails(v, start, k + Further(v, total));
    if Hop(v, start, k).None? {
      HopStays(v, start, k, k + Further(v, total));
    } else {
      LinearReadFails(v, start, k, total);
    }
  }

  // ---------------------------------------------------------------- unaligned reads

  /** Byte `x` of a chain, from cluster number `k` on. */
  function ChainByte(v: Volume, start: int, k: nat, x: nat): Option<Byte>
    requires Formatted(v)
  {
    match Hop(v, start, k + ClusterIndex(v, x))
    case None => None
    case Some(c) => Some(v.disk(ClusterPosition(v, c) + ClusterOffset(v, x)))
  }

  /** A linear walk reads the bytes of the chain in order. */
  lemma {:induction false} LinearByte(v: Volume, start: int, k: nat, total: nat, x: nat)
    requires Formatted(v) && x < total
    requires Hop(v, start, k).Some? && LinearRead(v, Hop(v, start, k).value, total).Some?
    ensures ChainByte(v, start, k, x) == Some(LinearRead(v, Hop(v, start, k).value, total).value[x])
    decreases total
  {
    var size := ClusterSize(v);
    if x < size {
      AtStart(v, x);
    } else {
      AtNext(v, x - size);
      LinearByte(v, start, k + 1, total - size, x - size);
    }
  }

  /** The bytes [offset, offset + total) of the file. */
  function FileBytes(v: Volume, start: int, offset: nat, total: nat): (r: Option<seq<Byte>>)
    requires Formatted(v)
    ensures r.Some? ==> |r.value| == total
  {
    match LinearRead(v, start, offset + total)
    case None => None
    case Some(bytes) => Some(bytes[offset..])
  }

  lemma FileByte(v: Volume, start: int, offset: nat, total: nat, i: nat)
    requires Formatted(v) && i < total && FileBytes(v, start, offset, total).Some?
    ensures ChainByte(v, start, 0, offset + i) == Some(FileBytes(v, start, offset, total).value[i])
  {
    LinearByte(v, start, 0, offset + total, offset + i);
  }

  /** The read starts on a cluster boundary or stays inside one cluster. */
  predicate Fits(size: nat, offset: nat, total: nat)
    requires size > 0
  {
    offset % size == 0 || offset % size + total <= size
  }

  /** All hops up to the last byte of the file's bytes succeed. */
  lemma FileHops(v: Volume, start: int, offset: nat, total: nat, j: nat)
    requires Formatted(v) && total > 0 && FileBytes(v, start, offset, total).Some?
    requires j <= ClusterIndex(v, offset + total - 1)
    ensures Hop(v, start, j).Some?
  {
    FileByte(v, start, offset, total, total - 1);
    if Hop(v, start, j).None? {
      HopStays(v, start, j, ClusterIndex(v, offset + total - 1));
    }
  }

  /** An aligned read of bytes the file has is the linear walk from its first cluster. */
  lemma AlignedSome(v: Volume, start: int, offset: nat, total: nat)
    requires Formatted(v) && total > 0 && ClusterOffset(v, offset) == 0
    requires FileBytes(v, start, offset, total).Some?
    ensures Hop(v, start, ClusterIndex(v, offset)).Some?
    ensures CodeRead(v, start, offset, total) == LinearRead(v, Hop(v, start, ClusterIndex(v, offset)).value, total)
    ensures CodeRead(v, start, offset, total).Some?
  {
    var k := ClusterIndex(v, offset);
    AtSum(v, offset, total - 1);
    FileHops(v, start, offset, total, k);
    FileHops(v, start, offset, total, k + Further(v, total));
    AlignedRead(v, start, offset, total);
    LinearReadFails(v, start, k, total);
  }

  /** Byte `i` of a read as the code does it. */
  function CodeByte(v: Volume, start: int, offset: nat, total: nat, i: nat): Option<Byte>
    requires Formatted(v) && i < total
  {
    match CodeRead(v, start, offset, total)
    case None => None
    case Some(bytes) => Some(bytes[i])
  }

  lemma AlignedByte(v: Volume, start: int, offset: nat, total: nat, i: nat)
    requires Formatted(v) && i < total && ClusterOffset(v, offset) == 0
    requires FileBytes(v, start, offset, total).Some?
    ensures CodeByte(v, start, offset, total, i) == ChainByte(v, start, 0, offset + i)
  {
    AlignedSome(v, start, offset, total);
    LinearByte(v, start, ClusterIndex(v, offset), total, i);
    AtSum(v, offset, i);
  }

  lemma InsideByte(v: Volume, start: int, offset: nat, total: nat, i: nat)
    requires Formatted(v) && i < total && ClusterOffset(v, offset) + total <= ClusterSize(v)
    requires FileBytes(v, start, offset, total).Some?
    ensures CodeByte(v, start, offset, total, i) == ChainByte(v, start, 0, offset + i)
  {
    AtStart(v, i);
    AtSum(v, offset, i);
    AtStart(v, total - 1);
    AtSum(v, offset, total - 1);
    FileHops(v, start, offset, total, ClusterIndex(v, offset));
  }

  /** Reads equal byte by byte are equal. */
  lemma SameBytes(v: Volume, start: int, offset: nat, total: nat)
    requires Formatted(v) && total > 0 && FileBytes(v, start, offset, total).Some?
    requires forall i: nat :: i < total ==> CodeByte(v, start, offset, total, i) == ChainByte(v, start, 0, offset + i)
    ensures CodeRead(v, start, offset, total) == FileBytes(v, start, offset, total)
  {
    FileByte(v, start, offset, total, 0);
    assert CodeByte(v, start, offset, total, 0).Some?;
    var code, file := CodeRead(v, start, offset, total).value, FileBytes(v, start, offset, total).value;
    forall i: nat | i < total
      ensures code[i] == file[i]
    {
      FileByte(v, start, offset, total, i);
      assert CodeByte(v, start, offset, total, i) == Some(code[i]);
    }
    assert code == file;
  }

  lemma FittingRead(v: Volume, start: int, offset: nat, total: nat)
    requires Formatted(v) && total > 0 && Fits(ClusterSize(v), offset, total)
    requires FileBytes(v, start, offset, total).Some?
    ensures CodeRead(v, start, offset, total) == FileBytes(v, start, offset, total)
  {
    forall i: nat | i < total
      ensures CodeByte(v, start, offset, total, i) == ChainByte(v, start, 0, offset + i)
    {
      if ClusterOffset(v, offset) == 0 {
        AlignedByte(v, start, offset, total, i);
      } else {
        InsideByte(v, start, offset, total, i);
      }
    }
    SameBytes(v, start, offset, total);
  }

  /** Two clusters that lead to each other, and physical neighbours with different bytes. */
  function TwoClusters(sectorsPerCluster: nat): Volume {
    var size := sectorsPerCluster * SECTOR_SIZE;
    Volume(p => if 9 * size <= p < 10 * size || 11 * size <= p < 12 * size then 1 else 0,
           c => if c == 10 then 12 else 10, sectorsPerCluster, 0)
  }

  lemma {:induction false} TwoClustersHop(n: nat, hops: nat)
    requires n >= 1
    ensures Hop(TwoClusters(n), 10, hops) == Some(10) || Hop(TwoClusters(n), 10, hops) == Some(12)
  {
    if hops > 0 {
      TwoClustersHop(n, hops - 1);
    }
  }

  lemma TwoClustersPosition(n: nat, c: int)
    ensures ClusterPosition(TwoClusters(n), c) == (c - 2) * (n * SECTOR_SIZE)
  {
  }

  lemma {:induction false} TwoClustersZero(n: nat, c: int, total: nat)
    requires n >= 1 && (c == 10 || c == 12)
    ensures LinearRead(TwoClusters(n), c, total) == Some(seq(total, _ => 0))
    decreases total
  {
    var v, size := TwoClusters(n), n * SECTOR_SIZE;
    TwoClustersPosition(n, c);
    var head := if total <= size then total else size;
    assert Slice(v.disk, ClusterPosition(v, c), head) == seq(head, _ => 0);
    if total > size {
      TwoClustersZero(n, v.next(c), total - size);
      assert seq(size, _ => 0) + seq(total - size, _ => 0) == seq(total, _ => 0);
    }
  }

  /** A read that crosses a cluster boundary from the middle of a cluster takes the bytes of the
      physically next cluster: on this volume it does not return the file's bytes. */
  lemma UnalignedWrong(n: nat, offset: nat, total: nat)
    requires n >= 1 && !Fits(n * SECTOR_SIZE, offset, total)
    ensures var v := TwoClusters(n);
            && FileBytes(v, 10, offset, total).Some?
            && CodeRead(v, 10, offset, total) != FileBytes(v, 10, offset, total)
  {
    var v, size := TwoClusters(n), n * SECTOR_SIZE;
    TwoClustersZero(n, 10, offset + total);
    var i := size - ClusterOffset(v, offset);
    StrayByte(n, offset, total, i);
    if CodeRead(v, 10, offset, total).Some? {
      assert CodeRead(v, 10, offset, total).value[i] == 1;
      assert FileBytes(v, 10, offset, total).value[i] == 0;
    }
  }

  /** The first byte past the end of the first cluster belongs to a physical neighbour. */
  lemma StrayByte(n: nat, offset: nat, total: nat, i: nat)
    requires n >= 1 && !Fits(n * SECTOR_SIZE, offset, total)
    requires i == n * SECTOR_SIZE - ClusterOffset(TwoClusters(n), offset)
    ensures i < total
    ensures var code := CodeRead(TwoClusters(n), 10, offset, total);
            code.Some? ==> code.value[i] == 1
  {
    var v, size := TwoClusters(n), n * SECTOR_SIZE;
    TwoClustersHop(n, ClusterIndex(v, offset));
    var c := Hop(v, 10, ClusterIndex(v, offset)).value;
    TwoClustersPosition(n, c);
    var m := if total > size then size else total;
    var piece := Slice(v.disk, ClusterPosition(v, c) + ClusterOffset(v, offset), m);
    assert piece[i] == v.disk((c - 1) * size);
    assert v.disk((c - 1) * size) == 1;
  }

  /** Exactly the reads that start on a cluster boundary or stay inside one cluster return the
      file's bytes on every volume. */
  lemma ReadExact(n: nat, offset: nat, total: nat)
    requires n >= 1 && total > 0
    ensures Fits(n * SECTOR_SIZE, offset, total) <==>
            forall v: Volume, start: int ::
              v.sectorsPerCluster == n && FileBytes(v, start, offset, total).Some? ==>
                CodeRead(v, start, offset, total) == FileBytes(v, start, offset, total)
  {
    if Fits(n * SECTOR_SIZE, offset, total) {
      forall v: Volume, start: int | v.sectorsPerCluster == n && FileBytes(v, start, offset, total).Some?
        ensures CodeRead(v, start, offset, total) == FileBytes(v, start, offset, total)
      {
        FittingRead(v, start, offset, total);
      }
    } else {
      UnalignedWrong(n, offset, total);
    }
  }

  // ---------------------------------------------------------------- the code

  /** Every cluster of the chain lies where byte positions fit a signed 32-bit integer. */
  ghost predicate Addressable(v: Volume, start: int) {
    forall k: nat :: Hop(v, start, k).Some? ==>
      0 <= ClusterPosition(v, Hop(v, start, k).value) < 0x8000_0000 - 2 * ClusterSize(v)
  }

  function Prepend(s: seq<Byte>, r: Option<seq<Byte>>): Option<seq<Byte>> {
    match r
    case None => None
    case Some(t) => Some(s + t)
  }

  /** The bytes of `count` records, count * size. */
  function RecordBytes(size: nat, count: nat): nat {
    if count == 0 then 0 else size + RecordBytes(size, count - 1)
  }

  lemma {:induction false} RecordBytesIsProduct(size: nat, count: nat)
    ensures RecordBytes(size, count) == count * size
  {
    if count > 0 {
      RecordBytesIsProduct(size, count - 1);
    }
  }

  /** All records of fat16_read: `count` reads of `size` bytes from `offset` on. */
  function Records(v: Volume, start: int, offset: nat, size: nat, count: nat): (r: Option<seq<Byte>>)
    requires Formatted(v)
    decreases count
  {
    if count == 0 then Some([])
    else
      match CodeRead(v, start, offset, size)
      case None => None
      case Some(first) => Prepend(first, Records(v, start, offset + size, size, count - 1))
  }

  /** What fat16_read leaves in the buffer: the records read, and what came of the one that
      failed. */
  function RecordsPart(v: Volume, start: int, offset: nat, size: nat, count: nat): (r: seq<Byte>)
    requires Formatted(v)
    ensures |r| <= RecordBytes(size, count)
    decreases count
  {
    if count == 0 then []
    else
      match CodeRead(v, start, offset, size)
      case None => CodePart(v, start, offset, size)
      case Some(first) => first + RecordsPart(v, start, offset + size, size, count - 1)
  }

  class FatReader {
    const volume: Volume
    const stream: DiskStream

    ghost predicate Valid() {
      Formatted(volume) && stream.primary && stream.disk == volume.disk
    }

    /** fat16_init_private: the cluster stream is opened on the volume's own disk. */
    constructor (volume: Volume)
      requires Formatted(volume)
      ensures Valid() && this.volume == volume && fresh(stream)
    {
      this.volume := volume;
      stream := new DiskStream(volume.disk, true);
    }

    /** fat16_get_cluster_for_offset. */
    method GetClusterForOffset(cluster: int, offset: nat) returns (res: int)
      requires Valid() && cluster >= 0
      ensures var h := Hop(volume, cluster, ClusterIndex(volume, offset));
              res == if h.Some? then h.value else IO_ERROR
      ensures res == IO_ERROR || res >= 0
      ensures res == -1 <==>
              exists j: nat :: j < offset / (volume.sectorsPerCluster * 512)
                && Hop(volume, cluster, j).Some?
                && volume.next(Hop(volume, cluster, j).value) in {0xff8, 0xfff, 0xff7, 0xff0, 0xff6, 0}
    {
      var clusterToUse := cluster;
      var clustersAhead := ClusterIndex(volume, offset);
      HopFails(volume, cluster, clustersAhead);
      var i := 0;
      while i < clustersAhead
        invariant 0 <= i <= clustersAhead && clusterToUse >= 0
        invariant Hop(volume, cluster, i) == Some(clusterToUse)
      {
        var entry := volume.next(clusterToUse);
        if entry == 0xff8 || entry == 0xfff {
          HopStays(volume, cluster, i + 1, clustersAhead);
          return IO_ERROR;
        }
        if entry == 0xff7 {
          HopStays(volume, cluster, i + 1, clustersAhead);
          return IO_ERROR;
        }
        if entry == 0xff0 || entry == 0xff6 {
          HopStays(volume, cluster, i + 1, clustersAhead);
          return IO_ERROR;
        }
        if entry == 0 {
          HopStays(volume, cluster, i + 1, clustersAhead);
          return IO_ERROR;
        }
        clusterToUse := entry;
        i := i + 1;
      }
      res := clusterToUse;
    }

    /** fat16_read_internal_from_stream: one piece of at most a cluster, then recursion. */
    method ReadInternal(cluster: int, offset: nat, total: nat, out: array<Byte>, at: nat) returns (res: int)
      requires Valid() && cluster >= 0 && Addressable(volume, cluster) && at + total <= out.Length
      modifies stream`pos, out
      ensures res == if CodeRead(volume, cluster, offset, total).Some? then 0 else IO_ERROR
      ensures out[..] == Spliced(old(out[..]), at, CodePart(volume, cluster, offset, total))
      decreases total, 0
    {
      var sizeOfCluster := ClusterSize(volume);
      var clusterToUse := GetClusterForOffset(cluster, offset);
      if clusterToUse < 0 {
        return clusterToUse;
      }
      var offsetFromCluster := ClusterOffset(volume, offset);
      var startingPos := ClusterPosition(volume, clusterToUse) + offsetFromCluster;
      var totalToRead := if total > sizeOfCluster then sizeOfCluster else total;
      res := stream.Seek(startingPos);
      res := stream.Read(out, at, totalToRead);
      if total - totalToRead > 0 {
        res := ReadMore(cluster, offset, totalToRead, total, out, at, old(out[..]),
                        Slice(volume.disk, startingPos, totalToRead));
      }
    }

    /** The recursive call, after the first `n` of `total` bytes were read. */
    method ReadMore(cluster: int, offset: nat, n: nat, total: nat, out: array<Byte>, at: nat,
                    ghost before: seq<Byte>, ghost piece: seq<Byte>)
      returns (res: int)
      requires Valid() && cluster >= 0 && Addressable(volume, cluster)
      requires 0 < n < total && at + total <= out.Length == |before| && |piece| == n
      requires out[..] == Spliced(before, at, piece)
      modifies stream`pos, out
      ensures res == if CodeRead(volume, cluster, offset + n, total - n).Some? then 0 else IO_ERROR
      ensures out[..] == Spliced(before, at, piece + CodePart(volume, cluster, offset + n, total - n))
      decreases total - n, 1
    {
      ghost var rest := CodePart(volume, cluster, offset + n, total - n);
      SplicedTwice(before, at, piece, rest);
      res := ReadInternal(cluster, offset + n, total - n, out, at + n);
    }

    /** Between two rounds of fat16_read: `done` is in the buffer, and `left` records from
        `offset` on complete `all` and `part`. */
    ghost predicate Underway(now: seq<Byte>, before: seq<Byte>, done: seq<Byte>, cluster: int, offset: nat, size: nat,
                             left: nat, all: Option<seq<Byte>>, part: seq<Byte>)
      requires Valid()
    {
      && |done| + RecordBytes(size, left) <= |before| && now == Spliced(before, 0, done)
      && all == Prepend(done, Records(volume, cluster, offset, size, left))
      && part == done + RecordsPart(volume, cluster, offset, size, left)
    }

    /** One round of the loop of fat16_read, after the records `done`. */
    method ReadRecord(cluster: int, offset: nat, size: nat, out: array<Byte>, at: nat, ghost before: seq<Byte>,
                      ghost done: seq<Byte>, ghost left: nat, ghost all: Option<seq<Byte>>, ghost part: seq<Byte>)
      returns (res: int, ghost record: seq<Byte>)
      requires Valid() && cluster >= 0 && Addressable(volume, cluster)
      requires |before| == out.Length && at == |done| && left >= 1
      requires Underway(out[..], before, done, cluster, offset, size, left, all, part)
      modifies stream`pos, out
      ensures res == 0 || res == IO_ERROR
      ensures res == 0 ==>
                |record| == size
                && Underway(out[..], before, done + record, cluster, offset + size, size, left - 1, all, part)
      ensures res != 0 ==> all.None? && |part| <= |before| && out[..] == Spliced(before, 0, part)
    {
      record := CodePart(volume, cluster, offset, size);
      SplicedTwice(before, 0, done, record);
      res := ReadInternal(cluster, offset, size, out, at);
      if res == 0 {
        PartOfWhole(volume, cluster, offset, size);
        RecordRead(volume, cluster, offset, size, left, done, record);
      }
    }

    /** fat16_read; the descriptor's position is not advanced. */
    method Read(cluster: int, pos: nat, size: nat, nmemb: nat, out: array<Byte>) returns (response: int)
      requires Valid() && cluster >= 0 && Addressable(volume, cluster) && RecordBytes(size, nmemb) <= out.Length
      modifies stream`pos, out
      ensures response == if Records(volume, cluster, pos, size, nmemb).Some? then nmemb else IO_ERROR
      ensures out[..] == Spliced(old(out[..]), 0, RecordsPart(volume, cluster, pos, size, nmemb))
    {
      ghost var all, before := Records(volume, cluster, pos, size, nmemb), out[..];
      ghost var part := RecordsPart(volume, cluster, pos, size, nmemb);
      var offset: nat, at: nat, i: nat := pos, 0, 0;
      ghost var done: seq<Byte> := [];
      PrependNothing(all);
      assert Spliced(before, 0, []) == before && [] + part == part;
      while i < nmemb
        invariant 0 <= i <= nmemb && at == |done|
        invariant Underway(out[..], before, done, cluster, offset, size, nmemb - i, all, part)
      {
        var res, record := ReadRecord(cluster, offset, size, out, at, before, done, nmemb - i, all, part);
        if res < 0 {
          return res;
        }
        done := done + record;
        at := at + size;
        offset := offset + size;
        i := i + 1;
      }
      PrependEnd(done);
      response := nmemb;
    }
  }

  /** One round of the loop of fat16_read. */
  lemma RecordRead(v: Volume, start: int, offset: nat, size: nat, left: nat, done: seq<Byte>, record: seq<Byte>)
    requires Formatted(v) && left >= 1 && CodeRead(v, start, offset, size) == Some(record)
    ensures Prepend(done, Records(v, start, offset, size, left))
         == Prepend(done + record, Records(v, start, offset + size, size, left - 1))
    ensures done + RecordsPart(v, start, offset, size, left)
         == done + record + RecordsPart(v, start, offset + size, size, left - 1)
  {
    PrependTwice(done, record, Records(v, start, offset + size, size, left - 1));
  }

  lemma PrependNothing(r: Option<seq<Byte>>)
    ensures Prepend([], r) == r
  {
    if r.Some? {
      assert [] + r.value == r.value;
    }
  }

  lemma PrependEnd(s: seq<Byte>)
    ensures Prepend(s, Some([])) == Some(s)
  {
    assert s + [] == s;
  }

  lemma PrependTwice(s: seq<Byte>, t: seq<Byte>, r: Option<seq<Byte>>)
    ensures Prepend(s, Prepend(t, r)) == Prepend(s + t, r)
  {
    if r.Some? {
      assert s + (t + r.value) == (s + t) + r.value;
    }
  }

  // ---------------------------------------------------------------- whole files

  lemma {:induction false} LinearReadPrefix(v: Volume, start: int, a: nat, b: nat)
    requires Formatted(v) && LinearRead(v, start, a + b).Some?
    ensures LinearRead(v, start, a).Some? && LinearRead(v, start, a).value == LinearRead(v, start, a + b).value[..a]
    decreases a
  {
    var size := ClusterSize(v);
    if a > size {
      LinearReadPrefix(v, v.next(start), a - size, b);
    }
  }

  /** Consecutive parts of the file. */
  lemma FileBytesSplit(v: Volume, start: int, offset: nat, a: nat, b: nat)
    requires Formatted(v) && FileBytes(v, start, offset, a + b).Some?
    ensures FileBytes(v, start, offset, a).Some?
    ensures FileBytes(v, start, offset + a, b).Some?
    ensures FileBytes(v, start, offset, a + b).value
         == FileBytes(v, start, offset, a).value + FileBytes(v, start, offset + a, b).value
  {
    LinearReadPrefix(v, start, offset + a, b);
    assert offset + (a + b) == (offset + a) + b;
  }

  /** All `count` records start on a cluster boundary. */
  predicate RecordsAligned(v: Volume, offset: nat, size: nat, count: nat)
    requires Formatted(v)
    decreases count
  {
    count > 0 ==> ClusterOffset(v, offset) == 0 && RecordsAligned(v, offset + size, size, count - 1)
  }

  /** An aligned read is the file's bytes, and fails exactly when the file is too short. */
  lemma AlignedReadIsFile(v: Volume, start: int, offset: nat, total: nat)
    requires Formatted(v) && total > 0 && ClusterOffset(v, offset) == 0
    ensures CodeRead(v, start, offset, total) == FileBytes(v, start, offset, total)
  {
    if FileBytes(v, start, offset, total).Some? {
      FittingRead(v, start, offset, total);
    } else {
      var k := ClusterIndex(v, offset);
      AtSum(v, offset, total - 1);
      LinearReadFails(v, start, 0, offset + total);
      AlignedRead(v, start, offset, total);
      if Hop(v, start, k).Some? {
        LinearReadFails(v, start, k, total);
      }
    }
  }

  /** fat16_read of records that all start on cluster boundaries returns the file's bytes, and
      fails exactly when the chain stops before the last of them. */
  lemma {:induction false} AlignedRecords(v: Volume, start: int, offset: nat, size: nat, count: nat)
    requires Formatted(v) && size > 0 && count > 0 && RecordsAligned(v, offset, size, count)
    ensures Records(v, start, offset, size, count) == FileBytes(v, start, offset, RecordBytes(size, count))
    decreases count
  {
    var rest := RecordBytes(size, count - 1);
    AlignedReadIsFile(v, start, offset, size);
    if count == 1 {
      var first := CodeRead(v, start, offset, size);
      assert first.Some? ==> first.value + [] == first.value;
    } else {
      AlignedRecords(v, start, offset + size, size, count - 1);
      FileBytesJoin(v, start, offset, size, rest);
    }
  }

  lemma FileBytesJoin(v: Volume, start: int, offset: nat, a: nat, b: nat)
    requires Formatted(v)
    ensures FileBytes(v, start, offset, a + b) ==
            match FileBytes(v, start, offset, a) {
              case None => None
              case Some(first) => Prepend(first, FileBytes(v, start, offset + a, b)) }
  {
    assert offset + (a + b) == (offset + a) + b;
    if FileBytes(v, start, offset, a + b).Some? {
      FileBytesSplit(v, start, offset, a, b);
    }
  }

  /** The file's bytes are missing exactly when an entry on the way to the last of them is one
      of the stop values. */
  lemma FileTooShort(v: Volume, start: int, offset: nat, total: nat)
    requires Formatted(v)
    ensures FileBytes(v, start, offset, total).None? <==>
            exists j: nat :: j < Further(v, offset + total)
                          && Hop(v, start, j).Some? && StopEntry(v.next(Hop(v, start, j).value))
  {
    LinearReadFails(v, start, 0, offset + total);
    HopFails(v, start, Further(v, offset + total));
  }

  /** Records that are all read are all in the buffer. */
  lemma {:induction false} RecordsWhole(v: Volume, start: int, offset: nat, size: nat, count: nat)
    requires Formatted(v) && Records(v, start, offset, size, count).Some?
    ensures RecordsPart(v, start, offset, size, count) == Records(v, start, offset, size, count).value
    decreases count
  {
    if count > 0 {
      RecordsWhole(v, start, offset + size, size, count - 1);
    }
  }

  /** `p` is the file's bytes from `offset` on, and stops short of `total` only before a cluster
      the chain does not reach. */
  predicate StopsShort(v: Volume, start: int, offset: nat, total: nat, p: seq<Byte>)
    requires Formatted(v)
  {
    && (p != [] ==> CodeRead(v, start, offset, |p|) == Some(p))
    && (|p| < total ==> ClusterOffset(v, |p|) == 0
                        && Hop(v, start, ClusterIndex(v, offset) + ClusterIndex(v, |p|)).None?)
  }

  /** What an aligned read leaves behind is always the file's bytes as far as the chain goes. */
  lemma AlignedPart(v: Volume, start: int, offset: nat, total: nat)
    requires Formatted(v) && ClusterOffset(v, offset) == 0
    ensures var p := CodePart(v, start, offset, total);
            && (p != [] ==> FileBytes(v, start, offset, |p|) == Some(p))
            && (|p| < total ==> ClusterOffset(v, |p|) == 0
                                && Hop(v, start, ClusterIndex(v, offset) + ClusterIndex(v, |p|)).None?)
  {
    var p := CodePart(v, start, offset, total);
    PartStopsShort(v, start, offset, total);
    if p != [] {
      AlignedReadIsFile(v, start, offset, |p|);
    }
  }

  lemma {:induction false} PartStopsShort(v: Volume, start: int, offset: nat, total: nat)
    requires Formatted(v) && ClusterOffset(v, offset) == 0
    ensures StopsShort(v, start, offset, total, CodePart(v, start, offset, total))
    decreases total
  {
    var size := ClusterSize(v);
    AtStart(v, 0);
    if Hop(v, start, ClusterIndex(v, offset)).Some? && total > size {
      AtNext(v, offset);
      PartStopsShort(v, start, offset + size, total - size);
      NextShort(v, start, offset, total, CodePart(v, start, offset + size, total - size));
    }
  }

  lemma NextShort(v: Volume, start: int, offset: nat, total: nat, q: seq<Byte>)
    requires Formatted(v) && total > ClusterSize(v) && Hop(v, start, ClusterIndex(v, offset)).Some?
    requires ClusterIndex(v, offset + ClusterSize(v)) == ClusterIndex(v, offset) + 1
    requires StopsShort(v, start, offset + ClusterSize(v), total - ClusterSize(v), q)
    ensures var c := Hop(v, start, ClusterIndex(v, offset)).value;
            var piece := Slice(v.disk, ClusterPosition(v, c) + ClusterOffset(v, offset), ClusterSize(v));
            StopsShort(v, start, offset, total, piece + q)
  {
    var c := Hop(v, start, ClusterIndex(v, offset)).value;
    var piece := Slice(v.disk, ClusterPosition(v, c) + ClusterOffset(v, offset), ClusterSize(v));
    AtNext(v, |q|);
    if q == [] {
      assert piece + q == piece;
    }
  }

  // ---------------------------------------------------------------- where the bytes lie on the disk

  /** A chain of clusters, written out: each is the entry of the one before, and no stop value. */
  predicate Chain(v: Volume, start: int, chain: seq<int>) {
    && chain != [] && chain[0] == start
    && (forall i :: 0 < i < |chain| ==>
          chain[i] == v.next(chain[i - 1]) && chain[i] !in {0xff8, 0xfff, 0xff7, 0xff0, 0xff6, 0})
  }

  lemma {:induction false} HopOfChain(v: Volume, start: int, chain: seq<int>, k: nat)
    requires Chain(v, start, chain) && k < |chain|
    ensures Hop(v, start, k) == Some(chain[k])
  {
    if k > 0 {
      HopOfChain(v, start, chain, k - 1);
    }
  }

  /** Byte `x` of a file lies in the cluster number x / cluster size of its chain, and the data
      clusters, counted from 2, follow the root directory. */
  function DiskPosition(v: Volume, chain: seq<int>, x: nat): int
    requires Formatted(v) && ClusterIndex(v, x) < |chain|
  {
    v.endingSector * 512 + (chain[ClusterIndex(v, x)] - 2) * ClusterSize(v) + ClusterOffset(v, x)
  }

  lemma Rescale(a: int, b: int, c: int)
    ensures (a + b * c) * 512 == a * 512 + b * (c * 512)
  {
  }

  lemma ClusterStart(v: Volume, c: int)
    ensures ClusterPosition(v, c) == v.endingSector * 512 + (c - 2) * (v.sectorsPerCluster * 512)
  {
    Rescale(v.endingSector, c - 2, v.sectorsPerCluster);
  }

  lemma ChainByteOnDisk(v: Volume, start: int, chain: seq<int>, x: nat)
    requires Formatted(v) && Chain(v, start, chain) && ClusterIndex(v, x) < |chain|
    ensures ChainByte(v, start, 0, x) == Some(v.disk(DiskPosition(v, chain, x)))
  {
    HopOfChain(v, start, chain, ClusterIndex(v, x));
    ClusterStart(v, chain[ClusterIndex(v, x)]);
  }

  lemma IndexMonotone(v: Volume, x: nat, y: nat)
    requires Formatted(v) && x <= y
    ensures ClusterIndex(v, x) <= ClusterIndex(v, y)
  {
    var size, p, q := ClusterSize(v), ClusterIndex(v, x), ClusterIndex(v, y);
    assert x == p * size + ClusterOffset(v, x) && y == q * size + ClusterOffset(v, y);
    SmallMultiple(p - q, size);
    Difference(p, q, size);
  }

  lemma Difference(a: int, b: int, c: int)
    ensures (a - b) * c == a * c - b * c
  {
  }

  /** `b` is the byte on the disk where byte `x` of the file lies. */
  predicate ByteOnDisk(v: Volume, chain: seq<int>, x: nat, b: Byte)
    requires Formatted(v)
  {
    ClusterIndex(v, x) < |chain| && b == v.disk(DiskPosition(v, chain, x))
  }

  /** The bytes stand on the disk in the clusters of the chain, from byte `offset` of the file on. */
  ghost predicate OnDisk(v: Volume, chain: seq<int>, offset: nat, bytes: seq<Byte>)
    requires Formatted(v)
  {
    forall i {:trigger bytes[i]} :: 0 <= i < |bytes| ==> ByteOnDisk(v, chain, offset + i, bytes[i])
  }

  lemma FileThere(v: Volume, start: int, chain: seq<int>, offset: nat, total: nat)
    requires Formatted(v) && Chain(v, start, chain) && 0 < total
    requires ClusterIndex(v, offset + total - 1) < |chain|
    ensures FileBytes(v, start, offset, total).Some?
  {
    HopOfChain(v, start, chain, ClusterIndex(v, offset + total - 1));
    LinearReadFails(v, start, 0, offset + total);
  }

  lemma FileByteOnDisk(v: Volume, start: int, chain: seq<int>, offset: nat, total: nat, i: nat)
    requires Formatted(v) && Chain(v, start, chain) && i < total
    requires ClusterIndex(v, offset + total - 1) < |chain| && FileBytes(v, start, offset, total).Some?
    ensures ByteOnDisk(v, chain, offset + i, FileBytes(v, start, offset, total).value[i])
  {
    IndexMonotone(v, offset + i, offset + total - 1);
    ChainByteOnDisk(v, start, chain, offset + i);
    FileByte(v, start, offset, total, i);
  }

  /** The bytes of a file are those of its chain's clusters on the disk. */
  lemma FileOnDisk(v: Volume, start: int, chain: seq<int>, offset: nat, total: nat)
    requires Formatted(v) && Chain(v, start, chain) && 0 < total
    requires ClusterIndex(v, offset + total - 1) < |chain|
    ensures FileBytes(v, start, offset, total).Some?
    ensures OnDisk(v, chain, offset, FileBytes(v, start, offset, total).value)
  {
    FileThere(v, start, chain, offset, total);
    var bytes := FileBytes(v, start, offset, total).value;
    forall i | 0 <= i < |bytes|
      ensures ByteOnDisk(v, chain, offset + i, bytes[i])
    {
      FileByteOnDisk(v, start, chain, offset, total, i);
    }
  }

  lemma SliceIs(disk: Disk, from: int, bytes: seq<Byte>)
    requires forall i :: 0 <= i < |bytes| ==> bytes[i] == disk(from + i)
    ensures bytes == Slice(disk, from, |bytes|)
  {
  }

  lemma ContiguousBytes(v: Volume, c: int, clusters: nat, offset: nat, bytes: seq<Byte>, from: int)
    requires Formatted(v) && OnDisk(v, seq(clusters, i => c + i), offset, bytes)
    requires from == v.endingSector * 512 + (c - 2) * ClusterSize(v) + offset
    ensures bytes == Slice(v.disk, from, |bytes|)
  {
    forall i | 0 <= i < |bytes|
      ensures bytes[i] == v.disk(from + i)
    {
      assert ByteOnDisk(v, seq(clusters, i => c + i), offset + i, bytes[i]);
      InOrder(v, c, clusters, offset + i);
    }
    SliceIs(v.disk, from, bytes);
  }

  /** A file in consecutive clusters is one slice of the disk, which begins behind the root
      directory. */
  lemma ContiguousFile(v: Volume, c: int, clusters: nat, offset: nat, total: nat)
    requires Formatted(v) && Chain(v, c, seq(clusters, i => c + i)) && 0 < total
    requires (offset + total - 1) / (v.sectorsPerCluster * 512) < clusters
    ensures FileBytes(v, c, offset, total)
         == Some(Slice(v.disk, v.endingSector * 512 + (c - 2) * (v.sectorsPerCluster * 512) + offset, total))
  {
    var from := v.endingSector * 512 + (c - 2) * (v.sectorsPerCluster * 512) + offset;
    FileOnDisk(v, c, seq(clusters, i => c + i), offset, total);
    ContiguousBytes(v, c, clusters, offset, FileBytes(v, c, offset, total).value, from);
  }

  lemma InOrder(v: Volume, c: int, clusters: nat, x: nat)
    requires Formatted(v) && ClusterIndex(v, x) < clusters
    ensures DiskPosition(v, seq(clusters, i => c + i), x) == v.endingSector * 512 + (c - 2) * ClusterSize(v) + x
  {
    var size, k, r := ClusterSize(v), ClusterIndex(v, x), ClusterOffset(v, x);
    var chain := seq(clusters, i => c + i);
    assert chain[k] - 2 == c - 2 + k;
    assert DiskPosition(v, chain, x) == v.endingSector * 512 + (c - 2 + k) * size + r;
    assert x == k * size + r;
    Distribute(c - 2, k, size);
  }

  lemma Distribute(a: int, b: int, c: int)
    ensures (a + b) * c == a * c + b * c
  {
  }

  /** fat16_read of records on cluster boundaries fills the buffer with the bytes of the chain's
      clusters on the disk. */
  lemma RecordsOnDisk(v: Volume, start: int, chain: seq<int>, pos: nat, size: nat, count: nat)
    requires Formatted(v) && Chain(v, start, chain) && size > 0 && count > 0
    requires RecordsAligned(v, pos, size, count)
    requires ClusterIndex(v, pos + RecordBytes(size, count) - 1) < |chain|
    ensures Records(v, start, pos, size, count).Some?
    ensures |RecordsPart(v, start, pos, size, count)| == RecordBytes(size, count)
    ensures OnDisk(v, chain, pos, RecordsPart(v, start, pos, size, count))
  {
    AlignedRecords(v, start, pos, size, count);
    FileOnDisk(v, start, chain, pos, RecordBytes(size, count));
    RecordsWhole(v, start, pos, size, count);
  }
}
