/** Byte streams over a disk of 512-byte sectors (`src/disk/disk_streamer.c`). */
module DiskStreamer {
  import opened Ram

  const SECTOR_SIZE: int := 512

  /** -EIO */
  const IO_ERROR: int := -1

  /** The disk's contents, byte by byte. */
  type Disk = int -> Byte

  /** `n` bytes of the disk from position `p` on. */
  function Slice(disk: Disk, p: int, n: nat): (s: seq<Byte>)
    ensures |s| == n && forall i :: 0 <= i < n ==> s[i] == disk(p + i)
  {
    seq(n, i requires 0 <= i < n => disk(p + i))
  }

  /** `out` with `s` written from index `at` on. */
  function Spliced(out: seq<Byte>, at: nat, s: seq<Byte>): (r: seq<Byte>)
    requires at + |s| <= |out|
    ensures |r| == |out|
  {
    seq(|out|, i requires 0 <= i < |out| => if at <= i < at + |s| then s[i - at] else out[i])
  }

  /** Splicing replaces exactly the bytes from `at` on by `s`. */
  lemma SplicedParts(out: seq<Byte>, at: nat, s: seq<Byte>)
    requires at + |s| <= |out|
    ensures var r := Spliced(out, at, s);
            r[..at] == out[..at] && r[at..at + |s|] == s && r[at + |s|..] == out[at + |s|..]
  {
  }

  lemma SliceSplit(disk: Disk, p: int, a: nat, b: nat)
    ensures Slice(disk, p, a) + Slice(disk, p + a, b) == Slice(disk, p, a + b)
  {
  }

  lemma SplicedTwice(out: seq<Byte>, at: nat, s: seq<Byte>, t: seq<Byte>)
    requires at + |s| + |t| <= |out|
    ensures Spliced(Spliced(out, at, s), at + |s|, t) == Spliced(out, at, s + t)
  {
  }

  /** Reading `a` and then `b` bytes has the effect of reading a + b bytes. */
  lemma ReadTwiceIsOnce(disk: Disk, out: seq<Byte>, at: nat, p: int, a: nat, b: nat)
    requires at + a + b <= |out|
    ensures Spliced(Spliced(out, at, Slice(disk, p, a)), at + a, Slice(disk, p + a, b))
         == Spliced(out, at, Slice(disk, p, a + b))
  {
    SplicedTwice(out, at, Slice(disk, p, a), Slice(disk, p + a, b));
    SliceSplit(disk, p, a, b);
  }

  class DiskStream {
    var pos: int
    /** Whether the stream's disk is the primary one; disk_read_block refuses any other. */
    const primary: bool
    const disk: Disk

    /** diskstreamer_new. */
    constructor (disk: Disk, primary: bool)
      ensures pos == 0 && this.disk == disk && this.primary == primary
    {
      this.disk, this.primary, pos := disk, primary, 0;
    }

    /** diskstreamer_seek. */
    method Seek(pos: int) returns (response: int)
      modifies this`pos
      ensures response == 0 && this.pos == pos
    {
      this.pos := pos;
      response := 0;
    }

    /** disk_read_block for one sector. */
    method ReadBlock(sector: nat, buffer: array<Byte>) returns (response: int)
      requires buffer.Length == SECTOR_SIZE
      modifies buffer
      ensures response == if primary then 0 else IO_ERROR
      ensures primary ==> buffer[..] == Slice(disk, sector * SECTOR_SIZE, SECTOR_SIZE)
    {
      if !primary {
        return IO_ERROR;
      }
      var i := 0;
      while i < SECTOR_SIZE
        invariant 0 <= i <= SECTOR_SIZE
        invariant forall j :: 0 <= j < i ==> buffer[j] == disk(sector * SECTOR_SIZE + j)
      {
        buffer[i] := disk(sector * SECTOR_SIZE + i);
        i := i + 1;
      }
      response := 0;
    }

    /** One step of diskstreamer_read: a sector is fetched and `n` bytes of it are copied. */
    method CopyFromSector(out: array<Byte>, at: nat, sector: nat, offset: nat, n: nat) returns (response: int)
      requires offset + n <= SECTOR_SIZE && at + n <= out.Length
      modifies out
      ensures response == if primary then 0 else IO_ERROR
      ensures primary ==> out[..] == Spliced(old(out[..]), at, Slice(disk, sector * SECTOR_SIZE + offset, n))
      ensures !primary ==> out[..] == old(out[..])
    {
      var buffer := new Byte[SECTOR_SIZE];
      response := ReadBlock(sector, buffer);
      if response < 0 {
        return;
      }
      ghost var sectorBytes := buffer[..];
      var i := 0;
      while i < n
        invariant 0 <= i <= n && buffer[..] == sectorBytes
        invariant forall j :: 0 <= j < out.Length ==>
                    out[j] == if at <= j < at + i then sectorBytes[offset + (j - at)] else old(out[j])
      {
        out[at + i] := buffer[offset + i];
        i := i + 1;
      }
    }

    /** diskstreamer_read: the rest of one sector per call, then recursion for what is left, also
        when nothing is left at the end of a sector. */
    method Read(out: array<Byte>, at: nat, total: nat) returns (response: int)
      requires 0 <= pos && pos + total < 0x8000_0000 && at + total <= out.Length
      modifies this`pos, out
      ensures response == if primary then 0 else IO_ERROR
      ensures primary ==>
                && pos == old(pos) + total
                && out[..] == Spliced(old(out[..]), at, Slice(disk, old(pos), total))
      ensures primary ==> forall i :: at <= i < at + total ==> out[i] == disk(old(pos) + (i - at))
      ensures forall i :: 0 <= i < out.Length && !(at <= i < at + total) ==> out[i] == old(out[i])
      ensures !primary ==> pos == old(pos) && out[..] == old(out[..])
      decreases total, 0
    {
      var sector := pos / SECTOR_SIZE;
      var offset := pos % SECTOR_SIZE;
      var totalToRead := total;
      var overflow := offset + totalToRead >= SECTOR_SIZE;
      if overflow {
        totalToRead := totalToRead - (offset + totalToRead - SECTOR_SIZE);
      }
      response := CopyFromSector(out, at, sector, offset, totalToRead);
      if response < 0 {
        return;
      }
      pos := pos + totalToRead;
      if overflow {
        response := ReadRest(out, at, totalToRead, total, old(out[..]));
      }
    }

    /** The recursive call of diskstreamer_read, after `n` of `total` bytes were copied. */
    method ReadRest(out: array<Byte>, at: nat, n: nat, total: nat, ghost before: seq<Byte>) returns (response: int)
      requires primary && n <= pos && pos - n + total < 0x8000_0000 && 0 < n <= total
      requires at + total <= out.Length == |before|
      requires out[..] == Spliced(before, at, Slice(disk, pos - n, n))
      modifies this`pos, out
      ensures response == 0 && pos == old(pos) - n + total
      ensures out[..] == Spliced(before, at, Slice(disk, old(pos) - n, total))
      decreases total - n, 1
    {
      ReadTwiceIsOnce(disk, before, at, pos - n, n, total - n);
      response := Read(out, at + n, total - n);
    }
  }
}
