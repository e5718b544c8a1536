/**
 Byte streams over a disk of 512-byte sectors.

 The disk only moves whole sectors; the streamer offers positions in one flat
 run of bytes. `Flatten` is that run, and every method below is stated on it.
 */
module Streamer {
  import opened Status
  import opened Bytes

  const SECTOR_SIZE := 512

  ghost predicate WholeSectors(sectors: seq<seq<Byte>>) {
    forall i :: 0 <= i < |sectors| ==> |sectors[i]| == SECTOR_SIZE
  }

  /** The disk as one run of bytes. */
  ghost function Flatten(sectors: seq<seq<Byte>>): (flat: seq<Byte>)
    requires WholeSectors(sectors)
  {
    seq(SECTOR_SIZE * |sectors|, i requires 0 <= i < SECTOR_SIZE * |sectors| =>
      sectors[i / SECTOR_SIZE][i % SECTOR_SIZE])
  }

  /** `flat` with `data` laid over it from `pos` on; bytes past the end are dropped. */
  ghost function Overlay(flat: seq<Byte>, pos: int, data: seq<Byte>): (r: seq<Byte>)
    requires 0 <= pos
    ensures |r| == |flat|
  {
    seq(|flat|, i requires 0 <= i < |flat| =>
      if pos <= i < pos + |data| then data[i - pos] else flat[i])
  }

  /** Overlaying one byte more is overlaying that byte on what was there. */
  lemma OverlayStep(flat: seq<Byte>, pos: int, data: seq<Byte>, c: Byte)
    requires 0 <= pos
    ensures Overlay(flat, pos, data + [c]) == Overlay(Overlay(flat, pos, data), pos + |data|, [c])
  {
  }

  class Disk {
    var sectors: seq<seq<Byte>>

    ghost predicate Valid()
      reads this
    {
      WholeSectors(sectors)
    }

    ghost function Flat(): (flat: seq<Byte>)
      requires Valid()
      reads this
      ensures |flat| == SECTOR_SIZE * |sectors|
    {
      Flatten(sectors)
    }

    /** A sector that does not exist never becomes ready. */
    method ReadBlock(lba: int) returns (res: int, buf: seq<Byte>)
      requires Valid()
      ensures res == 0 <==> 0 <= lba < |sectors|
      ensures res <= 0 && |buf| == SECTOR_SIZE
      ensures res == 0 ==> buf == sectors[lba]
    {
      if 0 <= lba < |sectors| {
        return 0, sectors[lba];
      }
      return -ETIMEDOUT, seq(SECTOR_SIZE, _ => 0);
    }

    method WriteBlock(lba: int, buf: seq<Byte>) returns (res: int)
      requires Valid() && |buf| == SECTOR_SIZE
      modifies this
      ensures Valid()
      ensures res == 0 <==> 0 <= lba < |sectors|
      ensures sectors == if 0 <= lba < |old(sectors)| then old(sectors)[lba := buf] else old(sectors)
    {
      if 0 <= lba < |sectors| {
        sectors := sectors[lba := buf];
        return 0;
      }
      return -ETIMEDOUT;
    }
  }

  /** A slice of one sector is a slice of the flat disk. */
  lemma SectorSlice(sectors: seq<seq<Byte>>, pos: nat, n: nat)
    requires WholeSectors(sectors) && pos / SECTOR_SIZE < |sectors| && pos % SECTOR_SIZE + n <= SECTOR_SIZE
    ensures pos + n <= |Flatten(sectors)|
    ensures sectors[pos / SECTOR_SIZE][pos % SECTOR_SIZE..pos % SECTOR_SIZE + n] == Flatten(sectors)[pos..pos + n]
  {
  }

  lemma SliceSplit(s: seq<Byte>, lo: nat, m: nat, n: nat)
    requires m <= n && lo + n <= |s|
    ensures s[lo..lo + n] == s[lo..lo + m] + s[lo + m..lo + n]
  {
  }

  /** Two matching slices laid end to end match. */
  lemma SlicesJoin(a: seq<Byte>, p: nat, b: seq<Byte>, q: nat, m: nat, n: nat)
    requires m <= n && p + n <= |a| && q + n <= |b|
    requires a[p..p + m] == b[q..q + m] && a[p + m..p + n] == b[q + m..q + n]
    ensures a[p..p + n] == b[q..q + n]
  {
    SliceSplit(a, p, m, n);
    SliceSplit(b, q, m, n);
  }

  /** `out[at + i] = buf[offset + i]` for the first `n` bytes. */
  method CopyOut(buf: seq<Byte>, offset: nat, out: array<Byte>, at: nat, n: nat)
    requires offset + n <= |buf| && at + n <= out.Length
    modifies out
    ensures out[at..at + n] == buf[offset..offset + n]
    ensures forall k :: 0 <= k < out.Length && !(at <= k < at + n) ==> out[k] == old(out[k])
  {
    for i := 0 to n
      invariant forall k :: 0 <= k < out.Length && !(at <= k < at + i) ==> out[k] == old(out[k])
      invariant forall k :: at <= k < at + i ==> out[k] == buf[offset + k - at]
    {
      out[at + i] := buf[offset + i];
    }
  }

  class Stream {
    const disk: Disk
    var pos: int

    constructor (disk: Disk)
      ensures this.disk == disk && pos == 0
    {
      this.disk := disk;
      pos := 0;
    }

    method Seek(p: int) returns (res: int)
      modifies this`pos
      ensures pos == p && res == 0
    {
      pos := p;
      return 0;
    }

    /** Reads the sector under the position and copies `n` of its bytes out. */
    method ReadSector(out: array<Byte>, at: nat, n: nat) returns (res: int)
      requires disk.Valid() && 0 <= pos && at + n <= out.Length && pos % SECTOR_SIZE + n <= SECTOR_SIZE
      modifies this`pos, out
      ensures res <= 0 && (res == 0 <==> old(pos) / SECTOR_SIZE < |disk.sectors|)
      ensures pos == if res == 0 then old(pos) + n else old(pos)
      ensures res == 0 ==> pos <= |disk.Flat()| && out[at..at + n] == disk.Flat()[old(pos)..pos]
      ensures forall k :: 0 <= k < out.Length && !(at <= k < at + n) ==> out[k] == old(out[k])
    {
      hide Flatten;
      var buf;
      res, buf := disk.ReadBlock(pos / SECTOR_SIZE);
      if res < 0 {
        return;
      }
      SectorSlice(disk.sectors, pos, n);
      CopyOut(buf, pos % SECTOR_SIZE, out, at, n);
      pos := pos + n;
    }

    /** Fills `out[at..at + total]`. The sector of the byte just past the slice
        is read as well, so a slice that ends with the disk itself fails. */
    method Read(out: array<Byte>, at: nat, total: nat) returns (res: int)
      requires disk.Valid() && 0 <= pos && at + total <= out.Length
      modifies this`pos, out
      ensures res <= 0
      ensures res == 0 <==> (old(pos) + total) / SECTOR_SIZE < |disk.sectors|
      ensures res == 0 ==> pos == old(pos) + total
      ensures res == 0 ==> out[at..at + total] == disk.Flat()[old(pos)..old(pos) + total]
      ensures forall k :: 0 <= k < out.Length && !(at <= k < at + total) ==> out[k] == old(out[k])
      decreases total
    {
      hide Flatten;
      ghost var flat, start := disk.Flat(), pos;
      var offset := pos % SECTOR_SIZE;
      var totalToRead := total;
      var overflow := offset + totalToRead >= SECTOR_SIZE;
      if overflow {
        totalToRead := totalToRead - (offset + totalToRead - SECTOR_SIZE);
      }
      res := ReadSector(out, at, totalToRead);
      if res < 0 {
        return;
      }
      if overflow {
        ghost var mid := out[..];
        assert mid[at..at + totalToRead] == flat[start..start + totalToRead];
        res := Read(out, at + totalToRead, total - totalToRead);
        if res == 0 {
          ghost var now := out[..];
          assert now[at..at + totalToRead] == mid[at..at + totalToRead];
          assert now[at + totalToRead..at + total] == out[at + totalToRead..at + total];
          SlicesJoin(now, at, flat, start, totalToRead, total);
          assert out[at..at + total] == now[at..at + total];
        }
      }
    }

    /** One byte is written by reading, patching and writing back its sector. */
    method WriteByte(c: Byte)
      requires disk.Valid() && 0 <= pos
      modifies disk
      ensures disk.Valid() && |disk.sectors| == old(|disk.sectors|)
      ensures disk.Flat() == Overlay(old(disk.Flat()), pos, [c])
      ensures forall i :: 0 <= i < |disk.Flat()| ==> disk.Flat()[i] == if i == pos then c else old(disk.Flat())[i]
    {
      var _, buf := disk.ReadBlock(pos / SECTOR_SIZE);
      buf := buf[pos % SECTOR_SIZE := c];
      var _ := disk.WriteBlock(pos / SECTOR_SIZE, buf);
    }

    method Write(buf: seq<Byte>) returns (written: int)
      requires disk.Valid() && 0 <= pos
      modifies this`pos, disk
      ensures disk.Valid() && |disk.sectors| == old(|disk.sectors|)
      ensures written == |buf| && pos == old(pos) + |buf|
      ensures disk.Flat() == Overlay(old(disk.Flat()), old(pos), buf)
      ensures |disk.Flat()| == |old(disk.Flat())|
      ensures forall i :: 0 <= i < |disk.Flat()| ==>
        disk.Flat()[i] == if old(pos) <= i < old(pos) + |buf| then buf[i - old(pos)] else old(disk.Flat())[i]
    {
      ghost var flat := disk.Flat();
      assert Overlay(flat, pos, []) == flat;
      for i := 0 to |buf|
        invariant disk.Valid() && |disk.sectors| == old(|disk.sectors|)
        invariant pos == old(pos) + i
        invariant disk.Flat() == Overlay(flat, old(pos), buf[..i])
      {
        OverlayStep(flat, old(pos), buf[..i], buf[i]);
        assert buf[..i + 1] == buf[..i] + [buf[i]];
        WriteByte(buf[i]);
        pos := pos + 1;
      }
      assert buf[..|buf|] == buf;
      return |buf|;
    }

    /** Writing, seeking back and reading returns what was written, whenever
        the byte after it is still on the disk. */
    method WriteThenRead(buf: seq<Byte>, out: array<Byte>) returns (res: int)
      requires disk.Valid() && 0 <= pos && out.Length == |buf|
      modifies this`pos, disk, out
      ensures disk.Valid()
      ensures res == 0 <==> (old(pos) + |buf|) / SECTOR_SIZE < old(|disk.sectors|)
      ensures res == 0 ==> out[..] == buf
    {
      var start := pos;
      var n := Write(buf);
      res := Seek(start);
      res := Read(out, 0, |buf|);
      if res == 0 {
        assert out[..] == out[0..|buf|];
        assert forall k :: 0 <= k < |buf| ==> disk.Flat()[start..start + |buf|][k] == buf[k];
        assert out[..] == buf;
      }
    }
  }
}
