/**
 The FAT32 read path. The offset walker computes the same function of the chain
 as the FAT16 walker, and unlike that one notices the end of the chain; the
 reader takes the same pieces, so the theory of module `Fat16Read` covers it.
 */
module Fat32Read {
  import opened Status
  import opened Bytes
  import opened Streamer
  import opened Fat16Read

  const END_MARK32 := 0x0FFF_FFF8
  const BAD32 := 0x0FFF_FFF7
  const RESERVED_LOW := 0x0FFF_FFF0
  const RESERVED_HIGH := 0x0FFF_FFF6

  ghost function TableAt32(flat: seq<Byte>, base: nat, entries: nat): (f: seq<int>)
    requires base + 4 * entries <= |flat|
    ensures |f| == entries
  {
    seq(entries, x requires 0 <= x < entries => Word(flat, base + 4 * x))
  }

  /** A well-formed chain: no free, bad or reserved link, and an end mark after the last. */
  ghost predicate IsChain32(f: seq<int>, c: seq<int>) {
    && |c| > 0
    && (forall i :: 0 <= i < |c| ==>
          2 <= c[i] < |f| && c[i] < 0x0FFF_FFF7 && c[i] != 0x0FFF_FFF0 && c[i] != 0x0FFF_FFF6)
    && (forall i {:trigger f[c[i]]} :: 0 <= i < |c| - 1 ==> f[c[i]] == c[i + 1])
    && f[c[|c| - 1]] >= 0x0FFF_FFF8
  }

  class Volume32 {
    const disk: Disk
    const fatStream: Stream
    const clusterStream: Stream
    const reservedSectors: nat
    const sectorsPerCluster: nat
    /** First sector behind the tables. */
    const dataStart: nat
    const clusterBytes: nat
    ghost const entries: nat
    ghost var fat: seq<int>

    constructor (disk: Disk, reservedSectors: nat, sectorsPerCluster: nat, fatCopies: nat, sectorsPerFat: nat,
                 ghost entries: nat)
      requires disk.Valid() && sectorsPerCluster > 0
      requires SECTOR_SIZE * reservedSectors + 4 * entries < SECTOR_SIZE * |disk.sectors|
      ensures Valid() && this.disk == disk && this.entries == entries && this.sectorsPerCluster == sectorsPerCluster
      ensures this.reservedSectors == reservedSectors && dataStart == reservedSectors + fatCopies * sectorsPerFat
    {
      hide TableAt32, Flatten;
      this.disk, this.reservedSectors, this.sectorsPerCluster := disk, reservedSectors, sectorsPerCluster;
      dataStart := reservedSectors + fatCopies * sectorsPerFat;
      clusterBytes := sectorsPerCluster * SECTOR_SIZE;
      this.entries := entries;
      fat := TableAt32(disk.Flat(), SECTOR_SIZE * reservedSectors, entries);
      fatStream := new Stream(disk);
      clusterStream := new Stream(disk);
    }

    ghost predicate Valid()
      reads this, disk
    {
      && disk.Valid() && fatStream.disk == disk && clusterStream.disk == disk && fatStream != clusterStream
      && sectorsPerCluster > 0 && clusterBytes == sectorsPerCluster * SECTOR_SIZE
      && SECTOR_SIZE * reservedSectors + 4 * entries < SECTOR_SIZE * |disk.sectors|
      && fat == TableAt32(disk.Flat(), SECTOR_SIZE * reservedSectors, entries)
    }

    ghost function Layout32(): Layout {
      Layout(dataStart * SECTOR_SIZE, clusterBytes)
    }

    method GetFatEntry(cluster: int) returns (res: int)
      requires Valid() && 0 <= cluster < entries
      modifies fatStream`pos
      ensures res == fat[cluster]
      ensures var p := 512 * reservedSectors + 4 * cluster;
        && p + 3 < |disk.Flat()|
        && res == disk.Flat()[p] as int + 0x100 * disk.Flat()[p + 1] as int
                  + 0x1_0000 * disk.Flat()[p + 2] as int + 0x100_0000 * disk.Flat()[p + 3] as int
    {
      hide Flatten;
      res := fatStream.Seek(reservedSectors * SECTOR_SIZE + cluster * 4);
      var buf := new Byte[4];
      res := fatStream.Read(buf, 0, 4);
      if res != 0 {
        return 0xFFFF_FFFF;
      }
      ghost var s := buf[0..4];
      assert buf[0] == s[0] && buf[1] == s[1] && buf[2] == s[2] && buf[3] == s[3];
      return buf[0] as int + 0x100 * buf[1] as int + 0x1_0000 * buf[2] as int + 0x100_0000 * buf[3] as int;
    }

    /** chain[offset / clusterBytes], and an error exactly when there is none. */
    method GetClusterForOffset(start: int, offset: nat, ghost c: seq<int>) returns (res: int)
      requires Valid() && IsChain32(fat, c) && start == c[0]
      modifies fatStream`pos
      ensures var k := offset / clusterBytes; 0 <= k && res == if k < |c| then c[k] else -EIO
    {
      hide TableAt32, Flatten;
      var clusterToUse := start;
      var clustersAhead := Index(offset, clusterBytes);
      for i := 0 to clustersAhead
        invariant i < |c| && clusterToUse == c[i]
      {
        var entry := GetFatEntry(clusterToUse);
        assert if i + 1 < |c| then entry == c[i + 1] else entry >= END_MARK32;
        if entry >= END_MARK32 {
          return -EIO;
        }
        if entry == BAD32 {
          return -EIO;
        }
        if entry == RESERVED_LOW || entry == RESERVED_HIGH {
          return -EIO;
        }
        if entry == 0x00 {
          return -EIO;
        }
        clusterToUse := entry;
      }
      return clusterToUse;
    }

    /** One piece: walk to the cluster of `offset`, then read `n` bytes from there. */
    method ReadPiece(out: array<Byte>, at: nat, cluster: int, offset: nat, n: nat, ghost c: seq<int>) returns (res: int)
      requires Valid() && IsChain32(fat, c) && cluster == c[0] && n <= clusterBytes && at + n <= out.Length
      modifies fatStream`pos, clusterStream`pos, out
      ensures res <= 0
      ensures res == 0 <==>
        LastPiece(clusterBytes, offset, n) < |c| && PiecesFit(Layout32(), |disk.sectors|, c, offset, n)
      ensures res == 0 && offset + n <= |c| * clusterBytes ==>
        Delivers(Layout32(), disk.Flat(), c, offset, out[at..at + n])
      ensures res == 0 ==>
        var k := offset / clusterBytes;
        && 0 <= k < |c|
        && var p := 512 * (dataStart + (c[k] - 2) * sectorsPerCluster) + offset % clusterBytes;
           0 <= p && p + n <= |disk.Flat()| && out[at..at + n] == disk.Flat()[p..p + n]
      ensures forall k :: 0 <= k < out.Length && !(at <= k < at + n) ==> out[k] == old(out[k])
    {
      hide ReadPos, TruePos, Flatten, TableAt32, Delivers, ClusterPos, PiecesFit;
      ghost var d, l, flat := clusterBytes, Layout32(), disk.Flat();
      DivBound(offset, d, |c|);
      OnePiece(d, offset, n);
      ghost var k := offset / d;
      var clusterToUse := GetClusterForOffset(cluster, offset, c);
      if clusterToUse < 0 {
        return clusterToUse;
      }
      OnePieceFits(l, |disk.sectors|, c, offset, n);
      StartingPosition(dataStart, sectorsPerCluster, c[k]);
      var startingSector := dataStart + (clusterToUse - 2) * sectorsPerCluster;
      var startingPos := startingSector * SECTOR_SIZE + offset % clusterBytes;
      assert startingPos == ClusterPos(l, c[k]) + offset % d;
      res := clusterStream.Seek(startingPos);
      res := clusterStream.Read(out, at, n);
      if res == 0 && offset + n <= |c| * d {
        FirstPiece(l, flat, c, offset, out[at..at + n]);
      }
    }

    /** Reads `total` bytes from `offset` of the chain into `out[at..]`. It fails
        exactly when a piece starts past the chain's end or ends off the disk. */
    method ReadInternal(out: array<Byte>, at: nat, cluster: int, offset: nat, total: nat, ghost c: seq<int>)
      returns (res: int)
      requires Valid() && IsChain32(fat, c) && cluster == c[0] && at + total <= out.Length
      modifies fatStream`pos, clusterStream`pos, out
      ensures res <= 0
      ensures res == 0 <==>
        LastPiece(clusterBytes, offset, total) < |c| && PiecesFit(Layout32(), |disk.sectors|, c, offset, total)
      ensures res == 0 && offset + total <= |c| * clusterBytes ==>
        Delivers(Layout32(), disk.Flat(), c, offset, out[at..at + total])
      ensures forall k :: 0 <= k < out.Length && !(at <= k < at + total) ==> out[k] == old(out[k])
      decreases total
    {
      hide Flatten, TableAt32, Delivers, PiecesFit, IsChain32, LastPiece;
      ghost var d, l, flat, sectors := clusterBytes, Layout32(), disk.Flat(), |disk.sectors|;
      var totalToRead := if total > clusterBytes then clusterBytes else total;
      DivBound(offset, d, |c|);
      OnePiece(d, offset, totalToRead);
      LastPieceBehind(d, offset, total);
      res := ReadPiece(out, at, cluster, offset, totalToRead, c);
      if total > d && offset / d < |c| {
        PiecesFitStep(l, sectors, c, offset, total);
        LastPieceStep(d, offset, total);
      }
      if res != 0 {
        return;
      }
      if total - totalToRead > 0 {
        ghost var first := out[at..at + totalToRead];
        res := ReadInternal(out, at + totalToRead, cluster, offset + totalToRead, total - totalToRead, c);
        assert out[at..at + totalToRead] == first;
        assert out[at..at + total] == first + out[at + totalToRead..at + total];
        if res == 0 && offset + total <= |c| * d {
          PiecesJoin(l, flat, c, offset, first, out[at + totalToRead..at + total]);
        }
      }
    }

    /** A safe read that succeeds delivers the file's slice. */
    method ReadSlice(out: array<Byte>, cluster: int, offset: nat, ghost c: seq<int>) returns (res: int)
      requires Valid() && IsChain32(fat, c) && cluster == c[0]
      requires OnDisk(Layout32(), disk.Flat(), c) && offset + out.Length <= |c| * clusterBytes
      modifies fatStream`pos, clusterStream`pos, out
      ensures res == 0 && SliceSafe(Layout32(), c, offset, out.Length) ==>
        && |Contents(Layout32(), disk.Flat(), c)| == |c| * clusterBytes
        && out[..] == Contents(Layout32(), disk.Flat(), c)[offset..offset + out.Length]
    {
      hide Flatten, TableAt32, Delivers, PiecesFit, IsChain32, LastPiece, OnDisk, Contents, SliceSafe;
      res := ReadInternal(out, 0, cluster, offset, out.Length, c);
      assert out[0..out.Length] == out[..];
      if res == 0 && SliceSafe(Layout32(), c, offset, out.Length) {
        SafeReadIsSlice(Layout32(), disk.Flat(), c, offset, out[..]);
      }
    }
  }
}
