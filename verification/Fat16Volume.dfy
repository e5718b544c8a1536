/**
 A FAT16 volume on a disk: table entries read and written through a byte
 stream, and the driver's chain operations, each proved against its effect on
 the table (module `FatChains`).
 */
module Fat16Volume {
  import opened Status
  import opened Bytes
  import opened Streamer
  import opened FatChains

  /** The table as it lies on the disk: little-endian 16-bit entries from `base` on. */
  ghost function TableAt(flat: seq<Byte>, base: nat, entries: nat): (f: seq<Entry>)
    requires base + 2 * entries <= |flat|
    ensures |f| == entries
  {
    seq(entries, x requires 0 <= x < entries => flat[base + 2 * x] as int + 256 * flat[base + 2 * x + 1] as int)
  }

  /** Two bytes laid over the disk change exactly one entry. */
  lemma TableWrite(flat: seq<Byte>, base: nat, entries: nat, x: nat, val: Entry)
    requires base + 2 * entries <= |flat| && x < entries
    ensures TableAt(Overlay(flat, base + 2 * x, [val % 256, val / 256]), base, entries)
         == TableAt(flat, base, entries)[x := val]
  {
    var g := Overlay(flat, base + 2 * x, [val % 256, val / 256]);
    forall y | 0 <= y < entries
      ensures TableAt(g, base, entries)[y] == TableAt(flat, base, entries)[x := val][y]
    {
    }
  }

  /** Whole clusters needed for `size` bytes. */
  function ClusterCount(size: nat, clusterBytes: nat): (n: nat)
    requires clusterBytes > 0
  {
    size / clusterBytes + if size % clusterBytes != 0 then 1 else 0
  }

  /** Clusters to add for `size` more bytes. */
  function NewClusters(filesize: nat, size: nat, clusterBytes: nat): int
    requires clusterBytes > 0
  {
    ClusterCount(filesize + size, clusterBytes) - ClusterCount(filesize, clusterBytes)
  }

  /** The count is the least number of clusters that holds the size. */
  lemma ClusterCountIsLeast(size: nat, clusterBytes: nat, n: nat)
    requires clusterBytes > 0
    ensures n >= ClusterCount(size, clusterBytes) <==> n * clusterBytes >= size
  {
    var q, r := size / clusterBytes, size % clusterBytes;
    assert size == q * clusterBytes + r;
    if n >= q + 1 {
      MulAtMost(q + 1, n, clusterBytes);
    } else {
      MulAtMost(n, q, clusterBytes);
      if n < q {
        MulAtMost(n + 1, q, clusterBytes);
      }
    }
  }

  lemma MulAtMost(a: nat, b: nat, d: nat)
    requires a <= b
    ensures a * d <= b * d
  {
  }

  lemma ClusterCountMonotone(a: nat, b: nat, clusterBytes: nat)
    requires clusterBytes > 0 && a <= b
    ensures ClusterCount(a, clusterBytes) <= ClusterCount(b, clusterBytes)
  {
    var n := ClusterCount(b, clusterBytes);
    ClusterCountIsLeast(b, clusterBytes, n);
    ClusterCountIsLeast(a, clusterBytes, n);
  }

  /** An open file: its directory item's size and first cluster, its position, mode and type. */
  class OpenFile {
    var filesize: nat
    var firstCluster: int
    var pos: nat
    const isFile: bool
    const writable: bool

    constructor (filesize: nat, firstCluster: int, isFile: bool, writable: bool)
      ensures this.filesize == filesize && this.firstCluster == firstCluster && pos == 0
      ensures this.isFile == isFile && this.writable == writable
    {
      this.filesize := filesize;
      pos := 0;
      this.firstCluster := firstCluster;
      this.isFile := isFile;
      this.writable := writable;
    }
  }

  class Volume {
    const disk: Disk
    const fatStream: Stream
    const clusterStream: Stream
    const reservedSectors: nat
    const sectorsPerCluster: nat
    /** First sector after the root directory. */
    const dataStart: nat
    /** 16-bit slots viewed from the start of the table. */
    ghost const entries: nat
    /** The volume's table. */
    ghost var fat: seq<Entry>

    ghost const base := SECTOR_SIZE * reservedSectors
    const clusterBytes: nat
    /** Highest cluster number the allocator probes: `sectorsBig / sectorsPerCluster`. */
    const limit: nat

    constructor (disk: Disk, reservedSectors: nat, sectorsPerCluster: nat, sectorsBig: nat, dataStart: nat,
                 ghost entries: nat)
      requires disk.Valid() && 0 < sectorsPerCluster < 256
      requires SECTOR_SIZE * reservedSectors + 2 * entries < SECTOR_SIZE * |disk.sectors|
      requires Ceiling(sectorsBig / sectorsPerCluster) < entries
      ensures Valid() && this.disk == disk && this.entries == entries
      ensures this.sectorsPerCluster == sectorsPerCluster && this.dataStart == dataStart
      ensures this.reservedSectors == reservedSectors && limit == sectorsBig / sectorsPerCluster
    {
      hide TableAt, Flatten, Ceiling, WholeSectors;
      this.disk := disk;
      this.reservedSectors, this.sectorsPerCluster := reservedSectors, sectorsPerCluster;
      this.dataStart := dataStart;
      clusterBytes := sectorsPerCluster * SECTOR_SIZE;
      limit := sectorsBig / sectorsPerCluster;
      this.entries := entries;
      fat := TableAt(disk.Flat(), SECTOR_SIZE * reservedSectors, entries);
      fatStream := new Stream(disk);
      clusterStream := new Stream(disk);
    }

    ghost predicate Valid()
      reads this, disk
    {
      && disk.Valid()
      && fatStream.disk == disk && clusterStream.disk == disk && fatStream != clusterStream
      && 0 < sectorsPerCluster < 256 && clusterBytes == sectorsPerCluster * SECTOR_SIZE
      && base + 2 * entries < SECTOR_SIZE * |disk.sectors|
      && Ceiling(limit) < entries
      && fat == TableAt(disk.Flat(), base, entries)
    }

    // ------------------------------------------------------ entry access

    method GetFatEntry(cluster: int) returns (res: int)
      requires Valid() && 0 <= cluster < entries
      modifies fatStream`pos
      ensures res == fat[cluster]
      ensures var p := 512 * reservedSectors + 2 * cluster;
        p + 1 < |disk.Flat()| && res == disk.Flat()[p] as int + 256 * disk.Flat()[p + 1] as int
    {
      var tablePosition := reservedSectors * SECTOR_SIZE;
      res := fatStream.Seek(tablePosition + cluster * 2);
      var buf := new Byte[2];
      res := fatStream.Read(buf, 0, 2);
      assert buf[0] == buf[0..2][0] && buf[1] == buf[0..2][1];
      return buf[0] as int + 256 * buf[1] as int;
    }

    method WriteFatEntry(entry: int, val: Entry) returns (written: int)
      requires Valid() && 0 <= entry < entries
      modifies this`fat, fatStream`pos, disk
      ensures Valid() && written == 2
      ensures fat == old(fat)[entry := val]
      ensures var p, was, now := 512 * reservedSectors + 2 * entry, old(disk.Flat()), disk.Flat();
        && |now| == |was| && p + 1 < |now| && now[p] == val % 256 && now[p + 1] == val / 256
        && forall i :: 0 <= i < |now| && i != p && i != p + 1 ==> now[i] == was[i]
    {
      TableWrite(disk.Flat(), base, entries, entry, val);
      var location := reservedSectors * SECTOR_SIZE + entry * 2;
      var _ := fatStream.Seek(location);
      written := fatStream.Write([val % 256, val / 256]);
      fat := fat[entry := val];
    }

    // -------------------------------------------------- chain operations

    /** The scan for a free cluster; its result is cut to 16 bits. */
    method GetFirstFreeCluster() returns (res: int)
      requires Valid()
      modifies fatStream`pos
      ensures res == Candidate(fat, limit)
      ensures 3 <= limit < 0x10000 ==>
        && (res == 0 <==> forall x :: 3 <= x <= limit ==> fat[x] != 0)
        && (res != 0 ==> 3 <= res <= limit && fat[res] == 0 && forall x :: 3 <= x < res ==> fat[x] != 0)
    {
      LowestFree(fat, limit);
      hide FirstFreeFrom, FreeSet, TableAt, Flatten;
      var cluster := FIRST_CANDIDATE;
      while true
        invariant FIRST_CANDIDATE <= cluster <= Ceiling(limit)
        invariant FirstFreeFrom(fat, limit, cluster) == FirstFree(fat, limit)
        decreases Ceiling(limit) - cluster
      {
        ScanStep(fat, limit, cluster);
        var code := GetFatEntry(cluster);
        if code == FREE {
          break;
        }
        if cluster >= limit {
          return 0;
        }
        cluster := cluster + 1;
      }
      return cluster % UINT16;
    }

    /** The walk before growth: it ends where the stem of the chain does. */
    method FindLastCluster(first: int, ghost c: seq<int>) returns (curr: int)
      requires Valid() && IsChain(fat, c) && first == c[0]
      modifies fatStream`pos
      ensures curr == Last(Stem(c))
      ensures curr == if |c| > 1 && c[|c| - 1] >= 0xFFF8 then c[|c| - 2] else c[|c| - 1]
    {
      curr := first;
      ghost var i, s := 0, Stem(c);
      StemIsWalk(fat, c);
      while true
        invariant 0 <= i < |s| && curr == s[i]
        decreases |s| - i
      {
        var code := GetFatEntry(curr);
        assert i + 1 < |s| ==> code == s[i + 1] && code < END_MARK;
        if code >= END_MARK {
          break;
        }
        curr := code;
        i := i + 1;
      }
    }

    /** Links one more cluster to the chain, whatever the geometry. */
    method AddClusterToChain(first: int, ghost c: seq<int>) returns (res: int)
      requires Valid() && IsChain(fat, c) && first == c[0]
      modifies this`fat, fatStream`pos, disk
      ensures Valid() && 0 <= Last(Stem(c)) < |old(fat)|
      ensures var n := Candidate(old(fat), limit);
        if n == 0 then res == -ENODISKSPACE && fat == old(fat)
        else res == 0 && fat == Linked(old(fat), Last(Stem(c)), n) && fat == old(fat)[Last(Stem(c)) := n][n := 0xFFFF]
    {
      hide IsChain, Stem;
      ChainBounds(fat, c);
      var cluster := FindLastCluster(first, c);
      var next := GetFirstFreeCluster();
      if next == 0 {
        return -ENODISKSPACE;
      }
      var n := WriteFatEntry(cluster, next);
      if n != 2 {
        return -EIO;
      }
      n := WriteFatEntry(next, EOC);
      if n != 2 {
        return -EIO;
      }
      return 0;
    }

    /** The same, as a step on table and chain. */
    method ExtendByOne(first: int, ghost c: seq<int>) returns (res: int, ghost d: seq<int>)
      requires Valid() && Tame(fat, limit, 1) && IsChain(fat, c) && first == c[0]
      modifies this`fat, fatStream`pos, disk
      ensures Valid() && InTable(old(fat), c)
      ensures Growth(fat, d) == Extended(old(fat), c, Cap(limit))
      ensures res == if FreeSet(old(fat), Cap(limit)) == {} then -ENODISKSPACE else 0
    {
      hide FirstFree, FreeSet, TableAt, Flatten, Tame, IsChain;
      ChainBounds(fat, c);
      TameCandidate(fat, limit);
      d := Extended(fat, c, Cap(limit)).chain;
      res := AddClusterToChain(first, c);
    }

    /** A fresh chain of `count` clusters, shorter when space runs out. A
        non-positive count gives `-EINVARG` cut to 16 bits. */
    method GenerateClusterChain(count: int) returns (first: int)
      requires Valid() && Tame(fat, limit, count)
      modifies this`fat, fatStream`pos, disk
      ensures Valid()
      ensures fat == Generated(old(fat), Cap(limit), count).fat
      ensures first == if count <= 0 then UINT16 - EINVARG
                       else FirstFree(old(fat), Cap(limit))
    {
      hide FirstFree, FreeSet, Linked, TableAt, Flatten, Tame, Extended, IsChain;
      if count <= 0 {
        return (-EINVARG) % UINT16;
      }
      TameLess(fat, limit, count);
      TameCandidate(fat, limit);
      first := GetFirstFreeCluster();
      if first == 0 {
        return 0;
      }
      TameAfterFirst(fat, limit, count);
      var n := WriteFatEntry(first, EOC);
      if n != 2 {
        return UINT16 - EIO;
      }
      ghost var c := [first];
      ghost var goal := Grow(fat, c, Cap(limit), count - 1);
      for i := 0 to count - 1
        invariant Valid() && IsChain(fat, c) && c != [] && InTable(fat, c) && c[0] == first
        invariant Tame(fat, limit, count - 1 - i) && Grow(fat, c, Cap(limit), count - 1 - i) == goal
      {
        ExtendedIsChain(fat, c, Cap(limit));
        TameLess(fat, limit, count - 1 - i);
        TameStep(fat, c, limit, count - 1 - i);
        var _, d := ExtendByOne(first, c);
        c := d;
      }
    }

    /** Frees every cluster of the chain, one from 0xFFF8 up at its end included;
        clusters 0 to 2 are refused. */
    method EraseClusterChain(first: int, ghost c: seq<int>) returns (res: int)
      requires Valid() && IsChain(fat, c) && first == c[0]
      modifies this`fat, fatStream`pos, disk
      ensures Valid()
      ensures res == if first <= 2 then -EINVARG else 0
      ensures fat == if first <= 2 then old(fat) else Erased(old(fat), c)
      ensures first > 2 ==> forall x :: 0 <= x < |fat| ==> fat[x] == if x in c then 0 else old(fat)[x]
    {
      if first <= 2 {
        return -EINVARG;
      }
      ghost var f := fat;
      ChainIsAcyclic(f, c);
      var curr := first;
      ghost var i := 0;
      assert Erased(f, c[..0]) == f;
      while true
        invariant Valid() && 0 <= i < |c| && curr == c[i]
        invariant fat == Erased(f, c[..i])
        decreases |c| - i
      {
        EraseOneMore(f, c, i);
        var code := GetFatEntry(curr);
        var _ := WriteFatEntry(curr, FREE);
        if code == EOC {
          break;
        }
        curr := code;
        i := i + 1;
      }
      assert c[..i + 1] == c;
      return 0;
    }

    /** The driver's operations are the steps of the transition system on the
        table: what they leave on the disk is the state after the step. */
    method Apply(op: Op, ghost s: State) returns (ghost t: State)
      requires Valid() && s.fat == fat && Inv(s, Cap(limit)) && Enabled(s, op)
      requires Tame(fat, limit, match op case Generate(count) => count case Extend(_) => 1 case Erase(_) => 0)
      modifies this`fat, fatStream`pos, disk
      ensures Valid() && t == Step(s, op, Cap(limit)) && fat == t.fat && Inv(t, Cap(limit))
    {
      hide FirstFree, Linked, TableAt, Flatten, FreeSet, Grow, Erased, Extended, Forest, IsChain, Tame;
      t := Step(s, op, Cap(limit));
      StepKeeps(s, op, Cap(limit));
      match op {
        case Generate(count) =>
          GeneratedNone(fat, Cap(limit), count);
          var _ := GenerateClusterChain(count);
        case Extend(head) =>
          ghost var c := WithHead(s.chains, head);
          ForestChain(fat, s.chains, c);
          GrowOne(fat, c, Cap(limit));
          var _, d := ExtendByOne(head, c);
        case Erase(head) =>
          ghost var c := WithHead(s.chains, head);
          ForestChain(fat, s.chains, c);
          var _ := EraseClusterChain(head, c);
      }
    }

    // ---------------------------------------------- growing an open file

    /** Appends `needed` clusters one by one and stops at the first failure. */
    method ExtendChain(first: int, needed: nat, ghost c: seq<int>) returns (res: int, ghost d: seq<int>)
      requires Valid() && Tame(fat, limit, needed) && IsChain(fat, c) && first == c[0]
      modifies this`fat, fatStream`pos, disk
      ensures Valid() && InTable(old(fat), c)
      ensures Growth(fat, d) == Grow(old(fat), c, Cap(limit), needed)
      ensures res == if needed <= |FreeSet(old(fat), Cap(limit))| then 0 else -ENODISKSPACE
    {
      hide FirstFree, FreeSet, Linked, TableAt, Flatten, Tame, Extended, IsChain;
      ChainBounds(fat, c);
      res, d := 0, c;
      ghost var goal, free := Grow(fat, c, Cap(limit), needed), |FreeSet(fat, Cap(limit))|;
      var left := needed;
      while left > 0
        invariant Valid() && 0 <= left <= needed && res == 0 && Tame(fat, limit, left)
        invariant IsChain(fat, d) && d != [] && InTable(fat, d) && d[0] == first
        invariant Grow(fat, d, Cap(limit), left) == goal && |FreeSet(fat, Cap(limit))| == free - (needed - left)
      {
        ExtendedIsChain(fat, d, Cap(limit));
        ExtendedFree(fat, d, Cap(limit));
        TameLess(fat, limit, left);
        TameStep(fat, d, limit, left);
        left := left - 1;
        res, d := ExtendByOne(first, d);
        if res < 0 {
          GrowWhenFull(fat, d, Cap(limit), left);
          return;
        }
      }
    }

    /** Steps 1 and 2 of a write of `size` bytes: grow the chain for the new
        size, then record it. `directoryResult` is what writing the directory
        entry returns. The chain still holds the recorded size exactly if the
        counts of free clusters say so. */
    method GrowForWrite(file: OpenFile, size: int, directoryResult: int, ghost c: seq<int>, ghost chains: set<seq<int>>)
      returns (res: int, ghost d: seq<int>)
      requires Valid() && (size > 0 ==> Tame(fat, limit, NewClusters(file.filesize, size, clusterBytes)))
      requires Forest(fat, chains) && c in chains && |c| > 0 && c[0] == file.firstCluster
      requires 0 <= size && file.filesize + size < UINT32
      requires |c| * clusterBytes >= file.filesize
      modifies this`fat, fatStream`pos, disk, file`filesize
      ensures Valid()
      ensures Forest(fat, chains - {c} + {d}) && OthersKept(old(fat), fat, chains, c)
      ensures Unowned(fat, chains - {c} + {d}) == Unowned(old(fat), chains) + Lost(old(fat), fat, c, d)
      ensures size == 0 || !file.isFile || !file.writable ==>
        && res == (if size != 0 && file.isFile then -ERDONLY else -EINVARG)
        && d == c && fat == old(fat) && file.filesize == old(file.filesize) && |d| * clusterBytes >= file.filesize
      ensures size > 0 && file.isFile && file.writable ==>
        var k := NewClusters(old(file.filesize), size, clusterBytes);
        && k >= 0 && InTable(old(fat), c) && Growth(fat, d) == Grow(old(fat), c, Cap(limit), k)
        && (|d| * clusterBytes >= file.filesize <==>
              KeepsCapacity(old(fat), c, Cap(limit), old(file.filesize), size, clusterBytes))
        && (Stem(c) == c && (Cap(limit) < END_MARK || k <= |LowFree(old(fat), Cap(limit))|) ==>
              c <= d && |d| == |c| + Handed(old(fat), Cap(limit), k) && |d| * clusterBytes >= file.filesize
              && (k <= |FreeSet(old(fat), Cap(limit))| && (|c| - 1) * clusterBytes < old(file.filesize) ==>
                    (|d| - 1) * clusterBytes < file.filesize))
        && if k <= |FreeSet(old(fat), Cap(limit))|
           then res == directoryResult && file.filesize == old(file.filesize) + size
           else res == -ENODISKSPACE && file.filesize == old(file.filesize)
    {
      hide FirstFree, Linked, FreeSet, LowFree, Handed, TableAt, Flatten, Grow, KeepsCapacity;
      hide Extended, ClusterCount, Tame, Forest, IsChain, OthersKept, Unowned, Lost;
      d := c;
      ForestChain(fat, chains, c);
      NothingGrown(fat, chains, c, Cap(limit));
      if size == 0 {
        return -EINVARG, d;
      }
      if !file.isFile {
        return -EINVARG, d;
      }
      if !file.writable {
        return -ERDONLY, d;
      }
      ghost var f, oldSize := fat, file.filesize;
      var oldCount := ClusterCount(file.filesize, clusterBytes);
      var newCount := ClusterCount(file.filesize + size, clusterBytes);
      ClusterCountMonotone(file.filesize, file.filesize + size, clusterBytes);
      ghost var k: nat := newCount - oldCount;
      CapacityAfterGrowth(f, c, Cap(limit), oldSize, size, clusterBytes);
      if Stem(c) == c && (Cap(limit) < END_MARK || k <= |LowFree(f, Cap(limit))|) {
        LowKeepsCapacity(f, c, Cap(limit), oldSize, size, clusterBytes);
        if k <= |FreeSet(f, Cap(limit))| && (|c| - 1) * clusterBytes < oldSize {
          TightGrowth(f, c, Cap(limit), oldSize, size, clusterBytes);
        }
      }
      GrowKeepsForest(f, chains, c, Cap(limit), k);
      res := 0;
      if file.filesize + size > (oldCount * clusterBytes) % UINT32 {
        res, d := ExtendChain(file.firstCluster, newCount - oldCount, c);
        if res < 0 {
          return;
        }
      } else {
        NoGrowthNeeded(file.filesize, size, clusterBytes);
        GrowWhenFull(f, c, Cap(limit), 0);
      }
      file.filesize := file.filesize + size;
      res := directoryResult;
    }
  }

  /** The grown chain holds the size that is then recorded: the new one if the
      clusters were there, else the old one. */
  ghost predicate KeepsCapacity(f: seq<Entry>, c: seq<int>, limit: nat, filesize: nat, size: nat, clusterBytes: nat)
    requires Ceiling(limit) < |f| && clusterBytes > 0
  {
    var k := NewClusters(filesize, size, clusterBytes);
    && k >= 0
    && var recorded := if k <= |FreeSet(f, limit)| then filesize + size else filesize;
       GrownLength(f, c, limit, k) >= ClusterCount(recorded, clusterBytes)
  }

  /** The growth's length decides whether the chain holds the recorded size. */
  lemma CapacityAfterGrowth(f: seq<Entry>, c: seq<int>, limit: nat, filesize: nat, size: nat, clusterBytes: nat)
    requires Ceiling(limit) < |f| && limit < 0x10000 && IsChain(f, c) && clusterBytes > 0
    ensures var k := NewClusters(filesize, size, clusterBytes);
      && k >= 0 && InTable(f, c)
      && var d := Grow(f, c, limit, k).chain;
         var recorded := if k <= |FreeSet(f, limit)| then filesize + size else filesize;
         |d| * clusterBytes >= recorded <==> KeepsCapacity(f, c, limit, filesize, size, clusterBytes)
  {
    hide FreeSet, FirstFree, Grow, ClusterCount, GrownLength;
    ClusterCountMonotone(filesize, filesize + size, clusterBytes);
    var k := NewClusters(filesize, size, clusterBytes);
    GrowLemma(f, c, limit, k);
    var d := Grow(f, c, limit, k).chain;
    ClusterCountIsLeast(filesize, clusterBytes, |d|);
    ClusterCountIsLeast(filesize + size, clusterBytes, |d|);
  }

  /** For a chain that does not end from 0xFFF8 up and holds its file exactly, the
      capacity is kept unless growth reports success after linking more than one
      cluster from 0xFFF8 up, or just 0xFFFF. */
  lemma CapacityIff(f: seq<Entry>, c: seq<int>, limit: nat, filesize: nat, size: nat, clusterBytes: nat)
    requires Ceiling(limit) < |f| && limit < 0x10000 && IsChain(f, c) && clusterBytes > 0
    requires Stem(c) == c && |c| == ClusterCount(filesize, clusterBytes)
    ensures var k := NewClusters(filesize, size, clusterBytes);
      var free, low := |FreeSet(f, limit)|, |LowFree(f, limit)|;
      KeepsCapacity(f, c, limit, filesize, size, clusterBytes) <==>
        k > free || k <= low || (k == low + 1 && !(EOC in FreeSet(f, limit) && k == free))
  {
    hide FreeSet, LowFree, ClusterCount;
    ClusterCountMonotone(filesize, filesize + size, clusterBytes);
    EndComesLast(f, limit);
    assert |FreeSet(f, limit)| == 0 ==> |LowFree(f, limit)| == 0;
  }

  /** So on every path as long as all numbers lie below the end marks, whatever
      the chain's spare room. */
  lemma LowKeepsCapacity(f: seq<Entry>, c: seq<int>, limit: nat, filesize: nat, size: nat, clusterBytes: nat)
    requires Ceiling(limit) < |f| && limit < 0x10000 && IsChain(f, c) && clusterBytes > 0
    requires Stem(c) == c && |c| * clusterBytes >= filesize
    requires limit < END_MARK || NewClusters(filesize, size, clusterBytes) <= |LowFree(f, limit)|
    ensures KeepsCapacity(f, c, limit, filesize, size, clusterBytes)
    ensures var k := NewClusters(filesize, size, clusterBytes);
      && k >= 0 && InTable(f, c)
      && var d := Grow(f, c, limit, k).chain; c <= d && |d| == |c| + Handed(f, limit, k)
  {
    hide FreeSet, LowFree, ClusterCount, GrownLength, Grow, FirstFree;
    ClusterCountMonotone(filesize, filesize + size, clusterBytes);
    ClusterCountIsLeast(filesize, clusterBytes, |c|);
    var k := NewClusters(filesize, size, clusterBytes);
    LowGrowth(f, c, limit, k);
    GrowLemma(f, c, limit, k);
  }

  /** And a chain with no cluster to spare is given none to spare. */
  lemma TightGrowth(f: seq<Entry>, c: seq<int>, limit: nat, filesize: nat, size: nat, clusterBytes: nat)
    requires Ceiling(limit) < |f| && limit < 0x10000 && IsChain(f, c) && clusterBytes > 0
    requires Stem(c) == c && (|c| - 1) * clusterBytes < filesize <= |c| * clusterBytes
    requires limit < END_MARK || NewClusters(filesize, size, clusterBytes) <= |LowFree(f, limit)|
    requires NewClusters(filesize, size, clusterBytes) <= |FreeSet(f, limit)|
    ensures var k := NewClusters(filesize, size, clusterBytes);
      && k >= 0 && InTable(f, c)
      && var d := Grow(f, c, limit, k).chain;
         |d| > 0 && (|d| - 1) * clusterBytes < filesize + size <= |d| * clusterBytes
  {
    hide FreeSet, LowFree, ClusterCount, Grow, FirstFree;
    LowKeepsCapacity(f, c, limit, filesize, size, clusterBytes);
    var d := Grow(f, c, limit, NewClusters(filesize, size, clusterBytes)).chain;
    ClusterCountIsLeast(filesize, clusterBytes, |c|);
    ClusterCountIsLeast(filesize, clusterBytes, |c| - 1);
    ClusterCountIsLeast(filesize + size, clusterBytes, |d|);
    ClusterCountIsLeast(filesize + size, clusterBytes, |d| - 1);
  }

  /** On the shipped geometry it can fail: with two clusters left, both from 0xFFF8
      up, a file of one cluster grown by two is recorded as three and holds two. */
  lemma ShippedCapacityFails(clusterBytes: nat)
    requires clusterBytes > 0
    ensures IsChain(NearlyFull(), [3])
    ensures !KeepsCapacity(NearlyFull(), [3], Cap(65536), clusterBytes, 2 * clusterBytes, clusterBytes)
  {
    NearlyFullFree();
    hide NearlyFull, FreeSet, LowFree, IsChain, KeepsCapacity;
    WholeClusters(1, clusterBytes);
    WholeClusters(3, clusterBytes);
    assert NewClusters(clusterBytes, 2 * clusterBytes, clusterBytes) == 2;
    CapacityIff(NearlyFull(), [3], Cap(65536), clusterBytes, 2 * clusterBytes, clusterBytes);
  }

  lemma WholeClusters(n: nat, clusterBytes: nat)
    requires clusterBytes > 0
    ensures ClusterCount(n * clusterBytes, clusterBytes) == n
  {
    var m := ClusterCount(n * clusterBytes, clusterBytes);
    ClusterCountIsLeast(n * clusterBytes, clusterBytes, n);
    if n > 0 {
      ClusterCountIsLeast(n * clusterBytes, clusterBytes, n - 1);
      assert (n - 1) * clusterBytes == n * clusterBytes - clusterBytes;
    }
  }

  lemma NothingGrown(f: seq<Entry>, chains: set<seq<int>>, c: seq<int>, limit: nat)
    requires Ceiling(limit) < |f| && limit < 0x10000 && Forest(f, chains) && c in chains
    ensures chains - {c} + {c} == chains && OthersKept(f, f, chains, c) && Lost(f, f, c, c) == {}
  {
    GrowKeepsForest(f, chains, c, limit, 0);
    assert chains - {c} + {c} == chains;
  }

  lemma LowestFree(f: seq<Entry>, limit: nat)
    requires 3 <= limit < 0x10000 ==> limit < |f|
    requires Ceiling(limit) < |f|
    ensures 3 <= limit < 0x10000 ==>
      var res := Candidate(f, limit);
      && (res == 0 <==> forall x :: 3 <= x <= limit ==> f[x] != 0)
      && (res != 0 ==> 3 <= res <= limit && f[res] == 0 && forall x :: 3 <= x < res ==> f[x] != 0)
  {
    hide FirstFree;
    if 3 <= limit < 0x10000 {
      var n := FirstFree(f, limit);
      assert forall x :: 3 <= x <= limit && f[x] == 0 ==> x in FreeSet(f, limit);
      assert n != 0 ==> n in FreeSet(f, limit);
    }
  }

  lemma ScanStep(f: seq<Entry>, limit: nat, x: int)
    requires Ceiling(limit) < |f| && FIRST_CANDIDATE <= x <= Ceiling(limit)
    ensures FirstFreeFrom(f, limit, x) == if f[x] == FREE then x
      else if x == Ceiling(limit) then 0 else FirstFreeFrom(f, limit, x + 1)
  {
  }

  lemma TameLess(f: seq<Entry>, limit: nat, k: int)
    requires Ceiling(limit) < |f| && Tame(f, limit, k) && k >= 1
    ensures Tame(f, limit, 1)
  {
  }

  lemma TameAfterFirst(f: seq<Entry>, limit: nat, k: int)
    requires Ceiling(limit) < |f| && Tame(f, limit, k) && k >= 1 && FirstFree(f, Cap(limit)) != 0
    ensures 0 < FirstFree(f, Cap(limit)) < |f|
    ensures Tame(f[FirstFree(f, Cap(limit)) := EOC], limit, k - 1)
    ensures IsChain(f[FirstFree(f, Cap(limit)) := EOC], [FirstFree(f, Cap(limit))])
    ensures InTable(f, [FirstFree(f, Cap(limit))])
  {
    FirstTaken(f, Cap(limit));
  }

  /** One cluster fewer is free, one fewer is needed. */
  lemma TameStep(f: seq<Entry>, c: seq<int>, limit: nat, k: nat)
    requires Ceiling(limit) < |f| && IsChain(f, c) && InTable(f, c) && Tame(f, limit, k) && k >= 1
    ensures Tame(Extended(f, c, Cap(limit)).fat, limit, k - 1)
  {
    hide FirstFree, FreeSet, Linked;
    if limit > 0x10000 && FirstFree(f, Cap(limit)) != 0 {
      FreeSetAfterLink(f, c, Cap(limit));
    }
  }

  lemma ExtendedFree(f: seq<Entry>, c: seq<int>, limit: nat)
    requires Ceiling(limit) < |f| && limit < 0x10000 && IsChain(f, c) && InTable(f, c)
    ensures var r := Extended(f, c, limit);
      if FreeSet(f, limit) == {} then r == Growth(f, c) && |FreeSet(f, limit)| == 0 && FirstFree(f, limit) == 0
      else |FreeSet(r.fat, limit)| == |FreeSet(f, limit)| - 1
  {
    if FreeSet(f, limit) != {} {
      FreeSetAfterLink(f, c, limit);
    }
  }

  lemma GrowOne(f: seq<Entry>, c: seq<int>, limit: nat)
    requires Ceiling(limit) < |f| && limit < 0x10000 && IsChain(f, c)
    ensures InTable(f, c) && |c| > 0 && Grow(f, c, limit, 1) == Extended(f, c, limit)
  {
  }

  lemma GeneratedNone(f: seq<Entry>, limit: nat, count: int)
    requires Ceiling(limit) < |f| && limit < 0x10000
    ensures Generated(f, limit, count).chain == [] ==> Generated(f, limit, count).fat == f
  {
    hide FirstFree, FreeSet, Grow;
    if count >= 1 && FirstFree(f, limit) != 0 {
      GeneratedLemma(f, limit, count);
    }
  }

  lemma ForestChain(f: seq<Entry>, chains: set<seq<int>>, c: seq<int>)
    requires Forest(f, chains) && c in chains
    ensures IsChain(f, c) && |c| > 0 && InTable(f, c)
  {
  }

  /** Without a 32-bit wrap of the capacity, a size that fits needs no cluster. */
  lemma NoGrowthNeeded(oldSize: nat, size: nat, clusterBytes: nat)
    requires clusterBytes > 0
    requires oldSize + size <= (ClusterCount(oldSize, clusterBytes) * clusterBytes) % UINT32
    ensures ClusterCount(oldSize + size, clusterBytes) == ClusterCount(oldSize, clusterBytes)
  {
    var n := ClusterCount(oldSize, clusterBytes);
    assert n * clusterBytes >= oldSize + size;
    ClusterCountIsLeast(oldSize + size, clusterBytes, n);
    ClusterCountMonotone(oldSize, oldSize + size, clusterBytes);
  }

  lemma EraseOneMore(f: seq<Entry>, c: seq<int>, i: nat)
    requires IsChain(f, c) && Distinct(c) && i < |c|
    ensures Erased(f, c[..i])[c[i]] == f[c[i]]
    ensures Erased(f, c[..i])[c[i] := FREE] == Erased(f, c[..i + 1])
    ensures i + 1 < |c| ==> f[c[i]] == c[i + 1]
  {
    assert c[..i + 1] == c[..i] + [c[i]];
  }
}
