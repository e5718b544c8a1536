/**
 Reading a file's bytes through its cluster chain.

 The driver reads cluster-sized pieces and walks the chain again from its head
 for each piece. `ReadPos` says which disk byte each byte of the result comes
 from; `TruePos` is where the file's byte really lies. The two agree exactly
 under `SliceSafe`.
 */
module Fat16Read {
  import opened Status
  import opened Bytes
  import opened Streamer
  import opened FatChains
  import opened Fat16Volume

  // --------------------------------------------------------- arithmetic

  lemma DivModUnique(a: int, d: int, q: int, r: int)
    requires d > 0 && a == q * d + r && 0 <= r < d
    ensures a / d == q && a % d == r
  {
    var q', r' := a / d, a % d;
    assert a == q' * d + r';
    assert (q - q') * d == r' - r;
    if q > q' {
      MulAtMost(1, q - q', d);
    } else if q < q' {
      assert (q' - q) * d == r - r';
      MulAtMost(1, q' - q, d);
    }
  }

  lemma DivModAdd(a: int, d: int, k: int)
    requires d > 0
    ensures (a + k * d) / d == a / d + k && (a + k * d) % d == a % d
  {
    assert a == (a / d) * d + a % d;
    assert a + k * d == (a / d + k) * d + a % d;
    DivModUnique(a + k * d, d, a / d + k, a % d);
  }

  lemma MulStep(n: nat, d: nat)
    requires n >= 1
    ensures n * d == d + (n - 1) * d
  {
  }

  lemma QuotientLow(p: nat, d: nat)
    requires d > 0
    ensures (p / d) * d <= p
  {
    assert p == (p / d) * d + p % d;
  }

  lemma DivBound(p: nat, d: nat, n: nat)
    requires d > 0
    ensures p / d < n <==> p < n * d
    ensures 0 <= p / d && 0 <= p % d < d
  {
    var q, r := p / d, p % d;
    assert p == q * d + r;
    if q < n {
      MulAtMost(q + 1, n, d);
    } else {
      MulAtMost(n, q, d);
    }
  }

  /** Which cluster of its chain byte `p` of a file belongs to. */
  function Index(p: nat, clusterBytes: nat): nat
    requires clusterBytes > 0
  {
    DivBound(p, clusterBytes, 0);
    p / clusterBytes
  }

  // ------------------------------------------------------------ walking

  /** Table values the FAT16 walker takes for an error. */
  predicate Rejected(entry: int) {
    entry == 0xFF8 || entry == 0xFFF || entry == 0xFFF7 || entry == 0xFF0 || entry == 0xFF6 || entry == 0x00
  }

  /** Some link among the first `k` of the chain is one of those. */
  ghost predicate Rejects(c: seq<int>, k: int) {
    exists j :: 1 <= j <= k && j < |c| && Rejected(c[j])
  }

  /** The six numbers, written out. */
  lemma RejectsIff(c: seq<int>, k: int)
    requires k < |c|
    ensures Rejects(c, k) <==> exists j :: 1 <= j <= k && c[j] in {0, 0xFF0, 0xFF6, 0xFF8, 0xFFF, 0xFFF7}
  {
    if Rejects(c, k) {
      var j :| 1 <= j <= k && j < |c| && Rejected(c[j]);
      assert c[j] in {0, 0xFF0, 0xFF6, 0xFF8, 0xFFF, 0xFFF7};
    }
    if exists j :: 1 <= j <= k && c[j] in {0, 0xFF0, 0xFF6, 0xFF8, 0xFFF, 0xFFF7} {
      var j :| 1 <= j <= k && c[j] in {0, 0xFF0, 0xFF6, 0xFF8, 0xFFF, 0xFFF7};
      assert Rejected(c[j]);
    }
  }

  /** The clusters a walk from the first one meets, whether they belong to a
      chain or lie behind its end. */
  ghost predicate IsTrail(f: seq<Entry>, c: seq<int>) {
    && |c| > 0 && c[0] >= 2
    && (forall i :: 0 <= i < |c| ==> 0 <= c[i] < |f| && c[i] != 1)
    && (forall i {:trigger f[c[i]]} :: 0 <= i < |c| - 1 ==> f[c[i]] == c[i + 1])
  }

  /** A chain is a trail, and the walker goes on behind it: it takes the end mark
      for a cluster. */
  lemma ChainIsTrail(f: seq<Entry>, c: seq<int>)
    requires IsChain(f, c)
    ensures IsTrail(f, c)
    ensures EOC < |f| ==> IsTrail(f, c + [EOC]) && !Rejected(EOC)
  {
    if EOC < |f| {
      var d := c + [EOC];
      forall i | 0 <= i < |d| - 1
        ensures f[d[i]] == d[i + 1]
      {
        assert d[i] == c[i];
      }
    }
  }

  /** What each walker makes of a link to a cluster from 0xFFF8 up. Growth stops in
      front of it, reading goes on to it, and erasing frees it unless it is 0xFFFF. */
  lemma WalkersDisagree(f: seq<Entry>, c: seq<int>, n: int)
    requires IsChain(f, c) && END_MARK <= n < |f| && n < 0x10000 && f[n] == FREE
    ensures 0 <= Last(Stem(c)) < |f|
    ensures var g := Linked(f, Last(Stem(c)), n);
      && IsWalk(g, Stem(c))
      && IsTrail(g, Stem(c) + [n]) && !Rejected(n)
      && IsChain(g, LinkedChain(c, n)) && (Erased(g, LinkedChain(c, n))[n] == FREE <==> n != EOC)
  {
    hide IsChain, IsTrail, IsWalk;
    LinkParts(f, c, n);
    LinkedIsChain(f, c, n);
    ChainIsTrail(Linked(f, Last(Stem(c)), n), LinkedChain(c, n));
    assert n !in Stem(c);
  }

  /** On the shipped geometry the allocator can hand out 0xFFF7, which the reader
      takes for a bad cluster. */
  lemma BadMarkHandedOut() returns (f: seq<Entry>)
    ensures |f| == 65537 && IsChain(f, [3]) && Candidate(f, 65536) == 0xFFF7
    ensures IsChain(Linked(f, 3, 0xFFF7), [3, 0xFFF7]) && Rejects([3, 0xFFF7], 1)
  {
    f := seq(65537, x => if x == 0xFFF7 then FREE else EOC);
    assert 0xFFF7 in FreeSet(f, 65536);
    assert FirstFree(f, 65536) == 0xFFF7;
    LinkedIsChain(f, [3], 0xFFF7);
    assert LinkedChain([3], 0xFFF7) == [3, 0xFFF7];
    assert Rejected([3, 0xFFF7][1]);
  }

  /** Cluster 0xFF8 is an ordinary one, yet the walker refuses a chain through it. */
  lemma OrdinaryClusterRefused() returns (f: seq<Entry>, c: seq<int>)
    ensures IsChain(f, c) && Rejects(c, 1) && c[1] == 0xFF8
  {
    f := seq(0x1000, x => if x == 3 then 0xFF8 else EOC);
    c := [3, 0xFF8];
    assert Rejected(c[1]);
  }

  /** The cluster that holds byte `offset`: trail[offset / clusterBytes], unless a
      link on the way is rejected. */
  method GetClusterForOffset(v: Volume, start: int, offset: nat, ghost c: seq<int>) returns (res: int)
    requires v.Valid() && IsTrail(v.fat, c) && start == c[0] && Index(offset, v.clusterBytes) < |c|
    modifies v.fatStream`pos
    ensures var k := Index(offset, v.clusterBytes);
      res == if Rejects(c, k) then -EIO else c[k]
    ensures var k := offset / v.clusterBytes;
      && 0 <= k < |c| && (res == c[k] || res < 0)
      && (res == c[k] <==> forall j :: 1 <= j <= k ==> c[j] !in {0, 0xFF0, 0xFF6, 0xFF8, 0xFFF, 0xFFF7})
  {
    RejectsIff(c, Index(offset, v.clusterBytes));
    res := 0;
    var clusterToUse := start;
    var clustersAhead := Index(offset, v.clusterBytes);
    for i := 0 to clustersAhead
      invariant i < |c| && clusterToUse == c[i]
      invariant !Rejects(c, i)
    {
      var entry := v.GetFatEntry(clusterToUse);
      assert entry == c[i + 1];
      if entry == 0xFF8 || entry == 0xFFF {
        return -EIO;
      }
      if entry == 0xFFF7 {
        return -EIO;
      }
      if entry == 0xFF0 || entry == 0xFF6 {
        return -EIO;
      }
      if entry == 0x00 {
        return -EIO;
      }
      clusterToUse := entry;
    }
    return clusterToUse;
  }

  // ---------------------------------------------------------- positions

  /** Where the data area starts on the disk and how large a cluster is. */
  datatype Layout = Layout(dataPos: nat, clusterBytes: nat)

  ghost function LayoutOf(v: Volume): Layout {
    Layout(v.dataStart * SECTOR_SIZE, v.clusterBytes)
  }

  ghost function ClusterPos(l: Layout, cluster: int): int {
    l.dataPos + (cluster - 2) * l.clusterBytes
  }

  /** Byte `p` of the file lies here. */
  ghost function TruePos(l: Layout, c: seq<int>, p: nat): int
    requires l.clusterBytes > 0 && p / l.clusterBytes < |c|
  {
    ClusterPos(l, c[p / l.clusterBytes]) + p % l.clusterBytes
  }

  /** Byte `i` of a read at `offset` is taken from here. */
  ghost function ReadPos(l: Layout, c: seq<int>, offset: nat, i: nat): int
    requires l.clusterBytes > 0 && offset / l.clusterBytes + i / l.clusterBytes < |c|
  {
    ClusterPos(l, c[offset / l.clusterBytes + i / l.clusterBytes]) + offset % l.clusterBytes + i % l.clusterBytes
  }

  /** The file position where the `k`-th cluster of a chain ends. */
  ghost function Boundary(l: Layout, k: int): int {
    (k + 1) * l.clusterBytes
  }

  /** The read starts on a cluster boundary, or every boundary strictly inside
      it joins physically adjacent clusters (in particular: there is none). */
  ghost predicate SliceSafe(l: Layout, c: seq<int>, offset: nat, total: nat)
    requires l.clusterBytes > 0
  {
    || offset % l.clusterBytes == 0
    || forall k :: offset / l.clusterBytes <= k < |c| - 1 && Boundary(l, k) < offset + total
         ==> c[k + 1] == c[k] + 1
  }

  ghost predicate ReadsTrue(l: Layout, c: seq<int>, offset: nat, total: nat)
    requires l.clusterBytes > 0 && offset + total <= |c| * l.clusterBytes
  {
    forall i :: 0 <= i < total ==> ReadsTrueAt(l, c, offset, i)
  }

  ghost predicate ReadsTrueAt(l: Layout, c: seq<int>, offset: nat, i: nat)
    requires l.clusterBytes > 0 && offset + i < |c| * l.clusterBytes
  {
    SumDiv(offset, i, l.clusterBytes);
    DivBound(offset + i, l.clusterBytes, |c|);
    ReadPos(l, c, offset, i) == TruePos(l, c, offset + i)
  }

  /** Dividing a sum: the quotients add up, plus one when the remainders carry. */
  lemma SumDiv(a: nat, b: nat, d: nat)
    requires d > 0
    ensures a % d + b % d < d ==> (a + b) / d == a / d + b / d && (a + b) % d == a % d + b % d
    ensures a % d + b % d >= d ==> (a + b) / d == a / d + b / d + 1 && (a + b) % d == a % d + b % d - d
    ensures a / d + b / d <= (a + b) / d
  {
    var qa, ra, qb, rb := a / d, a % d, b / d, b % d;
    assert a == qa * d + ra && b == qb * d + rb;
    if ra + rb < d {
      assert a + b == (qa + qb) * d + (ra + rb);
      DivModUnique(a + b, d, qa + qb, ra + rb);
    } else {
      assert a + b == (qa + qb + 1) * d + (ra + rb - d);
      DivModUnique(a + b, d, qa + qb + 1, ra + rb - d);
    }
  }

  /** One byte is read from its place iff its remainders do not carry or the
      cluster it spills into physically is the next of the chain. */
  lemma ReadsTrueAtIff(l: Layout, c: seq<int>, offset: nat, i: nat)
    requires l.clusterBytes > 0 && offset + i < |c| * l.clusterBytes
    ensures var k := Index(offset, l.clusterBytes) + Index(i, l.clusterBytes);
      && k < |c|
      && (ReadsTrueAt(l, c, offset, i) <==>
            || offset % l.clusterBytes + i % l.clusterBytes < l.clusterBytes
            || (k + 1 < |c| && c[k + 1] == c[k] + 1))
  {
    hide ClusterPos;
    var d := l.clusterBytes;
    SumDiv(offset, i, d);
    DivBound(offset + i, d, |c|);
    var k := offset / d + i / d;
    if offset % d + i % d >= d {
      assert (offset + i) / d == k + 1 && (offset + i) % d == offset % d + i % d - d;
      NextClusterPos(l, c[k], c[k + 1]);
    }
  }

  /** The next cluster starts where the last one ends exactly if its number is next. */
  lemma NextClusterPos(l: Layout, x: int, y: int)
    requires l.clusterBytes > 0
    ensures ClusterPos(l, y) == ClusterPos(l, x) + l.clusterBytes <==> y == x + 1
  {
    var d := l.clusterBytes;
    assert ClusterPos(l, y) - ClusterPos(l, x) - d == (y - x - 1) * d;
    if y != x + 1 {
      NonZeroProduct(y - x - 1, d);
    }
  }

  lemma NonZeroProduct(a: int, d: int)
    requires a != 0 && d > 0
    ensures a * d != 0
  {
    if a > 0 {
      MulAtMost(1, a, d);
    } else {
      assert (-a) * d == -(a * d);
      MulAtMost(1, -a, d);
    }
  }

  /** The piecewise read takes every byte from its place exactly when the read
      is `SliceSafe`. */
  lemma ReadsTrueIff(l: Layout, c: seq<int>, offset: nat, total: nat)
    requires l.clusterBytes > 0 && offset + total <= |c| * l.clusterBytes
    ensures ReadsTrue(l, c, offset, total) <==> SliceSafe(l, c, offset, total)
  {
    hide ReadsTrueAt, SliceSafe;
    if SliceSafe(l, c, offset, total) {
      forall i | 0 <= i < total
        ensures ReadsTrueAt(l, c, offset, i)
      {
        SafeReadsTrueAt(l, c, offset, total, i);
      }
    } else {
      var i := WrongByte(l, c, offset, total);
    }
  }

  lemma BoundaryLow(l: Layout, k: int, p: nat)
    requires l.clusterBytes > 0 && p / l.clusterBytes == k + 1
    ensures Boundary(l, k) <= p
  {
    QuotientLow(p, l.clusterBytes);
  }

  lemma SafeReadsTrueAt(l: Layout, c: seq<int>, offset: nat, total: nat, i: nat)
    requires l.clusterBytes > 0 && offset + total <= |c| * l.clusterBytes && i < total
    requires SliceSafe(l, c, offset, total)
    ensures ReadsTrueAt(l, c, offset, i)
  {
    hide ReadsTrueAt, Boundary;
    var d := l.clusterBytes;
    ReadsTrueAtIff(l, c, offset, i);
    var k := offset / d + i / d;
    SumDiv(offset, i, d);
    DivBound(offset + i, d, |c|);
    DivBound(i, d, 0);
    if offset % d + i % d >= d {
      assert (offset + i) / d == k + 1;
      BoundaryLow(l, k, offset + i);
      assert c[k + 1] == c[k] + 1;
    }
  }

  /** At a boundary between clusters that are not adjacent, an unaligned read
      takes its first byte from the wrong place. */
  lemma UnsafeBoundary(l: Layout, c: seq<int>, offset: nat, total: nat, k: nat)
    requires l.clusterBytes > 0 && offset + total <= |c| * l.clusterBytes
    requires offset % l.clusterBytes != 0
    requires offset / l.clusterBytes <= k < |c| - 1 && Boundary(l, k) < offset + total
    requires c[k + 1] != c[k] + 1
    ensures var i := Boundary(l, k) - offset; 0 <= i < total && !ReadsTrueAt(l, c, offset, i)
  {
    var d := l.clusterBytes;
    var q, r := offset / d, offset % d;
    var i := Boundary(l, k) - offset;
    assert offset == q * d + r;
    assert i == (k - q) * d + (d - r);
    MulAtMost(0, k - q, d);
    DivModUnique(i, d, k - q, d - r);
    ReadsTrueAtIff(l, c, offset, i);
  }

  // ----------------------------------------------------------- contents

  ghost predicate OnDisk(l: Layout, flat: seq<Byte>, c: seq<int>) {
    forall x :: x in c ==> 0 <= ClusterPos(l, x) && ClusterPos(l, x) + l.clusterBytes <= |flat|
  }

  /** The file's bytes: its clusters concatenated in chain order. */
  ghost function Contents(l: Layout, flat: seq<Byte>, c: seq<int>): seq<Byte>
    requires OnDisk(l, flat, c)
  {
    if c == [] then []
    else
      assert c[0] in c;
      flat[ClusterPos(l, c[0])..ClusterPos(l, c[0]) + l.clusterBytes] + Contents(l, flat, c[1..])
  }

  lemma {:induction false} ContentsAt(l: Layout, flat: seq<Byte>, c: seq<int>, p: nat)
    requires OnDisk(l, flat, c) && l.clusterBytes > 0 && p < |c| * l.clusterBytes
    ensures |Contents(l, flat, c)| == |c| * l.clusterBytes
    ensures p / l.clusterBytes < |c| && 0 <= TruePos(l, c, p) < |flat|
    ensures Contents(l, flat, c)[p] == flat[TruePos(l, c, p)]
    decreases |c|
  {
    hide ClusterPos;
    var d := l.clusterBytes;
    DivBound(p, d, |c|);
    MulStep(|c|, d);
    ContentsLength(l, flat, c);
    assert c[0] in c;
    var first := flat[ClusterPos(l, c[0])..ClusterPos(l, c[0]) + d];
    var rest := c[1..];
    assert Contents(l, flat, c) == first + Contents(l, flat, rest);
    if p < d {
      DivModUnique(p, d, 0, p);
      assert Contents(l, flat, c)[p] == first[p];
    } else {
      ContentsAt(l, flat, rest, p - d);
      ShiftedPos(l, c, p);
      assert Contents(l, flat, c)[p] == Contents(l, flat, rest)[p - d];
    }
  }

  lemma ShiftedPos(l: Layout, c: seq<int>, p: nat)
    requires l.clusterBytes > 0 && l.clusterBytes <= p && c != []
    requires (p - l.clusterBytes) / l.clusterBytes < |c[1..]| && p / l.clusterBytes < |c|
    ensures TruePos(l, c, p) == TruePos(l, c[1..], p - l.clusterBytes)
  {
    hide ClusterPos;
    var d := l.clusterBytes;
    DivModAdd(p - d, d, 1);
    DivBound(p - d, d, |c[1..]|);
    assert p - d + 1 * d == p;
  }

  lemma {:induction false} ContentsLength(l: Layout, flat: seq<Byte>, c: seq<int>)
    requires OnDisk(l, flat, c)
    ensures |Contents(l, flat, c)| == |c| * l.clusterBytes
  {
    if c != [] {
      assert c[0] in c;
      ContentsLength(l, flat, c[1..]);
      MulStep(|c|, l.clusterBytes);
    }
  }

  /** What a successful read delivers. */
  ghost predicate Delivers(l: Layout, flat: seq<Byte>, c: seq<int>, offset: nat, data: seq<Byte>)
    requires l.clusterBytes > 0 && offset + |data| <= |c| * l.clusterBytes
  {
    forall i :: 0 <= i < |data| ==> DeliversAt(l, flat, c, offset, i, data[i])
  }

  ghost predicate DeliversAt(l: Layout, flat: seq<Byte>, c: seq<int>, offset: nat, i: nat, b: Byte)
    requires l.clusterBytes > 0 && offset + i < |c| * l.clusterBytes
  {
    SumDiv(offset, i, l.clusterBytes);
    DivBound(offset + i, l.clusterBytes, |c|);
    && 0 <= ReadPos(l, c, offset, i) < |flat|
    && b == flat[ReadPos(l, c, offset, i)]
  }

  /** A safe read delivers the slice [offset, offset + total) of the file. */
  lemma SafeReadIsSlice(l: Layout, flat: seq<Byte>, c: seq<int>, offset: nat, data: seq<Byte>)
    requires l.clusterBytes > 0 && offset + |data| <= |c| * l.clusterBytes && OnDisk(l, flat, c)
    requires SliceSafe(l, c, offset, |data|) && Delivers(l, flat, c, offset, data)
    ensures |Contents(l, flat, c)| == |c| * l.clusterBytes
    ensures data == Contents(l, flat, c)[offset..offset + |data|]
  {
    ContentsLength(l, flat, c);
    ReadsTrueIff(l, c, offset, |data|);
    forall i | 0 <= i < |data|
      ensures data[i] == Contents(l, flat, c)[offset + i]
    {
      assert ReadsTrueAt(l, c, offset, i) && DeliversAt(l, flat, c, offset, i, data[i]);
      ContentsAt(l, flat, c, offset + i);
    }
  }

  /** An unsafe read takes some byte from a place where the file's byte is not. */
  lemma WrongByte(l: Layout, c: seq<int>, offset: nat, total: nat) returns (i: nat)
    requires l.clusterBytes > 0 && offset + total <= |c| * l.clusterBytes
    requires !SliceSafe(l, c, offset, total)
    ensures i < total && !ReadsTrueAt(l, c, offset, i)
  {
    hide Boundary;
    DivBound(offset, l.clusterBytes, |c|);
    var k :| offset / l.clusterBytes <= k < |c| - 1 && Boundary(l, k) < offset + total && c[k + 1] != c[k] + 1;
    UnsafeBoundary(l, c, offset, total, k);
    i := Boundary(l, k) - offset;
  }

  /** An unsafe read is wrong on some disk: there are contents for which what
      it delivers, and if its pieces fit it delivers something, is not the slice. */
  lemma UnsafeReadIsWrong(l: Layout, c: seq<int>, offset: nat, total: nat, size: nat) returns (flat: seq<Byte>)
    requires l.clusterBytes > 0 && offset + total <= |c| * l.clusterBytes
    requires !SliceSafe(l, c, offset, total)
    requires forall x :: x in c ==> 0 <= ClusterPos(l, x) && ClusterPos(l, x) + l.clusterBytes <= size
    ensures |flat| == size && OnDisk(l, flat, c) && |Contents(l, flat, c)| == |c| * l.clusterBytes
    ensures forall data: seq<Byte> :: |data| == total && Delivers(l, flat, c, offset, data) ==>
      data != Contents(l, flat, c)[offset..offset + total]
    ensures forall sectors: nat :: SECTOR_SIZE * sectors <= size && PiecesFit(l, sectors, c, offset, total) ==>
      exists data: seq<Byte> :: |data| == total && Delivers(l, flat, c, offset, data)
  {
    hide SliceSafe, ReadPos, TruePos, ClusterPos, PiecesFit;
    var d := l.clusterBytes;
    var i := WrongByte(l, c, offset, total);
    SumDiv(offset, i, d);
    DivBound(offset + i, d, |c|);
    var wrong := ReadPos(l, c, offset, i);
    flat := seq(size, p => if p == wrong then 1 else 0);
    assert OnDisk(l, flat, c);
    ContentsLength(l, flat, c);
    ContentsAt(l, flat, c, offset + i);
    var bytes := Contents(l, flat, c);
    assert bytes[offset + i] == 0;
    forall data: seq<Byte> | |data| == total && Delivers(l, flat, c, offset, data)
      ensures data != bytes[offset..offset + total]
    {
      assert DeliversAt(l, flat, c, offset, i, data[i]);
      assert data[i] == 1 && bytes[offset..offset + total][i] == 0;
    }
    forall sectors: nat | SECTOR_SIZE * sectors <= size && PiecesFit(l, sectors, c, offset, total)
      ensures exists data: seq<Byte> :: |data| == total && Delivers(l, flat, c, offset, data)
    {
      var data := FittingReadDelivers(l, flat, c, offset, total, sectors);
    }
  }

  /** A read whose pieces fit on the disk delivers something. */
  lemma FittingReadDelivers(l: Layout, flat: seq<Byte>, c: seq<int>, offset: nat, total: nat, sectors: nat)
    returns (data: seq<Byte>)
    requires l.clusterBytes > 0 && offset + total <= |c| * l.clusterBytes && OnDisk(l, flat, c)
    requires SECTOR_SIZE * sectors <= |flat| && PiecesFit(l, sectors, c, offset, total)
    ensures |data| == total && Delivers(l, flat, c, offset, data)
  {
    hide PiecesFit, OnDisk, DeliversAt;
    data := [];
    for i := 0 to total
      invariant |data| == i && Delivers(l, flat, c, offset, data)
    {
      var b := FittingByte(l, flat, c, offset, total, sectors, i);
      data := data + [b];
    }
  }

  lemma FittingByte(l: Layout, flat: seq<Byte>, c: seq<int>, offset: nat, total: nat, sectors: nat, i: nat)
    returns (b: Byte)
    requires l.clusterBytes > 0 && offset + total <= |c| * l.clusterBytes && OnDisk(l, flat, c) && i < total
    requires SECTOR_SIZE * sectors <= |flat| && PiecesFit(l, sectors, c, offset, total)
    ensures DeliversAt(l, flat, c, offset, i, b)
  {
    hide ClusterPos;
    var d := l.clusterBytes;
    SumDiv(offset, i, d);
    DivBound(offset + i, d, |c|);
    var k := Index(offset, d) + Index(i, d);
    assert c[k] in c;
    PieceHolds(d, offset, total, i);
    assert PieceFits(l, sectors, c, offset, total, k);
    assert ReadPos(l, c, offset, i) < PieceEnd(l, c, offset, total, k);
    assert 0 <= offset % d && 0 <= i % d by {
      DivBound(offset, d, 0);
      DivBound(i, d, 0);
    }
    b := flat[ReadPos(l, c, offset, i)];
  }

  /** Byte `i` of a read lies inside its piece. */
  lemma PieceHolds(d: nat, offset: nat, total: nat, i: nat)
    requires d > 0 && i < total
    ensures var k, last := offset / d + i / d, LastPiece(d, offset, total);
      && offset / d <= k <= last
      && (k == last ==> i % d < total - (last - offset / d) * d) && i % d < d
  {
    var q, j, s := Index(total - 1, d), Index(i, d), i % d;
    DivBound(i, d, q + 1);
    DivBound(total - 1, d, q + 1);
    QuotientLow(total - 1, d);
    assert i == j * d + s;
    assert LastPiece(d, offset, total) - offset / d == q;
  }

  // ------------------------------------------------------------ reading

  /** Index in the chain of the last piece a read walks to. */
  ghost function LastPiece(d: nat, offset: nat, total: nat): nat
    requires d > 0
  {
    offset / d + if total == 0 then 0 else (total - 1) / d
  }

  /** Where on the disk the piece taken from cluster `k` of the chain ends. */
  ghost function PieceEnd(l: Layout, c: seq<int>, offset: nat, total: nat, k: int): int
    requires l.clusterBytes > 0 && 0 <= k < |c|
  {
    var last := LastPiece(l.clusterBytes, offset, total);
    ClusterPos(l, c[k]) + offset % l.clusterBytes
      + if k < last then l.clusterBytes else total - (last - offset / l.clusterBytes) * l.clusterBytes
  }

  /** The sector the piece ends in is on the disk. */
  ghost predicate PieceFits(l: Layout, sectors: nat, c: seq<int>, offset: nat, total: nat, k: int)
    requires l.clusterBytes > 0 && 0 <= k < |c|
  {
    PieceEnd(l, c, offset, total, k) / SECTOR_SIZE < sectors
  }

  /** A read succeeds: no link up to its last piece is rejected, and every piece
      and the byte behind it lie on the disk. */
  ghost predicate Succeeds(l: Layout, sectors: nat, c: seq<int>, offset: nat, total: nat)
    requires l.clusterBytes > 0
  {
    !Rejects(c, LastPiece(l.clusterBytes, offset, total)) && PiecesFit(l, sectors, c, offset, total)
  }

  ghost predicate PiecesFit(l: Layout, sectors: nat, c: seq<int>, offset: nat, total: nat)
    requires l.clusterBytes > 0
  {
    forall k :: offset / l.clusterBytes <= k <= LastPiece(l.clusterBytes, offset, total) && 0 <= k < |c| ==>
      PieceFits(l, sectors, c, offset, total, k)
  }

  /** The whole cluster after each of the chain's clusters is still on the disk. */
  ghost predicate Roomy(l: Layout, size: nat, c: seq<int>) {
    forall x :: x in c ==> 0 <= ClusterPos(l, x) && ClusterPos(l, x) + 2 * l.clusterBytes < size
  }

  /** On such a disk every read inside a chain without refused links succeeds. */
  lemma RoomySucceeds(l: Layout, sectors: nat, c: seq<int>, offset: nat, total: nat)
    requires l.clusterBytes > 0 && offset < |c| * l.clusterBytes && offset + total <= |c| * l.clusterBytes
    requires Roomy(l, SECTOR_SIZE * sectors, c)
    requires forall j :: 1 <= j < |c| ==> c[j] !in {0, 0xFF0, 0xFF6, 0xFF8, 0xFFF, 0xFFF7}
    ensures Succeeds(l, sectors, c, offset, total)
  {
    hide ClusterPos, Rejected;
    var d := l.clusterBytes;
    var last := LastPiece(d, offset, total);
    LastPieceInChain(d, offset, total, |c|);
    LastPieceShort(d, offset, total);
    RejectsIff(c, last);
    forall k | offset / d <= k <= last
      ensures PieceFits(l, sectors, c, offset, total, k)
    {
      assert c[k] in c;
      DivBound(offset, d, 0);
    }
  }

  /** The last piece is no longer than a cluster. */
  lemma LastPieceShort(d: nat, offset: nat, total: nat)
    requires d > 0
    ensures total - (LastPiece(d, offset, total) - offset / d) * d <= d
  {
    if total > 0 {
      var q, r := (total - 1) / d, (total - 1) % d;
      assert total - 1 == q * d + r;
    }
  }

  /** One piece read straight from the disk delivers the first bytes. */
  lemma FirstPiece(l: Layout, flat: seq<Byte>, c: seq<int>, offset: nat, data: seq<Byte>)
    requires l.clusterBytes > 0 && |data| <= l.clusterBytes && offset + |data| <= |c| * l.clusterBytes
    requires offset / l.clusterBytes < |c|
    requires var p := ClusterPos(l, c[offset / l.clusterBytes]) + offset % l.clusterBytes;
      0 <= p && p + |data| <= |flat| && data == flat[p..p + |data|]
    ensures Delivers(l, flat, c, offset, data)
  {
    var p := ClusterPos(l, c[offset / l.clusterBytes]) + offset % l.clusterBytes;
    forall i | 0 <= i < |data|
      ensures DeliversAt(l, flat, c, offset, i, data[i])
    {
      DivModUnique(i, l.clusterBytes, 0, i);
      SumDiv(offset, i, l.clusterBytes);
      DivBound(offset + i, l.clusterBytes, |c|);
      assert ReadPos(l, c, offset, i) == p + i;
      assert data[i] == flat[p..p + |data|][i];
    }
  }

  /** A full first piece followed by the read of the rest is the whole read. */
  lemma PiecesJoin(l: Layout, flat: seq<Byte>, c: seq<int>, offset: nat, a: seq<Byte>, b: seq<Byte>)
    requires l.clusterBytes > 0 && |a| == l.clusterBytes && offset + |a| + |b| <= |c| * l.clusterBytes
    requires Delivers(l, flat, c, offset, a) && Delivers(l, flat, c, offset + l.clusterBytes, b)
    ensures Delivers(l, flat, c, offset, a + b)
  {
    var d := l.clusterBytes;
    forall i | 0 <= i < |a + b|
      ensures DeliversAt(l, flat, c, offset, i, (a + b)[i])
    {
      if i < |a| {
        assert DeliversAt(l, flat, c, offset, i, a[i]);
      } else {
        var j := i - d;
        assert DeliversAt(l, flat, c, offset + d, j, b[j]);
        DivModAdd(offset, d, 1);
        DivModAdd(j, d, 1);
        SumDiv(offset, i, d);
        SumDiv(offset + d, j, d);
        DivBound(offset + i, d, |c|);
        assert ReadPos(l, c, offset, i) == ReadPos(l, c, offset + d, j);
      }
    }
  }

  /** The last piece of a longer read is the last piece of its rest. */
  lemma LastPieceStep(d: nat, offset: nat, total: nat)
    requires d > 0 && total > d
    ensures LastPiece(d, offset, total) == LastPiece(d, offset + d, total - d)
  {
    DivModAdd(offset, d, 1);
    DivModAdd(total - 1 - d, d, 1);
  }

  lemma OnePiece(d: nat, offset: nat, total: nat)
    requires d > 0 && total <= d
    ensures LastPiece(d, offset, total) == offset / d
  {
    if total > 0 {
      DivModUnique(total - 1, d, 0, total - 1);
    }
  }

  lemma LastPieceInChain(d: nat, offset: nat, total: nat, n: nat)
    requires d > 0 && offset < n * d && offset + total <= n * d
    ensures offset / d <= LastPiece(d, offset, total) < n
  {
    DivBound(offset, d, n);
    if total > 0 {
      SumDiv(offset, total - 1, d);
      DivBound(offset + total - 1, d, n);
    }
  }

  lemma RejectsMore(c: seq<int>, j: int, k: int)
    requires j <= k && Rejects(c, j)
    ensures Rejects(c, k)
  {
  }

  /** The byte position the driver computes for a place in a cluster. */
  lemma StartingPosition(dataStart: nat, sectorsPerCluster: nat, cluster: int)
    requires cluster >= 2
    ensures var p := (dataStart + (cluster - 2) * sectorsPerCluster) * SECTOR_SIZE;
      p >= 0 && p == ClusterPos(Layout(dataStart * SECTOR_SIZE, sectorsPerCluster * SECTOR_SIZE), cluster)
  {
    MulAtMost(0, cluster - 2, sectorsPerCluster);
    assert (cluster - 2) * (sectorsPerCluster * SECTOR_SIZE) == ((cluster - 2) * sectorsPerCluster) * SECTOR_SIZE;
  }

  /** One piece: walk to the cluster of `offset`, then read `n` bytes from there. */
  method ReadPiece(v: Volume, out: array<Byte>, at: nat, cluster: int, offset: nat, n: nat, ghost c: seq<int>)
    returns (res: int)
    requires v.Valid() && IsTrail(v.fat, c) && cluster == c[0]
    requires offset < |c| * v.clusterBytes && offset + n <= |c| * v.clusterBytes && n <= v.clusterBytes
    requires at + n <= out.Length
    modifies v.fatStream`pos, v.clusterStream`pos, out
    ensures res <= 0
    ensures res == 0 <==> Succeeds(LayoutOf(v), |v.disk.sectors|, c, offset, n)
    ensures res == 0 ==> Delivers(LayoutOf(v), v.disk.Flat(), c, offset, out[at..at + n])
    ensures res == 0 ==>
      var k := offset / v.clusterBytes;
      && 0 <= k < |c|
      && var p := 512 * (v.dataStart + (c[k] - 2) * v.sectorsPerCluster) + offset % v.clusterBytes;
         0 <= p && p + n <= |v.disk.Flat()| && out[at..at + n] == v.disk.Flat()[p..p + n]
    ensures forall k :: 0 <= k < out.Length && !(at <= k < at + n) ==> out[k] == old(out[k])
  {
    hide ReadPos, TruePos, Flatten, TableAt, Delivers, Rejected, ClusterPos, PiecesFit;
    ghost var d, l, flat := v.clusterBytes, LayoutOf(v), v.disk.Flat();
    DivBound(offset, d, |c|);
    ghost var k := offset / d;
    var clusterToUse := GetClusterForOffset(v, cluster, offset, c);
    OnePieceFits(l, |v.disk.sectors|, c, offset, n);
    if clusterToUse < 0 {
      return clusterToUse;
    }
    UsableCluster(v.fat, c, k);
    StartingPosition(v.dataStart, v.sectorsPerCluster, c[k]);
    var startingSector := v.dataStart + (clusterToUse - 2) * v.sectorsPerCluster;
    var startingPos := startingSector * SECTOR_SIZE + offset % v.clusterBytes;
    assert startingPos == ClusterPos(l, c[k]) + offset % d;
    res := v.clusterStream.Seek(startingPos);
    res := v.clusterStream.Read(out, at, n);
    if res == 0 {
      FirstPiece(l, flat, c, offset, out[at..at + n]);
    }
  }

  /** A link that is not refused is a proper cluster number. */
  lemma UsableCluster(f: seq<Entry>, c: seq<int>, k: nat)
    requires IsTrail(f, c) && k < |c| && !Rejects(c, k)
    ensures c[k] >= 2
  {
    assert k > 0 ==> !Rejected(c[k]);
  }

  /** What fitting comes down to for a read of one piece. */
  lemma OnePieceFits(l: Layout, sectors: nat, c: seq<int>, offset: nat, n: nat)
    requires l.clusterBytes > 0 && n <= l.clusterBytes && 0 <= offset / l.clusterBytes < |c|
    ensures LastPiece(l.clusterBytes, offset, n) == offset / l.clusterBytes
    ensures PiecesFit(l, sectors, c, offset, n) <==>
      (ClusterPos(l, c[offset / l.clusterBytes]) + offset % l.clusterBytes + n) / SECTOR_SIZE < sectors
  {
    hide ClusterPos;
    OnePiece(l.clusterBytes, offset, n);
    var k := offset / l.clusterBytes;
    assert PieceFits(l, sectors, c, offset, n, k) <==>
      (ClusterPos(l, c[k]) + offset % l.clusterBytes + n) / SECTOR_SIZE < sectors;
  }

  /** A longer read fits exactly if its first piece and its rest do. */
  lemma PiecesFitStep(l: Layout, sectors: nat, c: seq<int>, offset: nat, total: nat)
    requires var d := l.clusterBytes; d > 0 && total > d && 0 <= offset / d < |c|
    ensures var d := l.clusterBytes;
      PiecesFit(l, sectors, c, offset, total) <==>
        PiecesFit(l, sectors, c, offset, d) && PiecesFit(l, sectors, c, offset + d, total - d)
  {
    hide ClusterPos, PieceFits;
    var d := l.clusterBytes;
    var first, last := offset / d, LastPiece(d, offset, total);
    LastPieceBehind(d, offset, total);
    LastPieceBehind(d, offset + d, total - d);
    LastPieceStep(d, offset, total);
    OnePiece(d, offset, d);
    DivModAdd(offset, d, 1);
    assert (offset + d) / d == first + 1 <= last == LastPiece(d, offset + d, total - d);
    PieceStep(l, sectors, c, offset, total, first);
    var next, rest := offset + d, total - d;
    if PiecesFit(l, sectors, c, offset, total) {
      assert PieceFits(l, sectors, c, offset, total, first);
      forall k | first + 1 <= k <= last && k < |c|
        ensures PieceFits(l, sectors, c, next, rest, k)
      {
        PieceStep(l, sectors, c, offset, total, k);
        assert PieceFits(l, sectors, c, offset, total, k);
      }
    }
    if PiecesFit(l, sectors, c, offset, d) && PiecesFit(l, sectors, c, offset + d, total - d) {
      assert PieceFits(l, sectors, c, offset, d, first);
      forall k | first <= k <= last && k < |c|
        ensures PieceFits(l, sectors, c, offset, total, k)
      {
        PieceStep(l, sectors, c, offset, total, k);
        assert k > first ==> PieceFits(l, sectors, c, next, rest, k);
      }
    }
  }

  /** A longer read succeeds exactly if its first piece and its rest do. */
  lemma SucceedsStep(l: Layout, sectors: nat, c: seq<int>, offset: nat, total: nat)
    requires var d := l.clusterBytes; d > 0 && total > d && 0 <= offset / d < |c|
    ensures var d := l.clusterBytes;
      Succeeds(l, sectors, c, offset, total) <==>
        Succeeds(l, sectors, c, offset, d) && Succeeds(l, sectors, c, offset + d, total - d)
  {
    hide Rejects, PiecesFit;
    var d := l.clusterBytes;
    PiecesFitStep(l, sectors, c, offset, total);
    LastPieceBehind(d, offset, total);
    LastPieceStep(d, offset, total);
    OnePiece(d, offset, d);
    if Rejects(c, offset / d) {
      RejectsMore(c, offset / d, LastPiece(d, offset, total));
    }
  }

  lemma PieceStep(l: Layout, sectors: nat, c: seq<int>, offset: nat, total: nat, k: int)
    requires l.clusterBytes > 0 && total > l.clusterBytes
    requires 0 <= offset / l.clusterBytes <= k <= LastPiece(l.clusterBytes, offset, total) && k < |c|
    ensures var d := l.clusterBytes;
      PieceFits(l, sectors, c, offset, total, k) <==>
        if k == offset / d then PieceFits(l, sectors, c, offset, d, k)
        else PieceFits(l, sectors, c, offset + d, total - d, k)
  {
    hide ClusterPos;
    var d := l.clusterBytes;
    var first, last := offset / d, LastPiece(d, offset, total);
    LastPieceStep(d, offset, total);
    LastPieceBehind(d, offset + d, total - d);
    OnePiece(d, offset, d);
    DivModAdd(offset, d, 1);
    assert (last - first) * d == (last - (first + 1)) * d + d;
    assert k == first ==> PieceEnd(l, c, offset, d, k) == PieceEnd(l, c, offset, total, k);
    assert k > first ==> PieceEnd(l, c, offset + d, total - d, k) == PieceEnd(l, c, offset, total, k);
  }

  lemma LastPieceBehind(d: nat, offset: nat, total: nat)
    requires d > 0
    ensures offset / d <= LastPiece(d, offset, total)
  {
    if total > 0 {
      DivBound(total - 1, d, 0);
    }
  }

  /** Reads `total` bytes from `offset` of the chain into `out[at..]`. */
  method ReadInternal(v: Volume, out: array<Byte>, at: nat, cluster: int, offset: nat, total: nat, ghost c: seq<int>)
    returns (res: int)
    requires v.Valid() && IsTrail(v.fat, c) && cluster == c[0]
    requires offset < |c| * v.clusterBytes && offset + total <= |c| * v.clusterBytes
    requires at + total <= out.Length
    modifies v.fatStream`pos, v.clusterStream`pos, out
    ensures res <= 0
    ensures res == 0 <==> Succeeds(LayoutOf(v), |v.disk.sectors|, c, offset, total)
    ensures res == 0 ==> Delivers(LayoutOf(v), v.disk.Flat(), c, offset, out[at..at + total])
    ensures forall k :: 0 <= k < out.Length && !(at <= k < at + total) ==> out[k] == old(out[k])
    decreases total
  {
    hide Flatten, TableAt, Delivers, Succeeds, IsTrail;
    ghost var d, l, flat, sectors := v.clusterBytes, LayoutOf(v), v.disk.Flat(), |v.disk.sectors|;
    var totalToRead := if total > v.clusterBytes then v.clusterBytes else total;
    DivBound(offset, d, |c|);
    if total > d {
      SucceedsStep(l, sectors, c, offset, total);
    }
    res := ReadPiece(v, out, at, cluster, offset, totalToRead, c);
    if res != 0 {
      return;
    }
    if total - totalToRead > 0 {
      ghost var first := out[at..at + totalToRead];
      res := ReadInternal(v, out, at + totalToRead, cluster, offset + totalToRead, total - totalToRead, c);
      assert out[at..at + totalToRead] == first;
      assert out[at..at + total] == first + out[at + totalToRead..at + total];
      if res == 0 {
        PiecesJoin(l, flat, c, offset, first, out[at + totalToRead..at + total]);
      }
    }
  }

  /** Byte `p` of the file with chain `c` is `b`: it lies in sector `dataStart` plus
      as many clusters as the number of its own exceeds 2, and so on. */
  ghost predicate FileByte(v: Volume, c: seq<int>, p: nat, b: Byte)
    requires v.Valid()
    reads v, v.disk
  {
    && 0 <= p / v.clusterBytes < |c|
    && var at := 512 * (v.dataStart + (c[p / v.clusterBytes] - 2) * v.sectorsPerCluster) + p % v.clusterBytes;
       0 <= at < |v.disk.Flat()| && b == v.disk.Flat()[at]
  }

  /** A chain through none of the six refused numbers, on a disk with a cluster to
      spare behind each of its own: every read inside it succeeds, and one that is
      safe delivers the file's bytes in order. */
  method ReadOrdinary(v: Volume, out: array<Byte>, cluster: int, offset: nat, ghost c: seq<int>) returns (res: int)
    requires v.Valid() && IsChain(v.fat, c) && cluster == c[0]
    requires offset < |c| * v.clusterBytes && offset + out.Length <= |c| * v.clusterBytes
    requires forall j :: 1 <= j < |c| ==> c[j] !in {0, 0xFF0, 0xFF6, 0xFF8, 0xFFF, 0xFFF7}
    requires forall x :: x in c ==>
      512 * (v.dataStart + (x - 2) * v.sectorsPerCluster) + 2 * v.clusterBytes < |v.disk.Flat()|
    modifies v.fatStream`pos, v.clusterStream`pos, out
    ensures res == 0
    ensures SliceSafe(LayoutOf(v), c, offset, out.Length) ==> FileSlice(v, c, offset, out[..])
  {
    hide Flatten, TableAt, Delivers, Succeeds, IsTrail, SliceSafe, Roomy, OnDisk, FileSlice, IsChain, FileByte;
    ChainIsTrail(v.fat, c);
    RoomyDisk(v, c);
    RoomySucceeds(LayoutOf(v), |v.disk.sectors|, c, offset, out.Length);
    res := ReadInternal(v, out, 0, cluster, offset, out.Length, c);
    assert out[0..out.Length] == out[..];
    if SliceSafe(LayoutOf(v), c, offset, out.Length) {
      SafeIsFileSlice(v, c, offset, out[..]);
    }
  }

  /** The bytes are the file's from `offset` on. */
  ghost predicate FileSlice(v: Volume, c: seq<int>, offset: nat, data: seq<Byte>)
    requires v.Valid()
    reads v, v.disk
  {
    forall i :: 0 <= i < |data| ==> FileByte(v, c, offset + i, data[i])
  }

  lemma SafeIsFileSlice(v: Volume, c: seq<int>, offset: nat, data: seq<Byte>)
    requires v.Valid() && IsChain(v.fat, c) && offset + |data| <= |c| * v.clusterBytes
    requires OnDisk(LayoutOf(v), v.disk.Flat(), c) && SliceSafe(LayoutOf(v), c, offset, |data|)
    requires Delivers(LayoutOf(v), v.disk.Flat(), c, offset, data)
    ensures FileSlice(v, c, offset, data)
  {
    hide Flatten, TableAt, Contents, OnDisk, SliceSafe, Delivers, FileByte, IsChain;
    var bytes := Contents(LayoutOf(v), v.disk.Flat(), c);
    SafeReadIsSlice(LayoutOf(v), v.disk.Flat(), c, offset, data);
    forall i | 0 <= i < |data|
      ensures FileByte(v, c, offset + i, data[i])
    {
      ByteOfSlice(v, c, offset, data, i, bytes);
    }
  }

  lemma ByteOfSlice(v: Volume, c: seq<int>, offset: nat, data: seq<Byte>, i: nat, bytes: seq<Byte>)
    requires v.Valid() && IsChain(v.fat, c) && OnDisk(LayoutOf(v), v.disk.Flat(), c)
    requires bytes == Contents(LayoutOf(v), v.disk.Flat(), c) && |bytes| == |c| * v.clusterBytes
    requires i < |data| && offset + |data| <= |bytes| && data == bytes[offset..offset + |data|]
    ensures FileByte(v, c, offset + i, data[i])
  {
    hide Flatten, TableAt, Contents, OnDisk, FileByte, IsChain;
    assert data[i] == bytes[offset + i];
    ByteOfContents(v, c, offset + i);
  }

  lemma RoomyDisk(v: Volume, c: seq<int>)
    requires v.Valid() && IsChain(v.fat, c)
    requires forall x :: x in c ==>
      512 * (v.dataStart + (x - 2) * v.sectorsPerCluster) + 2 * v.clusterBytes < |v.disk.Flat()|
    ensures Roomy(LayoutOf(v), SECTOR_SIZE * |v.disk.sectors|, c) && OnDisk(LayoutOf(v), v.disk.Flat(), c)
  {
    hide Flatten, TableAt;
    forall x | x in c
      ensures 0 <= ClusterPos(LayoutOf(v), x) && ClusterPos(LayoutOf(v), x) + 2 * v.clusterBytes < |v.disk.Flat()|
    {
      ChainIsUsed(v.fat, c, x);
      StartingPosition(v.dataStart, v.sectorsPerCluster, x);
    }
  }

  lemma ByteOfContents(v: Volume, c: seq<int>, p: nat)
    requires v.Valid() && IsChain(v.fat, c) && p < |c| * v.clusterBytes && OnDisk(LayoutOf(v), v.disk.Flat(), c)
    ensures |Contents(LayoutOf(v), v.disk.Flat(), c)| == |c| * v.clusterBytes
    ensures FileByte(v, c, p, Contents(LayoutOf(v), v.disk.Flat(), c)[p])
  {
    hide Flatten, TableAt, Contents, OnDisk;
    DivBound(p, v.clusterBytes, |c|);
    var x := c[p / v.clusterBytes];
    assert x in c;
    StartingPosition(v.dataStart, v.sectorsPerCluster, x);
    ContentsAt(LayoutOf(v), v.disk.Flat(), c, p);
  }

  /** Every block of a record-wise read is safe. */
  ghost predicate BlocksSafe(l: Layout, c: seq<int>, pos: nat, size: nat, count: nat)
    requires l.clusterBytes > 0
  {
    forall b: nat :: b < count ==> SliceSafe(l, c, pos + b * size, size)
  }

  /** One more safe block extends the slice. */
  lemma SliceExtends(l: Layout, flat: seq<Byte>, c: seq<int>, pos: nat, a: seq<Byte>, b: seq<Byte>)
    requires l.clusterBytes > 0 && pos + |a| + |b| <= |c| * l.clusterBytes && OnDisk(l, flat, c)
    requires |Contents(l, flat, c)| == |c| * l.clusterBytes && a == Contents(l, flat, c)[pos..pos + |a|]
    requires SliceSafe(l, c, pos + |a|, |b|) && Delivers(l, flat, c, pos + |a|, b)
    ensures a + b == Contents(l, flat, c)[pos..pos + |a| + |b|]
  {
    SafeReadIsSlice(l, flat, c, pos + |a|, b);
    SliceSplit(Contents(l, flat, c), pos, |a|, |a| + |b|);
  }

  /** Every block of a record-wise read succeeds. */
  ghost predicate BlocksSucceed(l: Layout, sectors: nat, c: seq<int>, pos: nat, size: nat, count: nat)
    requires l.clusterBytes > 0
  {
    forall b: nat :: b < count ==> BlockSucceeds(l, sectors, c, pos, size, b)
  }

  ghost predicate BlockSucceeds(l: Layout, sectors: nat, c: seq<int>, pos: nat, size: nat, b: nat)
    requires l.clusterBytes > 0
  {
    Succeeds(l, sectors, c, pos + BlockEnd(b, size), size)
  }

  /** Reads `count` records of `size` bytes from the file position. It succeeds
      exactly if every record does; a failure leaves the position alone. */
  method ReadFile(v: Volume, file: OpenFile, size: nat, count: nat, out: array<Byte>, ghost c: seq<int>)
    returns (res: int)
    requires v.Valid() && IsTrail(v.fat, c) && file.firstCluster == c[0]
    requires file.pos < |c| * v.clusterBytes && file.pos + count * size <= |c| * v.clusterBytes
    requires count * size <= out.Length
    modifies file`pos, v.fatStream`pos, v.clusterStream`pos, out
    ensures res <= 0
    ensures res == 0 <==> BlocksSucceed(LayoutOf(v), |v.disk.sectors|, c, old(file.pos), size, count)
    ensures file.pos == if res == 0 then old(file.pos) + count * size else old(file.pos)
    ensures res == 0 && OnDisk(LayoutOf(v), v.disk.Flat(), c)
            && BlocksSafe(LayoutOf(v), c, old(file.pos), size, count) ==>
      && |Contents(LayoutOf(v), v.disk.Flat(), c)| == |c| * v.clusterBytes
      && out[..count * size] == Contents(LayoutOf(v), v.disk.Flat(), c)[old(file.pos)..old(file.pos) + count * size]
  {
    hide Flatten, TableAt, Delivers, SliceSafe, Succeeds;
    hide Contents, BlocksSafe, ReadSoFar, OnDisk, IsTrail, BlockEnd;
    ghost var l, flat, start := LayoutOf(v), v.disk.Flat(), file.pos;
    ReadNothing(l, flat, c, start, size, count);
    BlockEndZero(size);
    assert out[..0] == [];
    res := 0;
    var offset := file.pos;
    var at := 0;
    for i := 0 to count
      invariant res == 0 && at == BlockEnd(i, size) && offset == start + at && file.pos == start
      invariant at <= out.Length && forall b: nat :: b < i ==> BlockSucceeds(l, |v.disk.sectors|, c, start, size, b)
      invariant ReadSoFar(l, flat, c, start, size, count, out[..at])
    {
      BlockStart(start, i, size, count, |c| * v.clusterBytes);
      res := ReadRecord(v, file, size, count, out, at, offset, c, start, i);
      if res < 0 {
        assert !BlockSucceeds(l, |v.disk.sectors|, c, start, size, i);
        return;
      }
      at := at + size;
      offset := offset + size;
    }
    BlockEndIs(count, size);
    file.pos := offset;
    ReadAll(l, flat, c, start, size, count, out[..at]);
  }

  /** One record of a record-wise read. */
  method ReadRecord(v: Volume, file: OpenFile, size: nat, ghost count: nat, out: array<Byte>, at: nat, offset: nat,
                    ghost c: seq<int>, ghost start: nat, ghost i: nat)
    returns (res: int)
    requires v.Valid() && IsTrail(v.fat, c) && file.firstCluster == c[0]
    requires i < count && at == BlockEnd(i, size) && offset == start + at && at + size <= out.Length
    requires offset < |c| * v.clusterBytes && offset + size <= |c| * v.clusterBytes
    requires ReadSoFar(LayoutOf(v), v.disk.Flat(), c, start, size, count, out[..at])
    modifies v.fatStream`pos, v.clusterStream`pos, out
    ensures res <= 0 && (res == 0 <==> BlockSucceeds(LayoutOf(v), |v.disk.sectors|, c, start, size, i))
    ensures res == 0 ==> ReadSoFar(LayoutOf(v), v.disk.Flat(), c, start, size, count, out[..at + size])
  {
    hide Flatten, TableAt, Delivers, SliceSafe, Succeeds;
    hide Contents, BlocksSafe, ReadSoFar, OnDisk, IsTrail, BlockEnd;
    ghost var done := out[..at];
    res := ReadInternal(v, out, at, file.firstCluster, offset, size, c);
    if res == 0 {
      assert out[..at] == done;
      assert out[..at + size] == done + out[at..at + size];
      ReadOneMore(LayoutOf(v), v.disk.Flat(), c, start, size, count, done, out[at..at + size], i);
    }
  }

  /** Where block `i` of a record-wise read starts, from the first one on. */
  ghost function BlockEnd(i: nat, size: nat): nat {
    i * size
  }

  lemma BlockEndZero(size: nat)
    ensures BlockEnd(0, size) == 0
  {
  }

  lemma BlockEndIs(i: nat, size: nat)
    ensures BlockEnd(i, size) == i * size
  {
  }

  lemma BlockStart(start: nat, i: nat, size: nat, count: nat, length: nat)
    requires i < count && start < length && start + count * size <= length
    ensures start + BlockEnd(i, size) < length && start + BlockEnd(i, size) + size <= length
    ensures BlockEnd(i, size) + size == BlockEnd(i + 1, size) <= count * size
  {
    MulAtMost(i + 1, count, size);
    assert (i + 1) * size == i * size + size;
    if size == 0 {
      assert i * size == 0;
    }
  }

  /** If every block is safe, the bytes read so far are the file's from `start` on. */
  ghost predicate ReadSoFar(l: Layout, flat: seq<Byte>, c: seq<int>, start: nat, size: nat, count: nat, done: seq<Byte>)
    requires l.clusterBytes > 0
  {
    OnDisk(l, flat, c) && BlocksSafe(l, c, start, size, count) ==>
      && start + |done| <= |Contents(l, flat, c)| == |c| * l.clusterBytes
      && done == Contents(l, flat, c)[start..start + |done|]
  }

  lemma ReadNothing(l: Layout, flat: seq<Byte>, c: seq<int>, start: nat, size: nat, count: nat)
    requires l.clusterBytes > 0 && start <= |c| * l.clusterBytes
    ensures ReadSoFar(l, flat, c, start, size, count, [])
  {
    if OnDisk(l, flat, c) {
      ContentsLength(l, flat, c);
    }
  }

  lemma ReadOneMore(l: Layout, flat: seq<Byte>, c: seq<int>, start: nat, size: nat, count: nat, done: seq<Byte>,
                    block: seq<Byte>, i: nat)
    requires l.clusterBytes > 0 && i < count && |done| == BlockEnd(i, size) && |block| == size
    requires start + |done| + |block| <= |c| * l.clusterBytes
    requires ReadSoFar(l, flat, c, start, size, count, done) && Delivers(l, flat, c, start + |done|, block)
    ensures ReadSoFar(l, flat, c, start, size, count, done + block)
  {
    hide SliceSafe, Delivers, Contents;
    if OnDisk(l, flat, c) && BlocksSafe(l, c, start, size, count) {
      assert SliceSafe(l, c, start + i * size, size);
      BlockEndIs(i, size);
      SliceExtends(l, flat, c, start, done, block);
    }
  }

  lemma ReadAll(l: Layout, flat: seq<Byte>, c: seq<int>, start: nat, size: nat, count: nat, done: seq<Byte>)
    requires l.clusterBytes > 0 && ReadSoFar(l, flat, c, start, size, count, done)
    ensures OnDisk(l, flat, c) && BlocksSafe(l, c, start, size, count) ==>
      && start + |done| <= |Contents(l, flat, c)| == |c| * l.clusterBytes
      && done == Contents(l, flat, c)[start..start + |done|]
  {
  }
}
