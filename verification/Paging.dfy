/**
 Physical memory with its heap, and the paging code that builds, edits and
 frees address spaces in it.
 */
module Paging {
  import opened Status
  import opened Bytes
  import opened KernelHeap
  import opened PageTables

  /** Blocks no run covers. */
  ghost function FreeBlocks(runs: map<int, int>, total: nat): set<int> {
    set i | 0 <= i < total && !InRun(runs, i)
  }

  /** Every page is a one-block run of its own, for a heap whose block 0 is page `base`. */
  ghost predicate OwnsPages(runs: map<int, int>, base: int, pages: set<int>) {
    forall p :: p in pages ==> p - base in runs && runs[p - base] == 1
  }

  /** `after` is `runs` with a new one-block run at each of the pages. */
  ghost predicate Added(runs: map<int, int>, after: map<int, int>, base: int, pages: set<int>) {
    && (forall b :: b in after <==> b in runs || b + base in pages)
    && (forall b :: b in runs ==> b + base !in pages && after[b] == runs[b])
    && OwnsPages(after, base, pages)
  }

  /** `after` is `runs` without the runs at the pages. */
  ghost predicate Removed(runs: map<int, int>, after: map<int, int>, base: int, pages: set<int>) {
    && (forall b :: b in after <==> b in runs && b + base !in pages)
    && (forall b :: b in after ==> after[b] == runs[b])
  }

  lemma AddOne(runs: map<int, int>, mid: map<int, int>, base: int, pages: set<int>, page: int)
    requires Added(runs, mid, base, pages) && page - base !in mid
    ensures Added(runs, mid[page - base := 1], base, pages + {page})
  {
    assert page !in pages;
    forall b | b in runs
      ensures b + base != page
    {
      assert b in mid;
    }
    var after := mid[page - base := 1];
    forall b
      ensures b in after <==> b in runs || b + base in pages + {page}
    {
      assert b in after <==> b in mid || b == page - base;
    }
  }

  lemma RemoveOne(runs: map<int, int>, mid: map<int, int>, base: int, pages: set<int>, page: int)
    requires Removed(runs, mid, base, pages)
    ensures Removed(runs, mid - {page - base}, base, pages + {page})
  {
    var after := mid - {page - base};
    forall b
      ensures b in after <==> b in runs && b + base !in pages + {page}
    {
      assert b in after <==> b in mid && b != page - base;
    }
  }

  lemma StillOwned(runs: map<int, int>, now: map<int, int>, base: int, all: set<int>, freed: set<int>, page: int)
    requires OwnsPages(runs, base, all) && Removed(runs, now, base, freed) && page in all && page !in freed
    ensures page - base in now
  {
  }

  lemma BlockOfPage(saddr: nat, page: int)
    requires saddr % BLOCK_SIZE == 0 && saddr / PAGE_SIZE <= page
    ensures saddr <= PAGE_SIZE * page && (PAGE_SIZE * page - saddr) / BLOCK_SIZE == page - saddr / PAGE_SIZE
  {
  }

  lemma RemovedNone(runs: map<int, int>, base: int)
    ensures Removed(runs, runs, base, {})
  {
  }

  /** Removing what was added restores the runs. */
  lemma RemoveUndoesAdd(runs: map<int, int>, mid: map<int, int>, after: map<int, int>, base: int, pages: set<int>)
    requires Added(runs, mid, base, pages) && Removed(mid, after, base, pages)
    ensures after == runs
  {
    forall b
      ensures b in after <==> b in runs
      ensures b in after ==> after[b] == runs[b]
    {
      assert b in mid <==> b in runs || b + base in pages;
    }
  }

  lemma FreeAfterTaking(runs: map<int, int>, total: nat, s: int)
    requires 0 <= s < total && s in FreeBlocks(runs, total) && s !in runs
    ensures FreeBlocks(runs[s := 1], total) == FreeBlocks(runs, total) - {s}
    ensures |FreeBlocks(runs[s := 1], total)| == |FreeBlocks(runs, total)| - 1
  {
    var after := runs[s := 1];
    forall i | 0 <= i < total
      ensures InRun(after, i) <==> InRun(runs, i) || i == s
    {
      if InRun(runs, i) {
        var r :| r in runs && r <= i < r + runs[r];
        assert r in after && after[r] == runs[r];
      }
      if i == s {
        assert s in after;
      }
    }
    assert FreeBlocks(after, total) == FreeBlocks(runs, total) - {s};
  }

  /** The blocks of a run. */
  ghost function Interval(s: int, n: nat): (r: set<int>)
    ensures |r| == n && forall i :: i in r <==> s <= i < s + n
  {
    if n == 0 then {} else Interval(s, n - 1) + {s + n - 1}
  }

  /** Taking a run of `n` free blocks leaves that many fewer. */
  lemma FreeAfterRun(runs: map<int, int>, total: nat, s: int, n: nat)
    requires 0 <= s && s + n <= total && s !in runs && RunsApart(runs[s := n]) && n >= 1
    requires forall r :: r in runs ==> runs[r] >= 1
    ensures |FreeBlocks(runs[s := n], total)| == |FreeBlocks(runs, total)| - n
  {
    var after, taken := runs[s := n], Interval(s, n);
    forall i | 0 <= i < total
      ensures InRun(after, i) <==> InRun(runs, i) || i in taken
      ensures i in taken ==> !InRun(runs, i)
    {
      assert s in after && after[s] == n;
      if InRun(runs, i) {
        var r :| r in runs && r <= i < r + runs[r];
        assert r in after && after[r] == runs[r];
      }
    }
    assert FreeBlocks(after, total) == FreeBlocks(runs, total) - taken;
    assert taken <= FreeBlocks(runs, total);
  }

  lemma FreeBlockFits(t: seq<bv8>, runs: map<int, int>, i: int)
    requires Partitioned(t, runs) && i in FreeBlocks(runs, |t|)
    ensures AllFree(t, i, 1) && Fits(t, 1)
  {
    FreeIffOutside(t, runs, i);
    assert AllFree(t, i, 1);
  }

  /** `after` is `mem` with the bytes of the range cleared. */
  ghost predicate ZeroedIn(mem: seq<Byte>, after: seq<Byte>, ptr: int, size: int)
    requires |mem| == UINT32 && |after| == UINT32
  {
    forall a :: 0 <= a < UINT32 ==> after[a] == if ptr <= a < ptr + size then 0 else mem[a]
  }

  /** `flags | IS_WRITEABLE` */
  function OrWriteable(flags: nat): (r: nat)
    requires flags < 256
    ensures flags <= r < 256 && r / 2 % 2 == 1
  {
    if flags / 2 % 2 == 1 then flags else flags + IS_WRITEABLE
  }

  function AlignAddress(ptr: nat): nat {
    if ptr % PAGE_SIZE != 0 then ptr + PAGE_SIZE - ptr % PAGE_SIZE else ptr
  }

  datatype Mapping = Mapping(virt: nat, phys: nat, physEnd: nat, flags: nat) {
    predicate InRange() {
      virt < UINT32 && phys < UINT32 && physEnd < UINT32 && flags < PAGE_SIZE
    }
  }

  class Machine {
    const heap: Heap
    var mem: seq<Byte>

    constructor (heap: Heap, mem: seq<Byte>)
      requires heap.Valid() && |mem| == UINT32
      ensures Valid() && this.heap == heap && this.mem == mem
    {
      this.heap, this.mem := heap, mem;
    }

    /** Page number of the heap's first block. */
    ghost const base: int := heap.saddr / PAGE_SIZE

    ghost predicate Valid()
      reads this, heap, heap.entries
    {
      heap.Valid() && |mem| == UINT32
    }

    ghost function FreeCount(): nat
      reads heap, heap.entries
    {
      |FreeBlocks(heap.runs, heap.entries.Length)|
    }

    /** Counts the free blocks. */
    method CountFree() returns (n: nat)
      requires Valid()
      ensures n == FreeCount()
    {
      hide Partitioned;
      n := 0;
      for i := 0 to heap.entries.Length
        invariant n == |FreeBlocks(heap.runs, i)|
      {
        FreeIffOutside(heap.entries[..], heap.runs, i);
        assert FreeBlocks(heap.runs, i + 1) == FreeBlocks(heap.runs, i) + if InRun(heap.runs, i) then {} else {i};
        if EntryType(heap.entries[i]) == FREE {
          n := n + 1;
        }
      }
    }

    // -------------------------------------------------------- raw memory

    method ReadWord(p: int) returns (w: int)
      requires |mem| == UINT32 && 0 <= p && p + 4 <= UINT32
      ensures w == Word(mem, p) && 0 <= w < UINT32
    {
      return mem[p] as int + 0x100 * mem[p + 1] as int + 0x1_0000 * mem[p + 2] as int + 0x100_0000 * mem[p + 3] as int;
    }

    method Memset0(ptr: nat, size: nat)
      requires |mem| == UINT32 && ptr + size <= UINT32
      modifies this`mem
      ensures |mem| == UINT32 && ZeroedIn(old(mem), mem, ptr, size)
    {
      for i := 0 to size
        invariant |mem| == UINT32
        invariant forall a :: 0 <= a < UINT32 ==> mem[a] == if ptr <= a < ptr + i then 0 else old(mem)[a]
      {
        mem := mem[ptr + i := 0];
      }
    }

    /** A zeroed page of its own, when some block is free. */
    method ZallocPage(size: nat) returns (ptr: nat, ghost page: int)
      requires Valid() && 1 <= size <= PAGE_SIZE && FreeCount() > 0
      modifies this`mem, heap`runs, heap.entries
      ensures Valid() && ptr == PAGE_SIZE * page && base <= page < PAGES && 0 <= page
      ensures page - base in FreeBlocks(old(heap.runs), heap.entries.Length) && page - base !in old(heap.runs)
      ensures heap.runs == old(heap.runs)[page - base := 1]
      ensures FreeCount() == old(FreeCount()) - 1
      ensures SameOutside(old(mem), mem, {page})
    {
      hide Partitioned, AllFree, Fits, LastTaken, Taken;
      ghost var t, runs, total := heap.entries[..], heap.runs, heap.entries.Length;
      ghost var i :| i in FreeBlocks(runs, total);
      FreeBlockFits(t, runs, i);
      assert BlocksFor(size) == 1;
      ptr := heap.Malloc(size);
      ghost var s := heap.AddressToBlock(ptr);
      TakenIsFree(t, runs, s);
      FreeAfterTaking(runs, total, s);
      page := base + s;
      Memset0(ptr, size);
      assert forall a :: ptr <= a < ptr + size ==> a / PAGE_SIZE == page;
    }

    /** `kzalloc`: a fresh zeroed run, or 0 when the heap is full. */
    method Zalloc(size: nat) returns (ptr: nat)
      requires Valid() && 1 <= size <= UINT32 - BLOCK_SIZE && heap.CanServe(BlocksFor(size))
      modifies this`mem, heap`runs, heap.entries
      ensures Valid()
      ensures ptr == 0 <==> !Fits(old(heap.entries[..]), BlocksFor(size))
      ensures ptr == 0 ==> mem == old(mem) && heap.runs == old(heap.runs) && heap.entries[..] == old(heap.entries[..])
      ensures ptr != 0 ==>
        var n, s := BlocksFor(size), ptr / PAGE_SIZE - base;
        && ptr % PAGE_SIZE == 0 && 0 <= s && s + n <= heap.entries.Length && s !in old(heap.runs)
        && AllFree(old(heap.entries[..]), s, n)
        && heap.runs == old(heap.runs)[s := n] && heap.entries[..] == Taken(old(heap.entries[..]), s, n)
      ensures ptr != 0 ==> ptr + size <= UINT32 && ZeroedIn(old(mem), mem, ptr, size)
    {
      hide Partitioned, Fits, LastTaken, Taken, FreeBlocks;
      BlocksHold(size);
      ghost var t := heap.entries[..];
      ptr := heap.Malloc(size);
      if ptr == 0 {
        return;
      }
      Memset0(ptr, size);
    }

    // ---------------------------------------------------- editing entries

    method PagingSet(dir: nat, virt: nat, val: int, ghost sp: Space) returns (res: int)
      requires SpaceIn(mem, sp) && dir == PAGE_SIZE * sp.dir
      requires virt < UINT32 && 0 <= val < UINT32
      modifies this`mem
      ensures res == if virt % PAGE_SIZE == 0 then 0 else -EINVARG
      ensures mem == if virt % PAGE_SIZE == 0 then PutEntry(old(mem), sp, virt / PAGE_SIZE, val) else old(mem)
    {
      hide Word, PutWord;
      if virt % PAGE_SIZE != 0 {
        return -EINVARG;
      }
      var directoryIndex := virt / (ENTRIES * PAGE_SIZE);
      var tableIndex := virt % (ENTRIES * PAGE_SIZE) / PAGE_SIZE;
      IndexSplit(virt);
      var entry := ReadWord(dir + 4 * directoryIndex);
      assert entry == PageWord(mem, sp.dir, directoryIndex);
      var table := PageMask(entry);
      assert table == PAGE_SIZE * sp.tables[directoryIndex];
      mem := PutWord(mem, table + 4 * tableIndex, val);
      return 0;
    }

    /** An unaligned address leaves both indexes 0: the entry of page 0 is read. */
    method PagingGet(dir: nat, virt: nat, ghost sp: Space) returns (val: int)
      requires SpaceIn(mem, sp) && dir == PAGE_SIZE * sp.dir && virt < UINT32
      ensures val == Entry(mem, sp, if virt % PAGE_SIZE == 0 then virt / PAGE_SIZE else 0)
      ensures 0 <= val < UINT32
    {
      hide Word;
      var directoryIndex, tableIndex := 0, 0;
      if virt % PAGE_SIZE == 0 {
        directoryIndex := virt / (ENTRIES * PAGE_SIZE);
        tableIndex := virt % (ENTRIES * PAGE_SIZE) / PAGE_SIZE;
        IndexSplit(virt);
      }
      var entry := ReadWord(dir + 4 * directoryIndex);
      assert entry == PageWord(mem, sp.dir, directoryIndex);
      var table := PageMask(entry);
      assert table == PAGE_SIZE * sp.tables[directoryIndex];
      val := ReadWord(table + 4 * tableIndex);
    }

    method GetPhysicalAddress(dir: nat, virt: nat, ghost sp: Space) returns (phys: int)
      requires SpaceIn(mem, sp) && dir == PAGE_SIZE * sp.dir && virt < UINT32
      ensures phys == Translate(mem, sp, virt)
    {
      hide Word;
      var lower := virt - virt % PAGE_SIZE;
      var difference := virt - lower;
      var entry := PagingGet(dir, lower, sp);
      return PageMask(entry) + difference;
    }

    // -------------------------------------------------------- mapping

    method Map(dir: nat, virt: nat, phys: nat, flags: nat, ghost sp: Space) returns (res: int)
      requires SpaceIn(mem, sp) && dir == PAGE_SIZE * sp.dir
      requires virt < UINT32 && phys < UINT32 && flags < PAGE_SIZE
      modifies this`mem
      ensures var ok := virt % PAGE_SIZE == 0 && phys % PAGE_SIZE == 0;
        && res == (if ok then 0 else -EINVARG)
        && mem == if ok then PutEntry(old(mem), sp, virt / PAGE_SIZE, phys + flags) else old(mem)
    {
      hide SpaceIn, PutEntry;
      SpaceSize(mem, sp);
      if virt % PAGE_SIZE != 0 || phys % PAGE_SIZE != 0 {
        return -EINVARG;
      }
      EntryInRange(phys, flags);
      res := PagingSet(dir, virt, WithFlags(phys, flags), sp);
    }

    /** Maps `count` pages one by one; addresses wrap at 4 GB. Unaligned ones are
        refused at the first page. */
    method MapRange(dir: nat, virt: nat, phys: nat, count: nat, flags: nat, ghost sp: Space) returns (res: int)
      requires SpaceIn(mem, sp) && dir == PAGE_SIZE * sp.dir
      requires virt < UINT32 && phys < UINT32 && count <= PAGES && flags < PAGE_SIZE
      modifies this`mem
      ensures SpaceIn(mem, sp)
      ensures var ok := count == 0 || (virt % PAGE_SIZE == 0 && phys % PAGE_SIZE == 0);
        && res == (if ok then 0 else -EINVARG)
        && if ok then Remapped(old(mem), mem, sp, virt / PAGE_SIZE, phys / PAGE_SIZE, count, flags) else mem == old(mem)
    {
      hide Remapped, PutEntry, Entry, SpaceIn, PageAt;
      SpaceSize(mem, sp);
      res := 0;
      ghost var vpage, ppage := virt / PAGE_SIZE, phys / PAGE_SIZE;
      ghost var ok := virt % PAGE_SIZE == 0 && phys % PAGE_SIZE == 0;
      var v, p := virt, phys;
      RemappedNothing(mem, sp, vpage, ppage, flags);
      FirstPage(virt);
      FirstPage(phys);
      for i := 0 to count
        invariant res == 0 && (i > 0 ==> ok) && SpaceIn(mem, sp) && 0 <= v < UINT32 && 0 <= p < UINT32
        invariant ok ==> v == PageAt(vpage, i) && p == PageAt(ppage, i)
        invariant i == 0 ==> v == virt && p == phys && mem == old(mem)
        invariant Remapped(old(mem), mem, sp, vpage, ppage, i, flags)
      {
        SpaceSize(mem, sp);
        ghost var before := mem;
        NextPage(vpage, i);
        NextPage(ppage, i);
        res := Map(dir, v, p, flags, sp);
        if res < 0 {
          break;
        }
        RemappedStep(old(mem), before, sp, vpage, ppage, i, flags, v / PAGE_SIZE, p + flags);
        RemappedSpace(old(mem), mem, sp, vpage, ppage, i + 1, flags);
        v := (v + PAGE_SIZE) % UINT32;
        p := (p + PAGE_SIZE) % UINT32;
      }
    }

    method MapTo(dir: nat, virt: nat, phys: nat, physEnd: nat, flags: nat, ghost sp: Space) returns (res: int)
      requires SpaceIn(mem, sp) && dir == PAGE_SIZE * sp.dir
      requires virt < UINT32 && phys < UINT32 && physEnd < UINT32 && flags < PAGE_SIZE
      modifies this`mem
      ensures SpaceIn(mem, sp)
      ensures var ok := virt % PAGE_SIZE == 0 && phys % PAGE_SIZE == 0 && physEnd % PAGE_SIZE == 0 && phys <= physEnd;
        && res == (if ok then 0 else -EINVARG)
        && (ok ==> Remapped(old(mem), mem, sp, virt / PAGE_SIZE, phys / PAGE_SIZE, (physEnd - phys) / PAGE_SIZE, flags))
        && (!ok ==> mem == old(mem))
    {
      hide Remapped, PutEntry, Entry;
      if virt % PAGE_SIZE != 0 {
        return -EINVARG;
      }
      if phys % PAGE_SIZE != 0 {
        return -EINVARG;
      }
      if physEnd % PAGE_SIZE != 0 {
        return -EINVARG;
      }
      if physEnd < phys {
        return -EINVARG;
      }
      var totalPages := (physEnd - phys) / PAGE_SIZE;
      res := MapRange(dir, virt, phys, totalPages, flags, sp);
      RemappedSpace(old(mem), mem, sp, virt / PAGE_SIZE, phys / PAGE_SIZE, totalPages, flags);
    }

    // ------------------------------------------------- building and freeing

    /** Fills one table with consecutive pages from `offset` on. */
    method FillTable(ghost t: int, entry: nat, offset: nat, flags: nat)
      requires |mem| == UINT32 && 0 <= t < PAGES && entry == PAGE_SIZE * t
      requires offset % PAGE_SIZE == 0 && offset + ENTRIES * PAGE_SIZE <= UINT32 && flags < 256
      modifies this`mem
      ensures |mem| == UINT32 && SameOutside(old(mem), mem, {t})
      ensures forall b :: 0 <= b < ENTRIES ==> PageWord(mem, t, b) == offset + PAGE_SIZE * b + flags
    {
      hide Word, PutWord, SameOutside;
      SameOutsideSelf(mem, {t});
      for b := 0 to ENTRIES
        invariant |mem| == UINT32 && SameOutside(old(mem), mem, {t})
        invariant forall k :: 0 <= k < b ==> PageWord(mem, t, k) == offset + PAGE_SIZE * k + flags
      {
        ghost var before := mem;
        var val := WithFlags(offset + b * PAGE_SIZE, flags);
        mem := PutWord(mem, entry + 4 * b, val);
        assert mem == PutPageWord(before, t, b, val);
        PutStaysInPage(before, t, b, val);
        SameOutsideTrans(old(mem), before, mem, {t}, {t});
        forall k | 0 <= k <= b
          ensures PageWord(mem, t, k) == offset + PAGE_SIZE * k + flags
        {
          PageWordOfPut(before, t, b, val, t, k);
        }
      }
    }

    /** One round of the build: a fresh table, filled, and its directory entry. */
    method AddTable(directory: nat, i: nat, flags: nat,
                    ghost sp: Space, ghost start: seq<Byte>, ghost runs: map<int, int>)
      returns (ghost t: int)
      requires Valid() && i < ENTRIES && flags < 256 && FreeCount() > 0
      requires directory == PAGE_SIZE * sp.dir && |sp.tables| == i
      requires Building(start, mem, base, runs, heap.runs, sp, flags)
      modifies this`mem, heap`runs, heap.entries
      ensures Valid() && FreeCount() == old(FreeCount()) - 1
      ensures Building(start, mem, base, runs, heap.runs, sp.(tables := sp.tables + [t]), flags)
    {
      hide Word, PutWord, SameOutside, Added, PageWord, FreeBlocks, Building, OrWriteable;
      ghost var m0 := mem;
      BuildingBounds(start, mem, base, runs, heap.runs, sp, flags);
      var entry;
      entry, t := ZallocPage(PAGE_SIZE);
      ghost var m1 := mem;
      TableOffset(i);
      var offset := (i * (ENTRIES * PAGE_SIZE)) % UINT32;
      FillTable(t, entry, offset, flags);
      ghost var m2 := mem;
      var val := WithFlags(entry, OrWriteable(flags));
      mem := PutWord(mem, directory + 4 * i, val);
      assert mem == PutPageWord(m2, sp.dir, i, val);
      BuildingStep(start, m0, m1, m2, base, runs, old(heap.runs), sp, flags, t, val);
    }

    /** A fresh address space: 1026 new blocks, and every address translates to
        itself with the given flags. */
    method New4gb(flags: nat) returns (chunk: nat, ghost sp: Space)
      requires Valid() && flags < 256 && FreeCount() >= ENTRIES + 2
      modifies this`mem, heap`runs, heap.entries
      ensures Valid() && SpaceIn(mem, sp) && chunk == PAGE_SIZE * sp.chunk
      ensures forall p :: p in sp.Pages() ==> base <= p
      ensures Added(old(heap.runs), heap.runs, base, sp.Pages())
      ensures |sp.Pages()| == ENTRIES + 2 && FreeCount() == old(FreeCount()) - (ENTRIES + 2)
      ensures forall a :: 0 <= a < UINT32 ==> Translate(mem, sp, a) == a && FlagsOf(mem, sp, a) == flags
      ensures forall d :: 0 <= d < ENTRIES ==>
        PageWord(mem, sp.dir, d) % PAGE_SIZE == if flags / 2 % 2 == 1 then flags else flags + 2
      ensures SameOutside(old(mem), mem, sp.Pages())
    {
      hide Word, PutWord, SameOutside, Added, PageWord, FreeBlocks;
      ghost var start, runs := mem, heap.runs;
      var directory;
      ghost var dir;
      directory, dir := ZallocPage(4 * ENTRIES);
      sp := Space(-1, dir, []);
      BuildingStart(start, mem, base, runs, sp, flags);
      for i := 0 to ENTRIES
        invariant Valid() && FreeCount() == old(FreeCount()) - 1 - i
        invariant directory == PAGE_SIZE * sp.dir && |sp.tables| == i
        invariant Building(start, mem, base, runs, heap.runs, sp, flags)
      {
        var t := AddTable(directory, i, flags, sp, start, runs);
        sp := sp.(tables := sp.tables + [t]);
      }
      ghost var m0, r0 := mem, heap.runs;
      ghost var page;
      chunk, page := ZallocPage(4);
      ghost var m1 := mem;
      mem := PutWord(mem, chunk, directory);
      assert mem == PutPageWord(m1, page, 0, directory);
      sp := BuildingEnd(start, m0, m1, base, runs, r0, sp, flags, page);
    }

    /** Frees one page of the space. */
    method FreePage(ptr: nat, ghost page: int, ghost runs: map<int, int>, ghost freed: set<int>, ghost all: set<int>)
      requires Valid() && ptr == PAGE_SIZE * page && base <= page && page in all && page !in freed
      requires OwnsPages(runs, base, all) && Removed(runs, heap.runs, base, freed)
      modifies heap`runs, heap.entries
      ensures Valid() && Removed(runs, heap.runs, base, freed + {page})
    {
      hide Partitioned, Freed, OwnsPages, Removed;
      StillOwned(runs, heap.runs, base, all, freed, page);
      RemoveOne(runs, heap.runs, base, freed, page);
      BlockOfPage(heap.saddr, page);
      heap.Free(ptr);
    }

    /** Frees the tables found through the masked directory entries, then the
        directory and the chunk: exactly the space's blocks become free. */
    method Free4gb(chunk: nat, ghost sp: Space)
      requires Valid() && SpaceIn(mem, sp) && chunk == PAGE_SIZE * sp.chunk
      requires OwnsPages(heap.runs, base, sp.Pages()) && forall p :: p in sp.Pages() ==> base <= p
      modifies heap`runs, heap.entries
      ensures Valid()
      ensures Removed(old(heap.runs), heap.runs, base, sp.Pages())
    {
      hide Word, Partitioned, OwnsPages, Removed;
      ghost var runs, all := heap.runs, sp.Pages();
      RemovedNone(runs, base);
      var directory := ReadWord(chunk);
      assert directory == PageWord(mem, sp.chunk, 0);
      ghost var freed: set<int> := {};
      for i := 0 to ENTRIES
        invariant Valid() && Removed(runs, heap.runs, base, freed)
        invariant freed == set t | t in sp.tables[..i]
      {
        var entry := ReadWord(directory + 4 * i);
        assert entry == PageWord(mem, sp.dir, i);
        var table := PageMask(entry);
        ghost var t := sp.tables[i];
        assert table == PAGE_SIZE * t && t in all && t !in freed;
        FreePage(table, t, runs, freed, all);
        assert sp.tables[..i + 1] == sp.tables[..i] + [t];
        freed := freed + {t};
      }
      assert sp.tables[..ENTRIES] == sp.tables;
      FreePage(directory, sp.dir, runs, freed, all);
      FreePage(chunk, sp.chunk, runs, freed + {sp.dir}, all);
      assert freed + {sp.dir} + {sp.chunk} == all;
    }

    /** Any sequence of mappings, one after the other; `mems` is memory after each.
        The space's pages stay in place. */
    method ApplyMappings(dir: nat, mappings: seq<Mapping>, ghost sp: Space) returns (ghost mems: seq<seq<Byte>>)
      requires SpaceIn(mem, sp) && dir == PAGE_SIZE * sp.dir
      requires forall i :: 0 <= i < |mappings| ==> mappings[i].InRange()
      modifies this`mem
      ensures SpaceIn(mem, sp) && MappedThrough(mems, sp, mappings) && mems[0] == old(mem) && mems[|mappings|] == mem
    {
      hide SpaceIn, Remapped, MapsTo;
      mems := [mem];
      for i := 0 to |mappings|
        invariant SpaceIn(mem, sp) && |mems| == i + 1 && mems[0] == old(mem) && mems[i] == mem
        invariant forall k :: 0 <= k < i ==> MapsTo(mems[k], mems[k + 1], sp, mappings[k])
      {
        var m := mappings[i];
        SpaceSize(mem, sp);
        ghost var before := mem;
        var _ := MapTo(dir, m.virt, m.phys, m.physEnd, m.flags, sp);
        IsMapping(before, mem, sp, m);
        mems := mems + [mem];
      }
    }

    /** Build an address space, apply any mappings, free it: the heap table is
        exactly what it was. */
    method Lifecycle(flags: nat, mappings: seq<Mapping>) returns (ghost sp: Space, ghost mems: seq<seq<Byte>>)
      requires Valid() && flags < 256 && FreeCount() >= ENTRIES + 2
      requires forall i :: 0 <= i < |mappings| ==> mappings[i].InRange()
      modifies this`mem, heap`runs, heap.entries
      ensures Valid()
      ensures heap.runs == old(heap.runs) && heap.entries[..] == old(heap.entries[..])
      ensures MappedThrough(mems, sp, mappings) && mem == mems[|mappings|] && SpaceIn(mems[0], sp)
      ensures forall a :: 0 <= a < UINT32 ==> Translate(mems[0], sp, a) == a && FlagsOf(mems[0], sp, a) == flags
    {
      hide MapsTo, SpaceIn, MappedThrough;
      hide Partitioned, Remapped, FreeBlocks, Translate, FlagsOf, SameOutside, Added, Removed, OwnsPages, Word;
      ghost var t, runs := heap.entries[..], heap.runs;
      var chunk;
      chunk, sp := New4gb(flags);
      SpaceRoot(mem, sp);
      ghost var mid := heap.runs;
      var dir := ReadWord(chunk);
      assert dir == PageWord(mem, sp.chunk, 0);
      mems := ApplyMappings(dir, mappings, sp);
      SpaceRoot(mem, sp);
      AddedOwns(runs, mid, base, sp.Pages());
      Free4gb(chunk, sp);
      RemoveUndoesAdd(runs, mid, heap.runs, base, sp.Pages());
      TableDetermined(t, heap.entries[..], runs);
    }
  }

  /** `after` is `mem` with one mapping done: the pages of the physical range mapped
      from the virtual address on, or nothing if it is refused. */
  ghost predicate MapsTo(mem: seq<Byte>, after: seq<Byte>, sp: Space, m: Mapping) {
    && |mem| == UINT32 && sp.Distinct()
    && if m.virt % PAGE_SIZE == 0 && m.phys % PAGE_SIZE == 0 && m.physEnd % PAGE_SIZE == 0 && m.phys <= m.physEnd
       then Remapped(mem, after, sp, m.virt / PAGE_SIZE, m.phys / PAGE_SIZE, (m.physEnd - m.phys) / PAGE_SIZE, m.flags)
       else after == mem
  }

  lemma IsMapping(mem: seq<Byte>, after: seq<Byte>, sp: Space, m: Mapping)
    requires |mem| == UINT32 && sp.Distinct()
    requires if m.virt % PAGE_SIZE == 0 && m.phys % PAGE_SIZE == 0 && m.physEnd % PAGE_SIZE == 0 && m.phys <= m.physEnd
      then Remapped(mem, after, sp, m.virt / PAGE_SIZE, m.phys / PAGE_SIZE, (m.physEnd - m.phys) / PAGE_SIZE, m.flags)
      else after == mem
    ensures MapsTo(mem, after, sp, m)
  {
  }

  /** Memory after each of the mappings in turn. */
  ghost predicate MappedThrough(mems: seq<seq<Byte>>, sp: Space, mappings: seq<Mapping>) {
    |mems| == |mappings| + 1 && forall k :: 0 <= k < |mappings| ==> MapsTo(mems[k], mems[k + 1], sp, mappings[k])
  }

  lemma SpaceRoot(mem: seq<Byte>, sp: Space)
    requires SpaceIn(mem, sp)
    ensures |mem| == UINT32 && sp.Distinct() && PageWord(mem, sp.chunk, 0) == PAGE_SIZE * sp.dir
  {
  }

  /** The blocks for a size hold it, with less than one block to spare. */
  lemma BlocksHold(size: nat)
    requires 1 <= size <= UINT32 - BLOCK_SIZE
    ensures BlocksFor(size) >= 1 && size <= BLOCK_SIZE * BlocksFor(size) < size + BLOCK_SIZE
  {
  }

  lemma TakenIsFree(t: seq<bv8>, runs: map<int, int>, s: int)
    requires Partitioned(t, runs) && AllFree(t, s, 1)
    ensures s in FreeBlocks(runs, |t|)
  {
    FreeIffOutside(t, runs, s);
  }

  /** The index split of an aligned address is the split of its page number. */
  lemma IndexSplit(virt: nat)
    requires virt < UINT32 && virt % PAGE_SIZE == 0
    ensures var d, i := virt / (ENTRIES * PAGE_SIZE), virt % (ENTRIES * PAGE_SIZE) / PAGE_SIZE;
      && 0 <= d < ENTRIES && 0 <= i < ENTRIES
      && d == virt / PAGE_SIZE / ENTRIES && i == virt / PAGE_SIZE % ENTRIES
  {
    var q := virt / PAGE_SIZE;
    assert virt == PAGE_SIZE * q;
    assert q == ENTRIES * (q / ENTRIES) + q % ENTRIES;
    assert virt == (ENTRIES * PAGE_SIZE) * (q / ENTRIES) + PAGE_SIZE * (q % ENTRIES);
  }

  /** A page-aligned address with flags is a 32-bit entry. */
  lemma EntryInRange(phys: nat, flags: nat)
    requires phys % PAGE_SIZE == 0 && phys < UINT32 && flags < PAGE_SIZE
    ensures phys + flags < UINT32
  {
  }

  /** The address of page `page + i`, wrapping at 4 GB. */
  ghost function PageAt(page: int, i: int): int {
    PAGE_SIZE * ((page + i) % PAGES)
  }

  lemma FirstPage(address: nat)
    requires address < UINT32
    ensures address % PAGE_SIZE == 0 ==> PageAt(address / PAGE_SIZE, 0) == address
  {
  }

  lemma NextPage(page: int, i: int)
    ensures PageAt(page, i) == PAGE_SIZE * ((page + i) % PAGES) && PageAt(page, i) / PAGE_SIZE == (page + i) % PAGES
    ensures PageAt(page, i) % PAGE_SIZE == 0
    ensures (PageAt(page, i) + PAGE_SIZE) % UINT32 == PageAt(page, i + 1)
  {
    var q := (page + i) % PAGES;
    assert (page + i + 1) % PAGES == if q + 1 < PAGES then q + 1 else 0;
  }

  lemma RemappedSpace(mem: seq<Byte>, after: seq<Byte>, sp: Space, vpage: int, ppage: int, count: int, flags: int)
    requires |mem| == UINT32 && sp.Distinct() && Remapped(mem, after, sp, vpage, ppage, count, flags)
    ensures SpaceIn(after, sp)
  {
  }

  lemma SameOutsideSelf(mem: seq<Byte>, pages: set<int>)
    ensures SameOutside(mem, mem, pages)
  {
  }

  lemma SpaceSize(mem: seq<Byte>, sp: Space)
    requires SpaceIn(mem, sp)
    ensures |mem| == UINT32 && sp.Distinct()
  {
  }

  lemma AddedOwns(runs: map<int, int>, after: map<int, int>, base: int, pages: set<int>)
    requires Added(runs, after, base, pages)
    ensures OwnsPages(after, base, pages)
  {
  }

  // ------------------------------------------------- the build's invariant

  /** After some rounds: `sp.tables` are distinct fresh pages apart from the
      directory, filled with identity entries and entered in the directory. */
  ghost predicate Building(start: seq<Byte>, mem: seq<Byte>, base: int, runs: map<int, int>, now: map<int, int>,
                           sp: Space, flags: nat) {
    && |start| == UINT32 && |mem| == UINT32 && flags < 256
    && |sp.tables| <= ENTRIES
    && base <= sp.dir && 0 <= sp.dir < PAGES && sp.dir !in sp.tables
    && (forall d :: 0 <= d < |sp.tables| ==> base <= sp.tables[d] && 0 <= sp.tables[d] < PAGES)
    && (forall d, e :: 0 <= d < e < |sp.tables| ==> sp.tables[d] != sp.tables[e])
    && Added(runs, now, base, sp.TablePages() + {sp.dir})
    && SameOutside(start, mem, sp.TablePages() + {sp.dir})
    && (forall d :: 0 <= d < |sp.tables| ==> PageWord(mem, sp.dir, d) == PAGE_SIZE * sp.tables[d] + OrWriteable(flags))
    && (forall d, b :: 0 <= d < |sp.tables| && 0 <= b < ENTRIES ==>
          PageWord(mem, sp.tables[d], b) == PAGE_SIZE * (ENTRIES * d + b) + flags)
  }

  lemma BuildingStart(start: seq<Byte>, mem: seq<Byte>, base: int, runs: map<int, int>, sp: Space, flags: nat)
    requires |start| == UINT32 && SameOutside(start, mem, {sp.dir}) && flags < 256
    requires sp.tables == [] && base <= sp.dir && 0 <= sp.dir < PAGES && sp.dir - base !in runs
    ensures Building(start, mem, base, runs, runs[sp.dir - base := 1], sp, flags)
  {
    assert Added(runs, runs, base, {});
    AddOne(runs, runs, base, {}, sp.dir);
    assert sp.TablePages() + {sp.dir} == {} + {sp.dir} == {sp.dir};
  }

  /** A page that is no run yet is none of the pages built so far. */
  lemma FreshPage(runs: map<int, int>, now: map<int, int>, base: int, pages: set<int>, t: int)
    requires Added(runs, now, base, pages) && t - base !in now
    ensures t !in pages
  {
  }

  lemma BuildingStep(start: seq<Byte>, m0: seq<Byte>, m1: seq<Byte>, m2: seq<Byte>, base: int, runs: map<int, int>,
                     now: map<int, int>, sp: Space, flags: nat, t: int, val: int)
    requires Building(start, m0, base, runs, now, sp, flags) && |sp.tables| < ENTRIES
    requires base <= t && 0 <= t < PAGES && t - base !in now
    requires SameOutside(m0, m1, {t}) && SameOutside(m1, m2, {t}) && |m2| == UINT32
    requires forall b :: 0 <= b < ENTRIES ==> PageWord(m2, t, b) == PAGE_SIZE * (ENTRIES * |sp.tables| + b) + flags
    requires 0 <= val < UINT32 && val == PAGE_SIZE * t + OrWriteable(flags)
    ensures Building(start, PutPageWord(m2, sp.dir, |sp.tables|, val), base, runs, now[t - base := 1],
                     sp.(tables := sp.tables + [t]), flags)
  {
    hide PageWord, PutPageWord, SameOutside, Added;
    var i, next := |sp.tables|, sp.(tables := sp.tables + [t]);
    var pages := sp.TablePages() + {sp.dir};
    var m3 := PutPageWord(m2, sp.dir, i, val);
    FreshPage(runs, now, base, pages, t);
    AddOne(runs, now, base, pages, t);
    assert next.TablePages() + {next.dir} == pages + {t};
    SameOutsideTrans(m0, m1, m2, {t}, {t});
    PutStaysInPage(m2, sp.dir, i, val);
    JoinFrames(start, m0, m2, m3, pages, t, sp.dir);
    forall d | 0 <= d <= i
      ensures PageWord(m3, sp.dir, d) == PAGE_SIZE * next.tables[d] + OrWriteable(flags)
    {
      PageWordOfPut(m2, sp.dir, i, val, sp.dir, d);
      if d < i {
        PageWordFrame(m0, m2, {t}, sp.dir, d);
      }
    }
    forall d, b | 0 <= d <= i && 0 <= b < ENTRIES
      ensures PageWord(m3, next.tables[d], b) == PAGE_SIZE * (ENTRIES * d + b) + flags
    {
      PageWordOfPut(m2, sp.dir, i, val, next.tables[d], b);
      if d < i {
        assert sp.tables[d] in pages;
        PageWordFrame(m0, m2, {t}, sp.tables[d], b);
      }
    }
  }

  /** The running offset never wraps before the last table is filled. */
  lemma TableOffset(i: nat)
    requires i < ENTRIES
    ensures (i * (ENTRIES * PAGE_SIZE)) % UINT32 == PAGE_SIZE * (ENTRIES * i)
    ensures PAGE_SIZE * (ENTRIES * i) + ENTRIES * PAGE_SIZE <= UINT32
  {
  }

  lemma BuildingBounds(start: seq<Byte>, mem: seq<Byte>, base: int, runs: map<int, int>, now: map<int, int>,
                       sp: Space, flags: nat)
    requires Building(start, mem, base, runs, now, sp, flags)
    ensures 0 <= sp.dir < PAGES && |mem| == UINT32
  {
  }

  lemma JoinFrames(start: seq<Byte>, m0: seq<Byte>, m2: seq<Byte>, m3: seq<Byte>, pages: set<int>, t: int, dir: int)
    requires SameOutside(start, m0, pages) && SameOutside(m0, m2, {t}) && SameOutside(m2, m3, {dir}) && dir in pages
    ensures SameOutside(start, m3, pages + {t})
  {
  }

  lemma {:induction false} DistinctCount(s: seq<int>)
    requires forall d, e :: 0 <= d < e < |s| ==> s[d] != s[e]
    ensures |set t | t in s| == |s|
  {
    var all := set t | t in s;
    if s != [] {
      var rest := s[..|s| - 1];
      var last := s[|s| - 1];
      DistinctCount(rest);
      assert s == rest + [last] && last !in rest;
      assert all == (set t | t in rest) + {last};
    }
  }

  lemma BuildingEnd(start: seq<Byte>, m0: seq<Byte>, m1: seq<Byte>, base: int, runs: map<int, int>,
                    now: map<int, int>, sp: Space, flags: nat, page: int) returns (done: Space)
    requires Building(start, m0, base, runs, now, sp, flags) && |sp.tables| == ENTRIES
    requires base <= page && 0 <= page < PAGES && page - base !in now && SameOutside(m0, m1, {page})
    requires |m1| == UINT32
    ensures done == sp.(chunk := page)
    ensures var mem := PutPageWord(m1, page, 0, PAGE_SIZE * sp.dir);
      && SpaceIn(mem, done) && SameOutside(start, mem, done.Pages())
      && (forall d :: 0 <= d < ENTRIES ==> PageWord(mem, done.dir, d) % PAGE_SIZE == OrWriteable(flags))
      && (forall a :: 0 <= a < UINT32 ==> Translate(mem, done, a) == a && FlagsOf(mem, done, a) == flags)
    ensures Added(runs, now[page - base := 1], base, done.Pages()) && |done.Pages()| == ENTRIES + 2
    ensures forall p :: p in done.Pages() ==> base <= p
  {
    hide *;
    done := sp.(chunk := page);
    BuildingEndRuns(start, m0, base, runs, now, sp, flags, page);
    BuildingEndSpace(start, m0, m1, base, runs, now, sp, flags, page);
  }

  lemma BuildingEndRuns(start: seq<Byte>, m0: seq<Byte>, base: int, runs: map<int, int>, now: map<int, int>,
                        sp: Space, flags: nat, page: int)
    requires Building(start, m0, base, runs, now, sp, flags) && |sp.tables| == ENTRIES
    requires base <= page && 0 <= page < PAGES && page - base !in now
    ensures var done := sp.(chunk := page);
      && done.Distinct() && |done.Pages()| == ENTRIES + 2
      && Added(runs, now[page - base := 1], base, done.Pages())
      && forall p :: p in done.Pages() ==> base <= p
  {
    hide PageWord, SameOutside, Added;
    var done, pages := sp.(chunk := page), sp.TablePages() + {sp.dir};
    FreshPage(runs, now, base, pages, page);
    AddOne(runs, now, base, pages, page);
    assert done.Pages() == pages + {page};
    DistinctCount(sp.tables);
  }

  lemma BuildingEndSpace(start: seq<Byte>, m0: seq<Byte>, m1: seq<Byte>, base: int, runs: map<int, int>,
                         now: map<int, int>, sp: Space, flags: nat, page: int)
    requires Building(start, m0, base, runs, now, sp, flags) && |sp.tables| == ENTRIES
    requires base <= page && 0 <= page < PAGES && page - base !in now && SameOutside(m0, m1, {page})
    requires |m1| == UINT32
    requires sp.(chunk := page).Distinct()
    ensures var mem, done := PutPageWord(m1, page, 0, PAGE_SIZE * sp.dir), sp.(chunk := page);
      && SpaceIn(mem, done) && SameOutside(start, mem, done.Pages())
      && (forall d :: 0 <= d < ENTRIES ==> PageWord(mem, done.dir, d) % PAGE_SIZE == OrWriteable(flags))
      && forall a :: 0 <= a < UINT32 ==> Translate(mem, done, a) == a && FlagsOf(mem, done, a) == flags
  {
    hide PageWord, PutPageWord, SameOutside, Added, Translate, FlagsOf;
    var done, pages, val := sp.(chunk := page), sp.TablePages() + {sp.dir}, PAGE_SIZE * sp.dir;
    var mem := PutPageWord(m1, page, 0, val);
    FreshPage(runs, now, base, pages, page);
    assert done.Pages() == pages + {page};
    PutStaysInPage(m1, page, 0, val);
    SameOutsideTrans(m0, m1, mem, {page}, {page});
    SameOutsideSelf(mem, {sp.dir});
    JoinFrames(start, m0, mem, mem, pages, page, sp.dir);
    PageWordOfPut(m1, page, 0, val, page, 0);
    forall d | 0 <= d < ENTRIES
      ensures PageWord(mem, sp.dir, d) / PAGE_SIZE == sp.tables[d]
      ensures PageWord(mem, sp.dir, d) % PAGE_SIZE == OrWriteable(flags)
    {
      PageWordFrame(m0, mem, {page}, sp.dir, d);
      Unpack(sp.tables[d], OrWriteable(flags));
    }
    forall a | 0 <= a < UINT32
      ensures Translate(mem, done, a) == a && FlagsOf(mem, done, a) == flags
    {
      var q := a / PAGE_SIZE;
      assert sp.tables[q / ENTRIES] in pages;
      PageWordFrame(m0, mem, {page}, sp.tables[q / ENTRIES], q % ENTRIES);
      IdentityEntry(mem, done, a, flags);
    }
  }

  lemma IdentityEntry(mem: seq<Byte>, sp: Space, a: int, flags: nat)
    requires |mem| == UINT32 && sp.Distinct() && 0 <= a < UINT32 && flags < 256
    requires var q := a / PAGE_SIZE;
      PageWord(mem, sp.tables[q / ENTRIES], q % ENTRIES) == PAGE_SIZE * (ENTRIES * (q / ENTRIES) + q % ENTRIES) + flags
    ensures Translate(mem, sp, a) == a && FlagsOf(mem, sp, a) == flags
  {
    var q := a / PAGE_SIZE;
    assert ENTRIES * (q / ENTRIES) + q % ENTRIES == q;
    Unpack(q, flags);
  }
}
