/**
 A process's dynamic memory: heap runs recorded in an allocation table and
 identity-mapped for user access in the process's address space.
 */
module ProcessMemory {
  import opened Status
  import opened Bytes
  import opened KernelHeap
  import opened PageTables
  import opened Paging

  const MAX_ALLOCATIONS := 1024
  /** Present, writeable and reachable from user mode. */
  const USER_FLAGS := IS_WRITEABLE + IS_PRESENT + ACCESS_FROM_ALL

  datatype Allocation = Allocation(ptr: nat, size: nat)

  /** Every page of the run is identity-mapped with the given flags. */
  ghost predicate MappedSelf(mem: seq<Byte>, sp: Space, page: int, n: int, flags: int)
    requires |mem| == UINT32 && sp.Distinct() && 0 <= page && page + n <= PAGES
  {
    forall q :: page <= q < page + n ==> Entry(mem, sp, q) == PAGE_SIZE * q + flags
  }

  /** The process can use the byte at this address, and it is the physical one:
      bits 0, 1 and 2 of the entry make the page present, writable and reachable
      from user mode. */
  ghost predicate Usable(mem: seq<Byte>, sp: Space, a: int)
    requires |mem| == UINT32 && sp.Distinct() && 0 <= a < UINT32
  {
    && Translate(mem, sp, a) == a
    && FlagsOf(mem, sp, a) % 2 == 1 && FlagsOf(mem, sp, a) / 2 % 2 == 1 && FlagsOf(mem, sp, a) / 4 % 2 == 1
  }

  lemma UserEntryUsable(mem: seq<Byte>, sp: Space, a: int)
    requires |mem| == UINT32 && sp.Distinct() && 0 <= a < UINT32
    requires Entry(mem, sp, a / PAGE_SIZE) == PAGE_SIZE * (a / PAGE_SIZE) + USER_FLAGS
    ensures Usable(mem, sp, a)
  {
    hide Entry;
    Unpack(a / PAGE_SIZE, USER_FLAGS);
  }

  /** Every byte of a live record is usable. */
  lemma RecordUsable(a: Allocation, mem: seq<Byte>, sp: Space, runs: map<int, int>, base: int, total: nat, x: int)
    requires |mem| == UINT32 && sp.Distinct() && LiveRecord(a, mem, sp, runs, base, total)
    requires a.ptr <= x < a.ptr + a.size
    ensures 0 <= x < UINT32 && Usable(mem, sp, x)
  {
    hide Entry;
    BlocksHold(a.size);
    UserEntryUsable(mem, sp, x);
  }

  /** A live record: its pointer is a run of its own size, apart from the pages
      of the address space, and mapped for the user. */
  ghost predicate LiveRecord(a: Allocation, mem: seq<Byte>, sp: Space, runs: map<int, int>, base: int, total: nat)
    requires |mem| == UINT32 && sp.Distinct()
  {
    var page := a.ptr / PAGE_SIZE;
    && 1 <= a.size <= UINT32 - BLOCK_SIZE && a.ptr % PAGE_SIZE == 0
    && var n := BlocksFor(a.size);
       && 0 <= base && base <= page && page + n <= base + total <= PAGES
       && page - base in runs && runs[page - base] == n
       && page !in sp.Pages()
       && MappedSelf(mem, sp, page, n, USER_FLAGS)
  }

  ghost predicate LiveRecords(allocs: seq<Allocation>, mem: seq<Byte>, sp: Space, runs: map<int, int>, base: int,
                              total: nat)
    requires |mem| == UINT32 && sp.Distinct()
  {
    && (forall i :: 0 <= i < |allocs| && allocs[i].ptr != 0 ==> LiveRecord(allocs[i], mem, sp, runs, base, total))
    && (forall i, j :: 0 <= i < j < |allocs| && allocs[i].ptr != 0 ==> allocs[i].ptr != allocs[j].ptr)
  }

  lemma NewRecordUsable(allocs: seq<Allocation>, mem: seq<Byte>, sp: Space, runs: map<int, int>, base: int, total: nat,
                        i: int, x: int)
    requires |mem| == UINT32 && sp.Distinct() && LiveRecords(allocs, mem, sp, runs, base, total)
    requires 0 <= i < |allocs| && allocs[i].ptr != 0 && allocs[i].ptr <= x < allocs[i].ptr + allocs[i].size
    ensures 0 <= x < UINT32 && Usable(mem, sp, x)
  {
    hide LiveRecord, Usable, Entry;
    RecordUsable(allocs[i], mem, sp, runs, base, total, x);
  }

  /** No address of the `n` pages from `ptr` on is present. */
  ghost predicate Absent(mem: seq<Byte>, sp: Space, ptr: nat, n: int)
    requires |mem| == UINT32 && sp.Distinct()
  {
    forall a :: 0 <= a < UINT32 && ptr <= a < ptr + 4096 * n ==> FlagsOf(mem, sp, a) % 2 == 0
  }

  /** Pages mapped with no flags are not present. */
  lemma NotPresent(mem: seq<Byte>, after: seq<Byte>, sp: Space, ptr: nat, n: int)
    requires |mem| == UINT32 && |after| == UINT32 && sp.Distinct() && ptr % PAGE_SIZE == 0
    requires RemappedEntries(mem, after, sp, ptr / PAGE_SIZE, n, 0)
    ensures Absent(after, sp, ptr, n)
  {
    hide Entry;
    forall a | 0 <= a < UINT32 && ptr <= a < ptr + PAGE_SIZE * n
      ensures FlagsOf(after, sp, a) % 2 == 0
    {
      var q := a / PAGE_SIZE;
      assert ptr / PAGE_SIZE <= q < ptr / PAGE_SIZE + n;
      assert Entry(after, sp, q) == PAGE_SIZE * q;
    }
  }

  /** The pages two live records cover do not meet. */
  lemma LiveRecordsDisjoint(allocs: seq<Allocation>, mem: seq<Byte>, sp: Space, runs: map<int, int>, base: int,
                            total: nat, i: int, j: int)
    requires |mem| == UINT32 && sp.Distinct() && LiveRecords(allocs, mem, sp, runs, base, total) && RunsApart(runs)
    requires 0 <= i < j < |allocs| && allocs[i].ptr != 0 && allocs[j].ptr != 0
    ensures var a, b := allocs[i], allocs[j];
      || a.ptr + PAGE_SIZE * BlocksFor(a.size) <= b.ptr
      || b.ptr + PAGE_SIZE * BlocksFor(b.size) <= a.ptr
  {
    var a, b := allocs[i], allocs[j];
    var s, u := a.ptr / PAGE_SIZE - base, b.ptr / PAGE_SIZE - base;
    assert LiveRecord(a, mem, sp, runs, base, total) && LiveRecord(b, mem, sp, runs, base, total);
    assert s != u;
    if s < u {
      assert s + runs[s] <= u;
    } else {
      assert u + runs[u] <= s;
    }
  }

  /** Two objects are not the same one. */
  ghost predicate Apart(a: object, b: object) {
    a != b
  }

  class Process {
    const machine: Machine
    /** The main task's page directory. */
    const chunk: nat
    const directory: nat
    ghost const sp: Space
    const allocations: array<Allocation>

    constructor (machine: Machine, chunk: nat, directory: nat, ghost sp: Space)
      requires machine.Valid() && SpaceIn(machine.mem, sp)
      requires chunk == PAGE_SIZE * sp.chunk && directory == PAGE_SIZE * sp.dir
      requires OwnsPages(machine.heap.runs, machine.base, sp.Pages())
      ensures Valid() && this.machine == machine && this.sp == sp
      ensures fresh(allocations) && allocations[..] == seq(1024, _ => Allocation(0, 0))
    {
      hide Partitioned, SpaceIn, OwnsPages;
      this.machine, this.chunk, this.directory, this.sp := machine, chunk, directory, sp;
      allocations := new Allocation[MAX_ALLOCATIONS](_ => Allocation(0, 0));
      SpaceSize(machine.mem, sp);
    }

    ghost predicate Valid()
      reads this, machine, machine.heap, machine.heap.entries, allocations
    {
      && machine.Valid() && SpaceIn(machine.mem, sp)
      && chunk == PAGE_SIZE * sp.chunk && directory == PAGE_SIZE * sp.dir
      && OwnsPages(machine.heap.runs, machine.base, sp.Pages())
      && allocations.Length == MAX_ALLOCATIONS && Apart(allocations, machine.heap.entries)
      && LiveRecords(allocations[..], machine.mem, sp, machine.heap.runs, machine.base, machine.heap.entries.Length)
    }

    method FindFreeIndex() returns (res: int)
      requires allocations.Length == MAX_ALLOCATIONS
      ensures -ENOMEM <= res < MAX_ALLOCATIONS
      ensures res >= 0 ==> allocations[res].ptr == 0 && forall k :: 0 <= k < res ==> allocations[k].ptr != 0
      ensures res < 0 ==> forall k :: 0 <= k < MAX_ALLOCATIONS ==> allocations[k].ptr != 0
    {
      res := -ENOMEM;
      for i := 0 to MAX_ALLOCATIONS
        invariant res == -ENOMEM
        invariant forall k :: 0 <= k < i ==> allocations[k].ptr != 0
      {
        if allocations[i].ptr == 0 {
          res := i;
          break;
        }
      }
    }

    method FindAllocation(ptr: nat) returns (index: int)
      requires allocations.Length == MAX_ALLOCATIONS
      ensures -1 <= index < MAX_ALLOCATIONS
      ensures index >= 0 ==> allocations[index].ptr == ptr && forall k :: 0 <= k < index ==> allocations[k].ptr != ptr
      ensures index < 0 ==> forall k :: 0 <= k < MAX_ALLOCATIONS ==> allocations[k].ptr != ptr
    {
      for i := 0 to MAX_ALLOCATIONS
        invariant forall k :: 0 <= k < i ==> allocations[k].ptr != ptr
      {
        if allocations[i].ptr == ptr {
          return i;
        }
      }
      return -1;
    }

    /** Clears every record of the pointer; there is only one. */
    method Unjoin(ptr: nat, ghost index: int)
      requires allocations.Length == MAX_ALLOCATIONS && 0 <= index < MAX_ALLOCATIONS
      requires allocations[index].ptr == ptr
      requires forall k :: 0 <= k < MAX_ALLOCATIONS && k != index ==> allocations[k].ptr != ptr
      modifies allocations
      ensures allocations[..] == old(allocations[..])[index := Allocation(0, 0)]
    {
      for i := 0 to MAX_ALLOCATIONS
        invariant forall k :: 0 <= k < MAX_ALLOCATIONS ==>
          allocations[k] == if k == index && k < i then Allocation(0, 0) else old(allocations[k])
      {
        if allocations[i].ptr == ptr {
          allocations[i] := Allocation(0, 0);
        }
      }
    }

    /** Maps a fresh run into the space and records it in a free slot. */
    method MapAndRecord(ptr: nat, size: nat, index: int, ghost start: seq<Byte>, ghost runs: map<int, int>)
      returns (res: int)
      requires machine.Valid() && SpaceIn(machine.mem, sp) && directory == PAGE_SIZE * sp.dir
      requires Apart(allocations, machine.heap.entries)
      requires allocations.Length == MAX_ALLOCATIONS && 0 <= index < MAX_ALLOCATIONS && allocations[index].ptr == 0
      requires FreshRun(runs, machine.heap.runs, machine.base, machine.heap.entries.Length, sp, ptr, size)
      requires |start| == UINT32 && SameEntries(start, machine.mem, sp)
      requires LiveRecords(allocations[..], start, sp, runs, machine.base, machine.heap.entries.Length)
      modifies machine`mem, allocations
      ensures res == 0 && machine.Valid() && SpaceIn(machine.mem, sp)
      ensures allocations[..] == old(allocations[..])[index := Allocation(ptr, size)]
      ensures LiveRecords(allocations[..], machine.mem, sp, machine.heap.runs, machine.base,
                          machine.heap.entries.Length)
      ensures RemappedEntries(start, machine.mem, sp, ptr / PAGE_SIZE, BlocksFor(size), USER_FLAGS)
      ensures Cleared(old(machine.mem), ptr, size) ==> Cleared(machine.mem, ptr, size)
      ensures SameOutside(old(machine.mem), machine.mem, sp.TablePages())
    {
      hide Partitioned, LiveRecords, Entry, Remapped, MappedEntry, BlocksFor, AlignAddress, Cleared;
      ghost var mid, n := machine.mem, BlocksFor(size);
      var physEnd := AlignAddress(ptr + size);
      AlignedEnd(ptr, size);
      BlocksHold(size);
      res := machine.MapTo(directory, ptr, ptr, physEnd, USER_FLAGS, sp);
      RemappedInterval(start, mid, machine.mem, sp, ptr / PAGE_SIZE, n, USER_FLAGS);
      if Cleared(mid, ptr, size) {
        StaysCleared(mid, machine.mem, sp, ptr, size, n);
      }
      RecordsAdd(allocations[..], start, machine.mem, sp, runs, machine.heap.runs, machine.base,
                 machine.heap.entries.Length, index, Allocation(ptr, size));
      ghost var allocs := allocations[..];
      allocations[index] := Allocation(ptr, size);
      assert allocations[..] == allocs[index := Allocation(ptr, size)];
    }

    /** Allocates, maps and records. Fails with nothing kept when the heap is
        full or the table has no free slot. Memory in use is not touched: only
        the process's own tables and blocks that were free can change. */
    method Malloc(size: nat) returns (ptr: nat)
      requires Valid() && 1 <= size <= UINT32 - BLOCK_SIZE && machine.heap.CanServe(BlocksFor(size))
      modifies machine`mem, machine.heap`runs, machine.heap.entries, allocations
      ensures Valid()
      ensures ptr != 0 <==> Fits(old(machine.heap.entries[..]), BlocksFor(size)) && HasSlot(old(allocations[..]))
      ensures ptr == 0 ==>
        && machine.heap.runs == old(machine.heap.runs) && machine.heap.entries[..] == old(machine.heap.entries[..])
        && allocations[..] == old(allocations[..])
        && SameEntries(old(machine.mem), machine.mem, sp)
      ensures ptr != 0 ==>
        && FreshRun(old(machine.heap.runs), machine.heap.runs, machine.base, machine.heap.entries.Length, sp, ptr, size)
        && Recorded(old(allocations[..]), allocations[..], Allocation(ptr, size))
        && Cleared(machine.mem, ptr, size)
        && RemappedEntries(old(machine.mem), machine.mem, sp, ptr / PAGE_SIZE, BlocksFor(size), USER_FLAGS)
        && UnchangedAround(old(machine.mem), machine.mem, ptr, size, sp.TablePages())
        && forall a :: ptr <= a < ptr + size ==> 0 <= a < UINT32 && Usable(machine.mem, sp, a)
      ensures LiveKept(old(machine.mem), machine.mem, sp.TablePages(), machine.base, old(machine.heap.runs),
                       machine.heap.entries.Length)
    {
      hide Partitioned, Fits, AllFree, Taken, SpaceIn, OwnsPages, LiveRecords, LiveKept, UnchangedAround, SameOutside;
      hide Entry, FreshRun, BlocksFor, ZeroedIn, RemappedEntries, LowestFree, Cleared;
      ghost var m0, t0, runs0, allocs0 := machine.mem, machine.heap.entries[..], machine.heap.runs, allocations[..];
      ghost var base, total, n := machine.base, machine.heap.entries.Length, BlocksFor(size);
      SpaceSize(m0, sp);
      BlocksHold(size);
      AllLiveKept(m0, sp.TablePages(), base, runs0, total);
      ptr := machine.Zalloc(size);
      if ptr == 0 {
        return;
      }
      ghost var s := ptr / PAGE_SIZE - base;
      NewRunApart(machine.heap.entries[..], runs0, s, n, base, sp);
      IsFreshRun(runs0, base, total, sp, ptr, size);
      ZeroedAside(m0, machine.mem, sp, ptr, size, n);
      ghost var m1 := machine.mem;
      ZeroedFree(m0, m1, sp.TablePages(), t0, runs0, base, ptr, size, n);
      var index := FindFreeIndex();
      if index < 0 {
        GiveBack(ptr, t0, runs0, s, n);
        RecordsKeep(allocs0, m0, machine.mem, sp, runs0, base, total);
        return 0;
      }
      assert HasSlot(allocs0) by {
        assert allocs0[index].ptr == 0;
      }
      SlotIsLowest(allocs0, index);
      ClearedRun(m0, machine.mem, ptr, size);
      // pointer and end are page-aligned, so the mapping cannot fail
      var _ := MapAndRecord(ptr, size, index, m0, runs0);
      FramesJoin(m0, m1, machine.mem, sp.TablePages(), base, runs0, total, ptr, size);
      forall a | ptr <= a < ptr + size
        ensures 0 <= a < UINT32 && Usable(machine.mem, sp, a)
      {
        NewRecordUsable(allocations[..], machine.mem, sp, machine.heap.runs, base, total, index, a);
      }
    }

    /** At any time every byte of every live record is usable. */
    lemma RecordsUsable(i: int, x: int)
      requires Valid() && 0 <= i < MAX_ALLOCATIONS && allocations[i].ptr != 0
      requires allocations[i].ptr <= x < allocations[i].ptr + allocations[i].size
      ensures 0 <= x < UINT32 && |machine.mem| == UINT32 && sp.Distinct() && Usable(machine.mem, sp, x)
    {
      hide Partitioned, OwnsPages, SpaceIn, Usable;
      SpaceSize(machine.mem, sp);
      NewRecordUsable(allocations[..], machine.mem, sp, machine.heap.runs, machine.base,
                      machine.heap.entries.Length, i, x);
    }

    /** Unmaps, forgets and frees a recorded pointer: exactly its pages become
        not present and exactly its blocks free, and no byte outside the process's
        own tables changes. Any other pointer is ignored. */
    method Free(ptr: nat)
      requires Valid() && ptr != 0
      modifies machine`mem, machine.heap`runs, machine.heap.entries, allocations
      ensures Valid() && SameOutside(old(machine.mem), machine.mem, sp.TablePages())
      ensures !HasRecord(old(allocations[..]), ptr) ==>
        && machine.mem == old(machine.mem) && machine.heap.runs == old(machine.heap.runs)
        && machine.heap.entries[..] == old(machine.heap.entries[..]) && allocations[..] == old(allocations[..])
      ensures HasRecord(old(allocations[..]), ptr) ==>
        var s := ptr / PAGE_SIZE - machine.base;
        && s in old(machine.heap.runs) && machine.heap.runs == old(machine.heap.runs) - {s}
        && machine.heap.entries[..] == Freed(old(machine.heap.entries[..]), s, old(machine.heap.runs)[s])
        && Forgotten(old(allocations[..]), allocations[..], ptr)
        && RemappedEntries(old(machine.mem), machine.mem, sp, ptr / PAGE_SIZE, old(machine.heap.runs)[s], 0)
        && Absent(machine.mem, sp, ptr, old(machine.heap.runs)[s])
    {
      hide Partitioned, SpaceIn, OwnsPages, LiveRecords, Entry, Remapped;
      hide MappedEntry, BlocksFor, RemappedEntries, Freed, AlignAddress, SameOutside;
      SameOutsideSelf(machine.mem, sp.TablePages());
      ghost var m0, runs0, allocs0 := machine.mem, machine.heap.runs, allocations[..];
      ghost var base, total := machine.base, machine.heap.entries.Length;
      SpaceSize(m0, sp);
      var index := FindAllocation(ptr);
      if index < 0 {
        return;
      }
      var a := allocations[index];
      assert a == allocs0[index];
      RecordAt(allocs0, m0, sp, runs0, base, total, index);
      AlignedEnd(ptr, a.size);
      var res := machine.MapTo(directory, a.ptr, a.ptr, AlignAddress(a.ptr + a.size), 0x00, sp);
      if res < 0 {
        return;
      }
      RemappedInterval(m0, m0, machine.mem, sp, ptr / PAGE_SIZE, BlocksFor(a.size), 0);
      NotPresent(m0, machine.mem, sp, ptr, BlocksFor(a.size));
      ApartOfPartition(machine.heap.entries[..], runs0);
      RecordsRemove(allocs0, m0, machine.mem, sp, runs0, base, total, index);
      Unjoin(ptr, index);
      machine.heap.Free(ptr);
    }

    /** Freeing what was just allocated restores the heap, though the pages stay
        behind as not present. */
    method MallocThenFree(size: nat) returns (ptr: nat)
      requires Valid() && 1 <= size <= UINT32 - BLOCK_SIZE && machine.heap.CanServe(BlocksFor(size))
      modifies machine`mem, machine.heap`runs, machine.heap.entries, allocations
      ensures Valid()
      ensures machine.heap.runs == old(machine.heap.runs) && machine.heap.entries[..] == old(machine.heap.entries[..])
      ensures RemappedEntries(old(machine.mem), machine.mem, sp, ptr / PAGE_SIZE,
                              if ptr == 0 then 0 else BlocksFor(size), 0)
    {
      hide Partitioned, Fits, SpaceIn, OwnsPages, LiveRecords, Entry, BlocksFor, Freed;
      ghost var t, runs := machine.heap.entries[..], machine.heap.runs;
      SpaceSize(machine.mem, sp);
      ptr := Malloc(size);
      if ptr != 0 {
        assert HasRecord(allocations[..], ptr) by {
          var k :| 0 <= k < MAX_ALLOCATIONS && LowestFree(old(allocations[..]), k)
            && allocations[..] == old(allocations[..])[k := Allocation(ptr, size)];
          assert allocations[..][k].ptr == ptr;
        }
        Free(ptr);
        assert machine.heap.runs == runs;
        TableDetermined(t, machine.heap.entries[..], runs);
      }
    }

    /** The failure path: freeing the run just taken restores the heap. */
    method GiveBack(ptr: nat, ghost t: seq<bv8>, ghost runs: map<int, int>, ghost s: int, ghost n: int)
      requires machine.Valid() && Partitioned(t, runs) && n >= 1 && AllFree(t, s, n) && s !in runs
      requires machine.heap.runs == runs[s := n] && machine.heap.entries[..] == Taken(t, s, n)
      requires ptr % PAGE_SIZE == 0 && s == ptr / PAGE_SIZE - machine.base && 0 <= s
      modifies machine.heap`runs, machine.heap.entries
      ensures machine.Valid() && machine.heap.runs == runs && machine.heap.entries[..] == t
    {
      hide Partitioned, AllFree, Taken, Freed;
      FreeUndoesMalloc(t, runs, s, n);
      machine.heap.Free(ptr);
      assert machine.heap.runs == runs;
    }
  }

  // ------------------------------------------------------------ lemmas

  ghost predicate HasSlot(allocs: seq<Allocation>) {
    exists k :: 0 <= k < |allocs| && allocs[k].ptr == 0
  }

  /** `after` is `allocs` with `a` put in the lowest free slot. */
  ghost predicate Recorded(allocs: seq<Allocation>, after: seq<Allocation>, a: Allocation) {
    exists k :: 0 <= k < |allocs| && LowestFree(allocs, k) && after == allocs[k := a]
  }

  ghost predicate LowestFree(allocs: seq<Allocation>, k: int)
    requires 0 <= k < |allocs|
  {
    allocs[k].ptr == 0 && forall j :: 0 <= j < k ==> allocs[j].ptr != 0
  }

  /** The bytes of the range are zero. */
  ghost predicate Cleared(mem: seq<Byte>, ptr: nat, size: nat) {
    ptr + size <= |mem| && forall a :: ptr <= a < ptr + size ==> mem[a] == 0
  }

  /** `next` is `runs` with a new run for `size` bytes at `ptr`, apart from all
      other runs and from the space's own pages. */
  ghost predicate FreshRun(runs: map<int, int>, next: map<int, int>, base: int, total: nat, sp: Space,
                           ptr: nat, size: nat) {
    && 1 <= size <= UINT32 - BLOCK_SIZE && ptr % PAGE_SIZE == 0
    && var page, n := ptr / PAGE_SIZE, BlocksFor(size);
       && n >= 1 && 0 <= base <= page && page + n <= base + total < PAGES
       && page - base !in runs && next == runs[page - base := n] && RunsApart(next)
       && forall p :: p in sp.Pages() ==> p < page || page + n <= p
  }

  ghost predicate HasRecord(allocs: seq<Allocation>, ptr: nat) {
    exists k :: 0 <= k < |allocs| && allocs[k].ptr == ptr
  }

  /** `after` is `allocs` with the pointer's record cleared. */
  ghost predicate Forgotten(allocs: seq<Allocation>, after: seq<Allocation>, ptr: nat) {
    exists k :: 0 <= k < |allocs| && allocs[k].ptr == ptr && after == allocs[k := Allocation(0, 0)]
  }

  lemma SlotIsLowest(allocs: seq<Allocation>, k: int)
    requires 0 <= k < |allocs| && allocs[k].ptr == 0 && forall j :: 0 <= j < k ==> allocs[j].ptr != 0
    ensures LowestFree(allocs, k)
  {
  }

  lemma ClearedRun(mem: seq<Byte>, after: seq<Byte>, ptr: nat, size: nat)
    requires |mem| == UINT32 && |after| == UINT32 && ZeroedIn(mem, after, ptr, size) && ptr + size <= UINT32
    ensures Cleared(after, ptr, size)
  {
  }

  /** Mapping writes page tables only, so a run apart from them stays cleared. */
  lemma StaysCleared(mem: seq<Byte>, after: seq<Byte>, sp: Space, ptr: nat, size: nat, n: int)
    requires |mem| == UINT32 && sp.Distinct() && SameOutside(mem, after, sp.TablePages()) && Cleared(mem, ptr, size)
    requires ptr % PAGE_SIZE == 0 && size <= PAGE_SIZE * n
    requires forall p :: p in sp.Pages() ==> p < ptr / PAGE_SIZE || ptr / PAGE_SIZE + n <= p
    ensures Cleared(after, ptr, size)
  {
    forall a | ptr <= a < ptr + size
      ensures after[a] == 0
    {
      var q := a / PAGE_SIZE;
      assert ptr / PAGE_SIZE <= q < ptr / PAGE_SIZE + n;
      assert q !in sp.Pages();
    }
  }

  /** Memory outside the pages and the blocks no run covers is what it was. */
  ghost predicate LiveKept(mem: seq<Byte>, after: seq<Byte>, pages: set<int>, base: int, runs: map<int, int>,
                           total: nat) {
    && |mem| == |after|
    && forall a :: 0 <= a < |mem| && a / PAGE_SIZE !in pages && a / PAGE_SIZE - base !in FreeBlocks(runs, total) ==>
      after[a] == mem[a]
  }

  lemma AllLiveKept(mem: seq<Byte>, pages: set<int>, base: int, runs: map<int, int>, total: nat)
    ensures LiveKept(mem, mem, pages, base, runs, total)
  {
  }

  /** Clearing blocks that were free touches no memory in use. */
  lemma ZeroedFree(mem: seq<Byte>, after: seq<Byte>, pages: set<int>, t: seq<bv8>, runs: map<int, int>, base: int,
                   ptr: nat, size: nat, n: nat)
    requires |mem| == UINT32 && |after| == UINT32 && ZeroedIn(mem, after, ptr, size)
    requires Partitioned(t, runs) && AllFree(t, ptr / PAGE_SIZE - base, n)
    requires ptr % PAGE_SIZE == 0 && size <= PAGE_SIZE * n
    ensures LiveKept(mem, after, pages, base, runs, |t|) && UnchangedAround(mem, after, ptr, size, pages)
  {
    forall a | 0 <= a < UINT32 && a / PAGE_SIZE - base !in FreeBlocks(runs, |t|)
      ensures after[a] == mem[a]
    {
      var i := a / PAGE_SIZE - base;
      if ptr <= a < ptr + size {
        FreeIffOutside(t, runs, i);
      }
    }
  }

  lemma FramesJoin(mem: seq<Byte>, mid: seq<Byte>, after: seq<Byte>, pages: set<int>, base: int, runs: map<int, int>,
                   total: nat, ptr: nat, size: nat)
    requires LiveKept(mem, mid, pages, base, runs, total) && UnchangedAround(mem, mid, ptr, size, pages)
    requires SameOutside(mid, after, pages)
    ensures LiveKept(mem, after, pages, base, runs, total) && UnchangedAround(mem, after, ptr, size, pages)
  {
  }

  lemma IsFreshRun(runs: map<int, int>, base: int, total: nat, sp: Space, ptr: nat, size: nat)
    requires 1 <= size <= UINT32 - BLOCK_SIZE && ptr % PAGE_SIZE == 0 && 0 <= base && base + total < PAGES
    requires var page, n := ptr / PAGE_SIZE, BlocksFor(size);
      && base <= page && page + n <= base + total
      && page - base !in runs && RunsApart(runs[page - base := n])
      && forall p :: p in sp.Pages() ==> p < page || page + n <= p
    ensures FreshRun(runs, runs[ptr / PAGE_SIZE - base := BlocksFor(size)], base, total, sp, ptr, size)
  {
    BlocksHold(size);
  }

  ghost predicate SameEntries(mem: seq<Byte>, after: seq<Byte>, sp: Space)
    requires |mem| == UINT32 && |after| == UINT32 && sp.Distinct()
  {
    forall q :: 0 <= q < PAGES ==> Entry(after, sp, q) == Entry(mem, sp, q)
  }

  /** Exactly the `n` pages from `page` on are mapped to themselves with the flags. */
  ghost predicate RemappedEntries(mem: seq<Byte>, after: seq<Byte>, sp: Space, page: int, n: int, flags: int)
    requires |mem| == UINT32 && |after| == UINT32 && sp.Distinct()
  {
    forall q :: 0 <= q < PAGES ==>
      Entry(after, sp, q) == if page <= q < page + n then PAGE_SIZE * q + flags else Entry(mem, sp, q)
  }

  /** A new run keeps clear of the address space's own pages. */
  lemma NewRunApart(t: seq<bv8>, runs: map<int, int>, s: int, n: int, base: int, sp: Space)
    requires Partitioned(t, runs[s := n]) && s !in runs && OwnsPages(runs, base, sp.Pages())
    ensures RunsApart(runs[s := n]) && OwnsPages(runs[s := n], base, sp.Pages())
    ensures forall p :: p in sp.Pages() ==> p < base + s || base + s + n <= p
  {
    var after := runs[s := n];
    forall p | p in sp.Pages()
      ensures p < base + s || base + s + n <= p
    {
      var b := p - base;
      assert b in runs && b != s && b in after && s in after;
    }
  }

  /** Clearing memory outside the space's pages changes no entry. */
  lemma ZeroedAside(mem: seq<Byte>, after: seq<Byte>, sp: Space, ptr: nat, size: nat, n: nat)
    requires SpaceIn(mem, sp) && |after| == UINT32 && ZeroedIn(mem, after, ptr, size)
    requires ptr % PAGE_SIZE == 0 && size <= PAGE_SIZE * n
    requires forall p :: p in sp.Pages() ==> p < ptr / PAGE_SIZE || ptr / PAGE_SIZE + n <= p
    ensures SpaceIn(after, sp) && SameEntries(mem, after, sp)
  {
    var page := ptr / PAGE_SIZE;
    forall a | 0 <= a < UINT32 && a / PAGE_SIZE !in OtherPages(sp)
      ensures after[a] == mem[a]
    {
      assert a / PAGE_SIZE in sp.Pages();
      assert ptr == PAGE_SIZE * page;
    }
    SpaceFrame(mem, after, OtherPages(sp), sp);
  }

  lemma AlignedEnd(ptr: nat, size: nat)
    requires ptr % PAGE_SIZE == 0 && 1 <= size <= UINT32 - BLOCK_SIZE
    ensures AlignAddress(ptr + size) == ptr + PAGE_SIZE * BlocksFor(size)
    ensures (AlignAddress(ptr + size) - ptr) / PAGE_SIZE == BlocksFor(size)
  {
    assert (ptr + size) % PAGE_SIZE == size % PAGE_SIZE;
  }

  lemma RemappedInterval(mem: seq<Byte>, mid: seq<Byte>, after: seq<Byte>, sp: Space, page: int, n: int, flags: int)
    requires |mem| == UINT32 && SpaceIn(mid, sp) && SameEntries(mem, mid, sp)
    requires Remapped(mid, after, sp, page, page, n, flags) && 0 <= page && 0 <= n && page + n <= PAGES
    ensures |after| == UINT32 && RemappedEntries(mem, after, sp, page, n, flags)
    ensures SameOutside(mid, after, sp.TablePages())
  {
    forall q | 0 <= q < PAGES
      ensures Entry(after, sp, q) == if page <= q < page + n then PAGE_SIZE * q + flags else Entry(mem, sp, q)
    {
      MappedEntryInterval(Entry(mid, sp, q), q, page, page, n, flags);
    }
  }

  /** Live records depend only on their runs and on their pages' entries. */
  lemma RecordsKeep(allocs: seq<Allocation>, mem: seq<Byte>, after: seq<Byte>, sp: Space, runs: map<int, int>,
                    base: int, total: nat)
    requires |mem| == UINT32 && |after| == UINT32 && sp.Distinct() && LiveRecords(allocs, mem, sp, runs, base, total)
    requires SameEntries(mem, after, sp)
    ensures LiveRecords(allocs, after, sp, runs, base, total)
  {
    forall i | 0 <= i < |allocs| && allocs[i].ptr != 0
      ensures LiveRecord(allocs[i], after, sp, runs, base, total)
    {
      assert LiveRecord(allocs[i], mem, sp, runs, base, total);
    }
  }

  lemma RecordsAdd(allocs: seq<Allocation>, mem: seq<Byte>, after: seq<Byte>, sp: Space, runs: map<int, int>,
                   next: map<int, int>, base: int, total: nat, index: int, a: Allocation)
    requires |mem| == UINT32 && |after| == UINT32 && sp.Distinct() && LiveRecords(allocs, mem, sp, runs, base, total)
    requires 0 <= index < |allocs| && allocs[index].ptr == 0
    requires FreshRun(runs, next, base, total, sp, a.ptr, a.size)
    requires RemappedEntries(mem, after, sp, a.ptr / PAGE_SIZE, BlocksFor(a.size), USER_FLAGS)
    ensures LiveRecords(allocs[index := a], after, sp, next, base, total)
  {
    hide Entry, BlocksFor;
    var page, n := a.ptr / PAGE_SIZE, BlocksFor(a.size);
    var s := page - base;
    forall i | 0 <= i < |allocs| && allocs[i].ptr != 0
      ensures LiveRecord(allocs[i], after, sp, next, base, total) && allocs[i].ptr != a.ptr
    {
      var b := allocs[i];
      assert LiveRecord(b, mem, sp, runs, base, total);
      var u := b.ptr / PAGE_SIZE - base;
      assert u in next && s in next && u != s;
    }
    assert LiveRecord(a, after, sp, next, base, total);
  }

  lemma ApartOfPartition(t: seq<bv8>, runs: map<int, int>)
    requires Partitioned(t, runs)
    ensures RunsApart(runs)
  {
  }

  /** What a live record says of its pointer. */
  lemma RecordAt(allocs: seq<Allocation>, mem: seq<Byte>, sp: Space, runs: map<int, int>, base: int, total: nat,
                 index: int)
    requires |mem| == UINT32 && sp.Distinct() && LiveRecords(allocs, mem, sp, runs, base, total)
    requires 0 <= index < |allocs| && allocs[index].ptr != 0
    ensures LiveRecord(allocs[index], mem, sp, runs, base, total)
    ensures forall k :: 0 <= k < |allocs| && k != index ==> allocs[k].ptr != allocs[index].ptr
  {
  }

  lemma RecordsRemove(allocs: seq<Allocation>, mem: seq<Byte>, after: seq<Byte>, sp: Space, runs: map<int, int>,
                      base: int, total: nat, index: int)
    requires |mem| == UINT32 && |after| == UINT32 && sp.Distinct() && LiveRecords(allocs, mem, sp, runs, base, total)
    requires RunsApart(runs) && OwnsPages(runs, base, sp.Pages())
    requires 0 <= index < |allocs| && allocs[index].ptr != 0
    requires LiveRecord(allocs[index], mem, sp, runs, base, total)
    requires RemappedEntries(mem, after, sp, allocs[index].ptr / PAGE_SIZE, BlocksFor(allocs[index].size), 0)
    ensures var s := allocs[index].ptr / PAGE_SIZE - base;
      && LiveRecords(allocs[index := Allocation(0, 0)], after, sp, runs - {s}, base, total)
      && OwnsPages(runs - {s}, base, sp.Pages())
  {
    hide Entry, BlocksFor;
    var a := allocs[index];
    var s := a.ptr / PAGE_SIZE - base;
    forall i | 0 <= i < |allocs| && i != index && allocs[i].ptr != 0
      ensures LiveRecord(allocs[i], after, sp, runs - {s}, base, total)
    {
      var b := allocs[i];
      assert LiveRecord(b, mem, sp, runs, base, total) && b.ptr != a.ptr;
      var u := b.ptr / PAGE_SIZE - base;
      assert u in runs && s in runs && u != s;
    }
  }
}
