/**
 Copying a list of arguments into a new process: an array of pointers and one
 512-byte string per argument, each an allocation of the process.
 */
module ArgumentVector {
  import opened Basics
  import opened Status
  import opened Bytes
  import opened KernelHeap
  import opened PageTables
  import opened Paging
  import opened ProcessMemory
  import opened Isolation
  import opened Strtok
  import opened CommandLine

  const WORD_SIZE := 4

  class Arguments {
    var argc: int
    var argv: nat

    constructor ()
      ensures argc == 0 && argv == 0
    {
      argc, argv := 0, 0;
    }
  }

  /** Characters that are bytes, none of them the terminator. */
  ghost predicate IsText(s: string) {
    forall i :: 0 <= i < |s| ==> 0 < s[i] as int < 256
  }

  ghost function AsBytes(s: string): (b: seq<Byte>)
    requires IsText(s)
    ensures |b| == |s|
  {
    seq<Byte>(|s|, i requires 0 <= i < |s| => s[i] as int)
  }

  // ------------------------------------------------------------ resources

  ghost function SlotSet(allocs: seq<Allocation>): set<int> {
    set k | 0 <= k < |allocs| && allocs[k].ptr == 0
  }

  ghost function FreeSlots(allocs: seq<Allocation>): nat {
    |SlotSet(allocs)|
  }

  lemma SlotCount(allocs: seq<Allocation>)
    ensures FreeSlots(allocs) > 0 <==> HasSlot(allocs)
  {
    if HasSlot(allocs) {
      var k :| 0 <= k < |allocs| && allocs[k].ptr == 0;
      assert k in SlotSet(allocs);
    }
  }

  /** A new record takes a slot and leaves all live ones alone. */
  lemma RecordedKeeps(allocs: seq<Allocation>, after: seq<Allocation>, a: Allocation)
    requires Recorded(allocs, after, a) && a.ptr != 0
    ensures FreeSlots(after) == FreeSlots(allocs) - 1 && a in after
    ensures forall b :: b in allocs && b.ptr != 0 ==> b in after
  {
    var k :| 0 <= k < |allocs| && LowestFree(allocs, k) && after == allocs[k := a];
    assert SlotSet(after) == SlotSet(allocs) - {k};
    forall b | b in allocs && b.ptr != 0
      ensures b in after
    {
      var j :| 0 <= j < |allocs| && allocs[j] == b;
      assert after[j] == b;
    }
    assert after[k] == a;
  }

  /** A fresh run is none of the live records. */
  lemma FreshRecord(allocs: seq<Allocation>, mem: seq<Byte>, sp: Space, runs: map<int, int>, next: map<int, int>,
                    base: int, total: nat, ptr: nat, size: nat)
    requires |mem| == UINT32 && sp.Distinct() && LiveRecords(allocs, mem, sp, runs, base, total)
    requires FreshRun(runs, next, base, total, sp, ptr, size)
    ensures forall b :: b in allocs && b.ptr != 0 ==> b.ptr != ptr
  {
    hide BlocksFor, Entry;
    forall b | b in allocs && b.ptr != 0
      ensures b.ptr != ptr
    {
      var j :| 0 <= j < |allocs| && allocs[j] == b;
      assert LiveRecord(b, mem, sp, runs, base, total);
    }
  }

  lemma RunsPositive(t: seq<bv8>, runs: map<int, int>)
    requires Partitioned(t, runs)
    ensures RunsApart(runs) && forall r :: r in runs ==> runs[r] >= 1
  {
    forall r | r in runs
      ensures runs[r] >= 1
    {
      assert RunAt(t, r, runs[r]);
    }
  }

  lemma FreshCount(runs: map<int, int>, next: map<int, int>, base: int, total: nat, sp: Space, ptr: nat, size: nat)
    requires FreshRun(runs, next, base, total, sp, ptr, size) && forall r :: r in runs ==> runs[r] >= 1
    ensures |FreeBlocks(next, total)| == |FreeBlocks(runs, total)| - BlocksFor(size)
  {
    FreeAfterRun(runs, total, ptr / PAGE_SIZE - base, BlocksFor(size));
  }

  lemma OneBlockFits(t: seq<bv8>, runs: map<int, int>)
    requires Partitioned(t, runs)
    ensures Fits(t, 1) <==> |FreeBlocks(runs, |t|)| > 0
  {
    hide Partitioned;
    if Fits(t, 1) {
      var s :| AllFree(t, s, 1);
      TakenIsFree(t, runs, s);
    }
    if |FreeBlocks(runs, |t|)| > 0 {
      var i :| i in FreeBlocks(runs, |t|);
      FreeBlockFits(t, runs, i);
    }
  }

  /** An allocation, with what it costs and what it leaves alone. */
  method Take(p: Process, size: nat) returns (ptr: nat)
    requires p.Valid() && 1 <= size <= UINT32 - BLOCK_SIZE && p.machine.heap.CanServe(BlocksFor(size))
    modifies p.machine`mem, p.machine.heap`runs, p.machine.heap.entries, p.allocations
    ensures p.Valid() && BytesKept(old(p.machine.mem), p.machine.mem, old(p.allocations[..]))
    ensures ptr != 0 <==>
      Fits(old(p.machine.heap.entries[..]), BlocksFor(size)) && FreeSlots(old(p.allocations[..])) > 0
    ensures ptr != 0 ==>
      && Allocation(ptr, size) in p.allocations[..]
      && FreeSlots(p.allocations[..]) == FreeSlots(old(p.allocations[..])) - 1
      && p.machine.FreeCount() == old(p.machine.FreeCount()) - BlocksFor(size)
      && forall b :: b in old(p.allocations[..]) && b.ptr != 0 ==> b in p.allocations[..] && b.ptr != ptr
  {
    hide Partitioned, Fits, SpaceIn, OwnsPages, LiveRecords, Entry, BlocksFor, LiveKept, BytesKept, FreshRun;
    hide RemappedEntries, UnchangedAround, Cleared, FreeSlots, FreeBlocks, Recorded, HasSlot;
    ghost var m, mem0, runs0, base := p.machine, p.machine.mem, p.machine.heap.runs, p.machine.base;
    ghost var total, allocs0 := m.heap.entries.Length, p.allocations[..];
    RunsPositive(m.heap.entries[..], runs0);
    SpaceSize(mem0, p.sp);
    SlotCount(allocs0);
    OwnPagesOnly(allocs0, mem0, p.sp, runs0, base, total);
    ptr := p.Malloc(size);
    RecordBytesFrame(mem0, m.mem, p.sp.TablePages(), p.sp, allocs0, runs0, base, total);
    if ptr != 0 {
      RecordedKeeps(allocs0, p.allocations[..], Allocation(ptr, size));
      FreshRecord(allocs0, mem0, p.sp, runs0, m.heap.runs, base, total, ptr, size);
      FreshCount(runs0, m.heap.runs, base, total, p.sp, ptr, size);
    }
  }

  lemma OwnPagesOnly(allocs: seq<Allocation>, mem: seq<Byte>, sp: Space, runs: map<int, int>, base: int, total: nat)
    requires |mem| == UINT32 && sp.Distinct() && LiveRecords(allocs, mem, sp, runs, base, total)
    requires OwnsPages(runs, base, sp.Pages())
    ensures RecordsClear(allocs, sp.TablePages()) && OwnsPages(runs, base, sp.TablePages())
  {
    OwnRecordsClear(allocs, mem, sp, runs, base, total);
  }

  // ----------------------------------------------------- writing a record

  ghost predicate RecordKept(mem: seq<Byte>, after: seq<Byte>, a: Allocation) {
    |mem| == |after| && forall x :: 0 <= x < |mem| && InRecord(a, x) ==> after[x] == mem[x]
  }

  /** Writing inside a live record changes no mapping and no other record. */
  lemma WriteInRecord(allocs: seq<Allocation>, mem: seq<Byte>, after: seq<Byte>, sp: Space, runs: map<int, int>,
                      base: int, total: nat, a: Allocation)
    requires SpaceIn(mem, sp) && |mem| == UINT32 && sp.Distinct() && RunsApart(runs)
    requires OwnsPages(runs, base, sp.Pages()) && LiveRecords(allocs, mem, sp, runs, base, total)
    requires a in allocs && a.ptr != 0 && UnchangedAround(mem, after, a.ptr, a.size, {})
    ensures SpaceIn(after, sp) && |after| == UINT32 && LiveRecords(allocs, after, sp, runs, base, total)
    ensures forall b :: b in allocs && b.ptr != 0 && b.ptr != a.ptr ==> RecordKept(mem, after, b)
  {
    hide BlocksFor, LiveRecord, SpaceIn, Entry;
    var i :| 0 <= i < |allocs| && allocs[i] == a;
    forall x | 0 <= x < UINT32 && x / PAGE_SIZE !in OtherPages(sp)
      ensures after[x] == mem[x]
    {
      if InRecord(a, x) {
        RecordAvoidsSpace(a, mem, sp, runs, base, total, x);
      }
    }
    SpaceFrame(mem, after, OtherPages(sp), sp);
    RecordsKeep(allocs, mem, after, sp, runs, base, total);
    forall b | b in allocs && b.ptr != 0 && b.ptr != a.ptr
      ensures RecordKept(mem, after, b)
    {
      var j :| 0 <= j < |allocs| && allocs[j] == b;
      RecordsDisjoint(allocs, mem, sp, runs, base, total, i, j);
    }
  }

  lemma RecordAvoidsSpace(a: Allocation, mem: seq<Byte>, sp: Space, runs: map<int, int>, base: int, total: nat, x: int)
    requires |mem| == UINT32 && sp.Distinct() && LiveRecord(a, mem, sp, runs, base, total) && InRecord(a, x)
    requires RunsApart(runs) && OwnsPages(runs, base, sp.Pages())
    ensures x / PAGE_SIZE !in sp.Pages()
  {
    hide BlocksFor, LiveRecord, Entry;
    var page := a.ptr / PAGE_SIZE;
    RecordPage(a, mem, sp, runs, base, total);
    RecordByte(a, mem, sp, runs, base, total, x);
    RunAvoidsPages(runs, base, sp.Pages(), page, runs[page - base], x / PAGE_SIZE);
  }

  lemma RecordPage(a: Allocation, mem: seq<Byte>, sp: Space, runs: map<int, int>, base: int, total: nat)
    requires |mem| == UINT32 && sp.Distinct() && LiveRecord(a, mem, sp, runs, base, total)
    ensures a.ptr / PAGE_SIZE !in sp.Pages() && a.ptr + a.size <= UINT32
  {
    BlocksHold(a.size);
  }

  lemma RecordsDisjoint(allocs: seq<Allocation>, mem: seq<Byte>, sp: Space, runs: map<int, int>, base: int, total: nat,
                        i: int, j: int)
    requires |mem| == UINT32 && sp.Distinct() && LiveRecords(allocs, mem, sp, runs, base, total) && RunsApart(runs)
    requires 0 <= i < |allocs| && 0 <= j < |allocs| && i != j && allocs[i].ptr != 0 && allocs[j].ptr != 0
    ensures var a, b := allocs[i], allocs[j]; a.ptr + a.size <= b.ptr || b.ptr + b.size <= a.ptr
  {
    assert LiveRecord(allocs[i], mem, sp, runs, base, total) && LiveRecord(allocs[j], mem, sp, runs, base, total);
    BlocksHold(allocs[i].size);
    BlocksHold(allocs[j].size);
    hide BlocksFor, Entry;
    LiveRecordsDisjoint(allocs, mem, sp, runs, base, total, if i < j then i else j, if i < j then j else i);
  }

  /** `strncpy` into one of the process's records. */
  method StoreString(p: Process, ptr: nat, s: string)
    requires p.Valid() && ptr != 0 && Allocation(ptr, ARGUMENT_SIZE) in p.allocations[..]
    requires IsText(s) && |s| < ARGUMENT_SIZE
    modifies p.machine`mem
    ensures p.Valid() && CString(p.machine.mem, ptr, AsBytes(s))
    ensures forall b :: b in p.allocations[..] && b.ptr != 0 && b.ptr != ptr ==>
      RecordKept(old(p.machine.mem), p.machine.mem, b)
  {
    hide Partitioned, SpaceIn, OwnsPages, LiveRecords, Entry, BlocksFor;
    ghost var a, m0 := Allocation(ptr, ARGUMENT_SIZE), p.machine.mem;
    SpaceSize(m0, p.sp);
    InMemory(p, a);
    var i := 0;
    while i < ARGUMENT_SIZE - 1 && i < |s|
      invariant 0 <= i <= |s| && |p.machine.mem| == UINT32
      invariant UnchangedAround(m0, p.machine.mem, ptr, ARGUMENT_SIZE, {})
      invariant forall k :: 0 <= k < i ==> p.machine.mem[ptr + k] == AsBytes(s)[k]
    {
      p.machine.mem := p.machine.mem[ptr + i := s[i] as int];
      i := i + 1;
    }
    p.machine.mem := p.machine.mem[ptr + i := 0];
    ApartOfPartition(p.machine.heap.entries[..], p.machine.heap.runs);
    WriteInRecord(p.allocations[..], m0, p.machine.mem, p.sp, p.machine.heap.runs, p.machine.base,
                  p.machine.heap.entries.Length, a);
  }

  lemma InMemory(p: Process, a: Allocation)
    requires p.Valid() && a in p.allocations[..] && a.ptr != 0
    ensures a.ptr + a.size <= UINT32
  {
    hide Partitioned, SpaceIn, OwnsPages, Entry, BlocksFor, LiveRecord;
    SpaceSize(p.machine.mem, p.sp);
    var j :| 0 <= j < |p.allocations[..]| && p.allocations[..][j] == a;
    RecordPage(a, p.machine.mem, p.sp, p.machine.heap.runs, p.machine.base, p.machine.heap.entries.Length);
  }

  /** Writes one pointer into one of the process's records. */
  method StorePointer(p: Process, ptr: nat, i: nat, val: nat, ghost size: nat)
    requires p.Valid() && ptr != 0 && Allocation(ptr, size) in p.allocations[..]
    requires WORD_SIZE * i + WORD_SIZE <= size && val < UINT32
    modifies p.machine`mem
    ensures p.Valid() && |old(p.machine.mem)| == UINT32 && ptr + size <= UINT32
    ensures p.machine.mem == PutWord(old(p.machine.mem), ptr + WORD_SIZE * i, val)
    ensures forall b :: b in p.allocations[..] && b.ptr != 0 && b.ptr != ptr ==>
      RecordKept(old(p.machine.mem), p.machine.mem, b)
  {
    hide Partitioned, SpaceIn, OwnsPages, LiveRecords, Entry, BlocksFor;
    ghost var a, m0 := Allocation(ptr, size), p.machine.mem;
    SpaceSize(m0, p.sp);
    InMemory(p, a);
    p.machine.mem := PutWord(p.machine.mem, ptr + WORD_SIZE * i, val);
    ApartOfPartition(p.machine.heap.entries[..], p.machine.heap.runs);
    WriteInRecord(p.allocations[..], m0, p.machine.mem, p.sp, p.machine.heap.runs, p.machine.base,
                  p.machine.heap.entries.Length, a);
  }

  // ---------------------------------------------------------- the vector

  /** The first `|ptrs|` pointers of the vector point at the first arguments. */
  ghost predicate Holds(mem: seq<Byte>, argv: nat, ptrs: seq<nat>, args: seq<string>) {
    && |ptrs| <= |args| && argv + WORD_SIZE * |args| <= |mem|
    && forall k :: 0 <= k < |ptrs| ==> HoldsAt(mem, argv, k, ptrs[k], args[k])
  }

  ghost predicate HoldsAt(mem: seq<Byte>, argv: nat, k: nat, ptr: nat, arg: string) {
    && argv + 4 * k + 4 <= |mem| && Word(mem, argv + 4 * k) == ptr
    && IsText(arg) && CString(mem, ptr, AsBytes(arg))
  }

  /** The vector and its strings are records of the process, no two the same. */
  ghost predicate Owned(allocs: seq<Allocation>, argv: nat, n: nat, ptrs: seq<nat>) {
    && argv != 0 && Allocation(argv, WORD_SIZE * n) in allocs
    && forall k :: 0 <= k < |ptrs| ==> ptrs[k] != 0 && ptrs[k] != argv && Allocation(ptrs[k], ARGUMENT_SIZE) in allocs
  }

  ghost predicate Proper(args: seq<string>) {
    forall i :: 0 <= i < |args| ==> IsText(args[i]) && |args[i]| < ARGUMENT_SIZE
  }

  /** What is held so far depends on the records' bytes alone. */
  lemma HoldsFrame(mem: seq<Byte>, after: seq<Byte>, argv: nat, ptrs: seq<nat>, args: seq<string>)
    requires Holds(mem, argv, ptrs, args) && Proper(args) && argv != 0
    requires RecordKept(mem, after, Allocation(argv, WORD_SIZE * |args|))
    requires forall k :: 0 <= k < |ptrs| ==> ptrs[k] != 0 && RecordKept(mem, after, Allocation(ptrs[k], ARGUMENT_SIZE))
    ensures Holds(after, argv, ptrs, args)
  {
    hide IsText, CString;
    forall k | 0 <= k < |ptrs|
      ensures HoldsAt(after, argv, k, ptrs[k], args[k])
    {
      assert HoldsAt(mem, argv, k, ptrs[k], args[k]);
      assert RecordKept(mem, after, Allocation(ptrs[k], ARGUMENT_SIZE));
      var a, w := Allocation(argv, WORD_SIZE * |args|), argv + WORD_SIZE * k;
      assert InRecord(a, w) && InRecord(a, w + 1) && InRecord(a, w + 2) && InRecord(a, w + 3);
      StringKept(mem, after, ptrs[k], args[k]);
    }
  }

  /** A string that is held outlives the write of the vector's next pointer. */
  lemma PutKeeps(mem: seq<Byte>, argv: nat, ptrs: seq<nat>, args: seq<string>, ptr: nat)
    requires Holds(mem, argv, ptrs, args) && |ptrs| < |args| && Proper(args)
    requires |mem| == UINT32 && ptr < UINT32 && argv != 0
    requires CString(mem, ptr, AsBytes(args[|ptrs|])) && ptr != 0
    requires forall k :: 0 <= k < |ptrs| ==> ptrs[k] != 0
    requires var after := PutWord(mem, argv + WORD_SIZE * |ptrs|, ptr);
      && RecordKept(mem, after, Allocation(ptr, ARGUMENT_SIZE))
      && forall k :: 0 <= k < |ptrs| ==> RecordKept(mem, after, Allocation(ptrs[k], ARGUMENT_SIZE))
    ensures Holds(PutWord(mem, argv + WORD_SIZE * |ptrs|, ptr), argv, ptrs + [ptr], args)
  {
    hide IsText, PutWord, Word, CString;
    var n := |ptrs|;
    var p := argv + WORD_SIZE * n;
    var after, more := PutWord(mem, p, ptr), ptrs + [ptr];
    forall k | 0 <= k <= n
      ensures HoldsAt(after, argv, k, more[k], args[k])
    {
      assert k < n ==> HoldsAt(mem, argv, k, ptrs[k], args[k]);
      assert k < n ==> RecordKept(mem, after, Allocation(ptrs[k], ARGUMENT_SIZE));
      WordOfPut(mem, p, ptr, argv + WORD_SIZE * k);
      StringKept(mem, after, more[k], args[k]);
    }
  }

  lemma StringKept(mem: seq<Byte>, after: seq<Byte>, ptr: nat, s: string)
    requires IsText(s) && |s| < ARGUMENT_SIZE && ptr != 0 && CString(mem, ptr, AsBytes(s))
    requires RecordKept(mem, after, Allocation(ptr, ARGUMENT_SIZE))
    ensures CString(after, ptr, AsBytes(s))
  {
    hide IsText;
    forall x | ptr <= x <= ptr + |s|
      ensures after[x] == mem[x]
    {
      assert InRecord(Allocation(ptr, ARGUMENT_SIZE), x);
    }
  }

  lemma KeptRecord(mem: seq<Byte>, after: seq<Byte>, allocs: seq<Allocation>, a: Allocation)
    requires BytesKept(mem, after, allocs) && a in allocs
    ensures RecordKept(mem, after, a)
  {
    var i :| 0 <= i < |allocs| && allocs[i] == a;
  }

  lemma AllKept(mem: seq<Byte>, after: seq<Byte>, allocs: seq<Allocation>, argv: nat, n: nat, ptrs: seq<nat>)
    requires BytesKept(mem, after, allocs) && Owned(allocs, argv, n, ptrs)
    ensures RecordKept(mem, after, Allocation(argv, WORD_SIZE * n))
    ensures forall k :: 0 <= k < |ptrs| ==> RecordKept(mem, after, Allocation(ptrs[k], ARGUMENT_SIZE))
  {
    hide BytesKept, RecordKept;
    KeptRecord(mem, after, allocs, Allocation(argv, WORD_SIZE * n));
    forall k | 0 <= k < |ptrs|
      ensures RecordKept(mem, after, Allocation(ptrs[k], ARGUMENT_SIZE))
    {
      KeptRecord(mem, after, allocs, Allocation(ptrs[k], ARGUMENT_SIZE));
    }
  }

  /** One argument: a new string, filled, and its pointer in the vector. */
  method InjectOne(p: Process, argv: nat, i: nat, s: string, ghost ptrs: seq<nat>, ghost args: seq<string>)
    returns (ptr: nat)
    requires p.Valid() && Owned(p.allocations[..], argv, |args|, ptrs) && Holds(p.machine.mem, argv, ptrs, args)
    requires Proper(args) && i == |ptrs| < |args| && s == args[i]
    modifies p.machine`mem, p.machine.heap`runs, p.machine.heap.entries, p.allocations
    ensures p.Valid()
    ensures ptr != 0 <==> old(p.machine.FreeCount()) > 0 && FreeSlots(old(p.allocations[..])) > 0
    ensures ptr != 0 ==>
      && Owned(p.allocations[..], argv, |args|, ptrs + [ptr]) && Holds(p.machine.mem, argv, ptrs + [ptr], args)
      && p.machine.FreeCount() == old(p.machine.FreeCount()) - 1
      && FreeSlots(p.allocations[..]) == FreeSlots(old(p.allocations[..])) - 1
  {
    assert BlocksFor(ARGUMENT_SIZE) == 1;
    hide Partitioned, Fits, SpaceIn, OwnsPages, LiveRecords, Entry, BytesKept, FreeSlots, FreeBlocks, Holds, CString;
    hide RecordKept, IsText, AsBytes, PutWord, BlocksFor;
    OneBlockServed(p.machine.heap.entries[..]);
    OneBlockFits(p.machine.heap.entries[..], p.machine.heap.runs);
    ghost var allocs0, m0, n := p.allocations[..], p.machine.mem, |args|;
    ptr := Take(p, ARGUMENT_SIZE);
    if ptr == 0 {
      return;
    }
    AllKept(m0, p.machine.mem, allocs0, argv, n, ptrs);
    HoldsFrame(m0, p.machine.mem, argv, ptrs, args);
    OneMoreOwned(allocs0, p.allocations[..], argv, n, ptrs, ptr);
    FillOne(p, argv, i, ptr, s, ptrs, args);
  }

  lemma OneMoreOwned(allocs: seq<Allocation>, after: seq<Allocation>, argv: nat, n: nat, ptrs: seq<nat>, ptr: nat)
    requires Owned(allocs, argv, n, ptrs) && ptr != 0 && Allocation(ptr, ARGUMENT_SIZE) in after
    requires forall b :: b in allocs && b.ptr != 0 ==> b in after && b.ptr != ptr
    ensures Owned(after, argv, n, ptrs + [ptr]) && forall k :: 0 <= k < |ptrs| ==> ptrs[k] != ptr
  {
    assert Allocation(argv, WORD_SIZE * n) in allocs;
    forall k | 0 <= k < |ptrs|
      ensures ptrs[k] != ptr && Allocation(ptrs[k], ARGUMENT_SIZE) in after
    {
      assert Allocation(ptrs[k], ARGUMENT_SIZE) in allocs;
    }
  }

  /** Fills a new string and enters its pointer in the vector. */
  method FillOne(p: Process, argv: nat, i: nat, ptr: nat, s: string, ghost ptrs: seq<nat>, ghost args: seq<string>)
    requires p.Valid() && Owned(p.allocations[..], argv, |args|, ptrs + [ptr]) && Holds(p.machine.mem, argv, ptrs, args)
    requires forall k :: 0 <= k < |ptrs| ==> ptrs[k] != ptr
    requires Proper(args) && i == |ptrs| < |args| && s == args[i]
    modifies p.machine`mem
    ensures p.Valid() && Holds(p.machine.mem, argv, ptrs + [ptr], args)
  {
    hide Partitioned, SpaceIn, OwnsPages, LiveRecords, Entry, Holds, CString, RecordKept, IsText, AsBytes, PutWord;
    ghost var m1, more := p.machine.mem, ptrs + [ptr];
    assert more[i] == ptr && forall k :: 0 <= k < i ==> more[k] == ptrs[k];
    InMemory(p, Allocation(ptr, ARGUMENT_SIZE));
    StoreString(p, ptr, s);
    ghost var m2 := p.machine.mem;
    HoldsFrame(m1, m2, argv, ptrs, args);
    StorePointer(p, argv, i, ptr, WORD_SIZE * |args|);
    PutKeeps(m2, argv, ptrs, args, ptr);
  }

  /** There is room for the vector and one block and slot per string. */
  ghost predicate Enough(t: seq<bv8>, free: nat, slots: nat, n: nat)
  {
    && WORD_SIZE * n < UINT32
    && var b := BlocksFor(WORD_SIZE * n);
       Fits(t, b) && free >= b + n && slots >= 1 + n
  }

  /** Copies the list into the process: argc is its length, and argv a vector of
      pointers to strings that hold its arguments, all of them records of the
      process and so mapped for it. It succeeds exactly when the list is not empty
      and there is room; a failure leaves argc and argv alone. */
  method InjectArguments(p: Process, out: Arguments, root: Argument?,
                         ghost nodes: seq<Argument>, ghost args: seq<string>)
    returns (res: int, ghost ptrs: seq<nat>)
    requires p.Valid() && IsList(root, nodes, args) && Proper(args)
    requires WORD_SIZE * |args| <= UINT32 - BLOCK_SIZE
    requires |args| > 0 ==> p.machine.heap.CanServe(BlocksFor(WORD_SIZE * |args|))
    modifies out, p.machine`mem, p.machine.heap`runs, p.machine.heap.entries, p.allocations
    ensures p.Valid()
    ensures res == if |args| == 0 then -EIO
      else if Enough(old(p.machine.heap.entries[..]), old(p.machine.FreeCount()),
                     FreeSlots(old(p.allocations[..])), |args|) then 0 else -ENOMEM
    ensures res == 0 ==>
      && out.argc == |args| == |ptrs| && Owned(p.allocations[..], out.argv, |args|, ptrs)
      && Holds(p.machine.mem, out.argv, ptrs, args)
    ensures res != 0 ==> out.argc == old(out.argc) && out.argv == old(out.argv)
  {
    hide Partitioned, Fits, SpaceIn, OwnsPages, LiveRecords, Entry, BytesKept, FreeSlots, FreeBlocks, Holds, Owned;
    hide BlocksFor, IsText;
    ptrs := [];
    var argc := CountArguments(root, nodes, args);
    if argc == 0 {
      return -EIO, ptrs;
    }
    ghost var free, slots, b := p.machine.FreeCount(), FreeSlots(p.allocations[..]), BlocksFor(WORD_SIZE * argc);
    ghost var fits := Fits(p.machine.heap.entries[..], b);
    var argv := Take(p, WORD_SIZE * argc);
    if argv == 0 {
      return -ENOMEM, ptrs;
    }
    NothingHeld(p, argv, args);
    var current := root;
    var i := 0;
    while current != null
      invariant 0 <= i == |ptrs| <= argc && p.Valid() && IsList(root, nodes, args)
      invariant out.argc == old(out.argc) && out.argv == old(out.argv)
      invariant current == if i < |nodes| then nodes[i] else null
      invariant Owned(p.allocations[..], argv, argc, ptrs) && Holds(p.machine.mem, argv, ptrs, args)
      invariant p.machine.FreeCount() == free - b - i && FreeSlots(p.allocations[..]) == slots - 1 - i
      decreases argc - i
    {
      var ptr := InjectOne(p, argv, i, current.argument, ptrs, args);
      if ptr == 0 {
        return -ENOMEM, ptrs;
      }
      ptrs := ptrs + [ptr];
      assert nodes[i].next == if i + 1 < |nodes| then nodes[i + 1] else null;
      current := current.next;
      i := i + 1;
    }
    out.argc := argc;
    out.argv := argv;
    return 0, ptrs;
  }

  lemma NothingHeld(p: Process, argv: nat, args: seq<string>)
    requires p.Valid() && argv != 0 && Allocation(argv, WORD_SIZE * |args|) in p.allocations[..]
    ensures Owned(p.allocations[..], argv, |args|, []) && Holds(p.machine.mem, argv, [], args)
  {
    InMemory(p, Allocation(argv, WORD_SIZE * |args|));
  }

  /** From the typed line to argc and argv. The shell keeps as many of the line's
      words as it can allocate list nodes for; the new process gets exactly those,
      or an error that says why not. */
  method RunCommand(p: Process, out: Arguments, command: string, max: int, shellMemory: nat)
    returns (res: int, ghost ptrs: seq<nat>, ghost text: string, ghost spans: seq<Span>, ghost words: seq<string>)
    requires p.Valid() && IsText(command)
    modifies out, p.machine`mem, p.machine.heap`runs, p.machine.heap.entries, p.allocations
    ensures p.Valid()
    ensures IsStart(text, command, 1024) && AreWords(text, spans, words)
    ensures var args := if max > 1024 then [] else if shellMemory < |words| then words[..shellMemory] else words;
      && res == (if |args| == 0 then -EIO
                 else if old(p.machine.FreeCount()) >= 1 + |args| && FreeSlots(old(p.allocations[..])) >= 1 + |args|
                 then 0 else -ENOMEM)
      && (res == 0 ==>
            && out.argc == |args| == |ptrs| && Owned(p.allocations[..], out.argv, |args|, ptrs)
            && Holds(p.machine.mem, out.argv, ptrs, args))
      && (res != 0 ==> out.argc == old(out.argc) && out.argv == old(out.argv))
  {
    text, spans := ArgumentsAreWords(command);
    words := ArgumentsOf(command);
    hide ArgumentsOf, BlocksFor, Partitioned, SpaceIn, OwnsPages, LiveRecords, AreWords, IsStart;
    hide Enough, FreeSlots, FreeBlocks, Holds, Owned;
    TypedFits(command, max, shellMemory);
    OneBlockServed(p.machine.heap.entries[..]);
    if |Typed(command, max, shellMemory)| > 0 {
      EnoughForLine(p, |Typed(command, max, shellMemory)|);
    }
    NoNul(command);
    var root, nodes := ParseCommand(command, max, shellMemory);
    res, ptrs := InjectArguments(p, out, root, nodes, Typed(command, max, shellMemory));
  }

  /** The vector of a line's words takes one block, so it is enough to count. */
  lemma EnoughForLine(p: Process, n: nat)
    requires p.Valid() && n >= 1 && WORD_SIZE * n <= PAGE_SIZE && BlocksFor(WORD_SIZE * n) == 1
    ensures var free, slots := p.machine.FreeCount(), FreeSlots(p.allocations[..]);
      Enough(p.machine.heap.entries[..], free, slots, n) <==> free >= 1 + n && slots >= 1 + n
  {
    hide BlocksFor, Partitioned, SpaceIn, OwnsPages, LiveRecords, FreeSlots, FreeBlocks, Fits;
    var heap := p.machine.heap;
    OneBlockFits(heap.entries[..], heap.runs);
  }

  lemma NoNul(s: string)
    requires IsText(s)
    ensures NUL !in s
  {
  }

  /** The arguments that reach the kernel. */
  ghost function Typed(command: string, max: int, shellMemory: nat): seq<string> {
    var args := ArgumentsOf(command);
    if max >= COMMAND_SIZE then [] else if shellMemory < |args| then args[..shellMemory] else args
  }

  lemma TypedFits(command: string, max: int, shellMemory: nat)
    requires IsText(command)
    ensures var args := Typed(command, max, shellMemory);
      && Proper(args) && WORD_SIZE * |args| <= PAGE_SIZE && (|args| > 0 ==> BlocksFor(WORD_SIZE * |args|) == 1)
  {
    hide ArgumentsOf;
    ArgumentsFit(command);
    var all, args := ArgumentsOf(command), Typed(command, max, shellMemory);
    forall i | 0 <= i < |args|
      ensures IsText(args[i]) && |args[i]| < ARGUMENT_SIZE
    {
      assert args[i] == all[i];
      forall j | 0 <= j < |args[i]|
        ensures 0 < args[i][j] as int < 256
      {
        ArgumentCharacter(command, i, j);
        var t :| 0 <= t < |command| && command[t] == args[i][j];
      }
    }
  }
}
